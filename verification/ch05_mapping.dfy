/**
 * Chapter 5, first example set: extrema with `max`/`min` (directly with a key,
 * or by wrapping each leg with its distance and unwrapping the winner), unit
 * conversion with `map`, pairing points with `zip` or a two-argument `map`,
 * keeping the long legs with `filter`, and sorting legs by distance.  A leg
 * is the tuple (start, end, distance); the distance function between two
 * points is a parameter.
 */
module Ch05Mapping {
  import opened Py
  import opened Sorting
  import Ch04Pairs
  import opened Ch04Stats

  /** A leg of the trip: (start, end, distance). */
  type Leg<P> = (P, P, real)

  function Start<P>(leg: Leg<P>): P { leg.0 }
  function End<P>(leg: Leg<P>): P { leg.1 }
  function Dist<P>(leg: Leg<P>): real { leg.2 }

  // ---------------------------------------------------------------------------
  // max and min

  /** The running winner: an item replaces it only when it beats it. */
  function BestFrom<T>(beats: (T, T) -> bool, current: T, rest: seq<T>): T
    decreases |rest|
  {
    if |rest| == 0 then current
    else BestFrom(beats, if beats(rest[0], current) then rest[0] else current, rest[1..])
  }

  /**
   * `max(s)` (beats = `>`) and `min(s)` (beats = `<`): the first item no later
   * item beats; an empty sequence raises ValueError.
   */
  function Best<T>(beats: (T, T) -> bool, s: seq<T>): (r: Outcome<T>)
    ensures r.Raised? <==> |s| == 0
    ensures r.Raised? ==> r.exc == ValueError
  {
    if |s| == 0 then Raised(ValueError) else Ok(BestFrom(beats, s[0], s[1..]))
  }

  /** `beats` agrees with a numeric key: it never prefers a smaller key and always prefers a larger one. */
  ghost predicate Ranks<T(!new)>(beats: (T, T) -> bool, key: T -> real)
  {
    (forall x, y :: beats(x, y) ==> key(x) >= key(y))
    && (forall x, y :: key(x) > key(y) ==> beats(x, y))
  }

  lemma {:induction false} BestFromIsExtreme<T(!new)>(beats: (T, T) -> bool, key: T -> real, current: T, rest: seq<T>)
    requires Ranks(beats, key)
    ensures BestFrom(beats, current, rest) == current || BestFrom(beats, current, rest) in rest
    ensures key(BestFrom(beats, current, rest)) >= key(current)
    ensures forall i :: 0 <= i < |rest| ==> key(rest[i]) <= key(BestFrom(beats, current, rest))
    decreases |rest|
  {
    if |rest| > 0 {
      var next := if beats(rest[0], current) then rest[0] else current;
      BestFromIsExtreme(beats, key, next, rest[1..]);
      assert forall i :: 1 <= i < |rest| ==> rest[i] == rest[1..][i - 1];
    }
  }

  /** Whenever `beats` ranks by a key, `max`/`min` returns an item of the input whose key is extreme. */
  lemma BestIsExtreme<T(!new)>(beats: (T, T) -> bool, key: T -> real, s: seq<T>)
    requires Ranks(beats, key) && |s| > 0
    ensures Best(beats, s).value in s
    ensures forall i :: 0 <= i < |s| ==> key(s[i]) <= key(Best(beats, s).value)
  {
    BestFromIsExtreme(beats, key, s[0], s[1..]);
    assert forall i :: 1 <= i < |s| ==> s[i] == s[1..][i - 1];
  }

  /** `wrap`: pairs every leg with its distance. */
  function Wrap<P>(legs: seq<Leg<P>>): (r: seq<(real, Leg<P>)>)
    ensures |r| == |legs|
  {
    Map((leg: Leg<P>) => (Dist(leg), leg), legs)
  }

  /** `unwrap`: the leg of a wrapped pair. */
  function Unwrap<P>(w: (real, Leg<P>)): Leg<P>
  {
    w.1
  }

  /** Unwrapping every wrapped leg gives the legs back, and every wrapper carries its leg's distance. */
  lemma UnwrapWrap<P>(legs: seq<Leg<P>>)
    ensures Map(Unwrap, Wrap(legs)) == legs
    ensures forall i :: 0 <= i < |legs| ==> Wrap(legs)[i].0 == Dist(Unwrap(Wrap(legs)[i]))
  {
  }

  /**
   * Tuple comparison of wrapped legs: the distance decides, and on equal
   * distances the legs themselves are compared by `legBeats` (Python's
   * tuple order on the points, which the model leaves abstract).
   */
  function WrappedBeats<P>(legBeats: (Leg<P>, Leg<P>) -> bool, greater: bool): ((real, Leg<P>), (real, Leg<P>)) -> bool
  {
    (a: (real, Leg<P>), b: (real, Leg<P>)) =>
      (if greater then a.0 > b.0 else a.0 < b.0) || (a.0 == b.0 && legBeats(a.1, b.1))
  }

  function DistKey<P>(greater: bool): Leg<P> -> real
  {
    leg => if greater then Dist(leg) else -Dist(leg)
  }

  function WrappedKey<P>(greater: bool): ((real, Leg<P>)) -> real
  {
    (w: (real, Leg<P>)) => if greater then w.0 else -w.0
  }

  /** `max(dataset, key=dist)` (greater) and `min(dataset, key=dist)`. */
  function ByDistance<P>(greater: bool): (Leg<P>, Leg<P>) -> bool
  {
    (a: Leg<P>, b: Leg<P>) => if greater then Dist(a) > Dist(b) else Dist(a) < Dist(b)
  }

  /**
   * `unwrap(max(wrap(ds)))` and `max(ds, key=dist)` both return a leg of the
   * data set with the largest distance; with `greater` false, `min` gives one
   * with the smallest.  This holds whatever order the points have.
   */
  lemma ExtremaAgreeOnDistance<P(!new)>(legBeats: (Leg<P>, Leg<P>) -> bool, greater: bool, ds: seq<Leg<P>>)
    requires |ds| > 0
    ensures Unwrap(Best(WrappedBeats(legBeats, greater), Wrap(ds)).value) in ds
    ensures Best(ByDistance(greater), ds).value in ds
    ensures forall i :: 0 <= i < |ds| ==>
      (if greater then Dist(ds[i]) <= Dist(Unwrap(Best(WrappedBeats(legBeats, greater), Wrap(ds)).value))
       else Dist(ds[i]) >= Dist(Unwrap(Best(WrappedBeats(legBeats, greater), Wrap(ds)).value)))
    ensures forall i :: 0 <= i < |ds| ==>
      (if greater then Dist(ds[i]) <= Dist(Best(ByDistance(greater), ds).value)
       else Dist(ds[i]) >= Dist(Best(ByDistance(greater), ds).value))
  {
    var ws := Wrap(ds);
    UnwrapWrap(ds);
    BestIsExtreme(WrappedBeats(legBeats, greater), WrappedKey(greater), ws);
    var w := Best(WrappedBeats(legBeats, greater), ws).value;
    var k :| 0 <= k < |ws| && ws[k] == w;
    assert Unwrap(w) == ds[k];
    BestIsExtreme(ByDistance(greater), DistKey(greater), ds);
    forall i | 0 <= i < |ds|
      ensures if greater then Dist(ds[i]) <= Dist(Unwrap(w)) else Dist(ds[i]) >= Dist(Unwrap(w))
    {
      assert WrappedKey(greater)(ws[i]) <= WrappedKey(greater)(w);
    }
  }

  // ---------------------------------------------------------------------------
  // Unit conversion

  /** `convert_to_sm1`: rebuilds each leg from the getters, scaling the distance. */
  function ConvertToSm1<P>(legs: seq<Leg<P>>, factor: real): seq<Leg<P>>
  {
    Map((x: Leg<P>) => (Start(x), End(x), Dist(x) * factor), legs)
  }

  /** `convert_to_sm2`: the same with tuple indexing. */
  function ConvertToSm2<P>(legs: seq<Leg<P>>, factor: real): seq<Leg<P>>
  {
    Map((x: Leg<P>) => (x.0, x.1, x.2 * factor), legs)
  }

  /** Both conversions give the same legs: same count, same ends, only the distance scaled. */
  lemma ConvertersAgree<P>(legs: seq<Leg<P>>, factor: real)
    ensures ConvertToSm1(legs, factor) == ConvertToSm2(legs, factor)
    ensures |ConvertToSm1(legs, factor)| == |legs|
    ensures forall i :: 0 <= i < |legs| ==>
      Start(ConvertToSm1(legs, factor)[i]) == Start(legs[i])
      && End(ConvertToSm1(legs, factor)[i]) == End(legs[i])
      && Dist(ConvertToSm1(legs, factor)[i]) == Dist(legs[i]) * factor
  {
    var a, b := ConvertToSm1(legs, factor), ConvertToSm2(legs, factor);
    forall i | 0 <= i < |legs|
      ensures a[i] == b[i]
    {
      assert a[i].0 == b[i].0;
      assert a[i].1 == b[i].1;
      assert a[i].2 == b[i].2;
    }
  }

  /** `to_miles`: nautical miles to statute miles. */
  function ToMiles(distance: real): real
  {
    distance * 5280.0 / 6076.12
  }

  /** `to_kilometers`: nautical miles to kilometres. */
  function ToKilometers(distance: real): real
  {
    distance * 1.852
  }

  /** `to_miles` undoes scaling by the factor 6076.12/5280 that `convert_to_sm1` is applied with. */
  lemma ToMilesInvertsFactor(distance: real)
    ensures ToMiles(distance * (6076.12 / 5280.0)) == distance
    ensures ToMiles(distance) * (6076.12 / 5280.0) == distance
  {
  }

  /** `list(convert_units(conversion, legs))`: the converted distance of each leg. */
  function ConvertUnits<P>(conversion: real -> real, legs: seq<Leg<P>>): seq<real>
  {
    Map((x: Leg<P>) => conversion(x.2), legs)
  }

  /**
   * Unpacking in `convert_units` and the `dist` getter in
   * `map(lambda x: to_miles(dist(x)), ...)` give the same values: the
   * conversion mapped over the distances.
   */
  lemma ConvertUnitsIsMapOverDist<P>(conversion: real -> real, legs: seq<Leg<P>>)
    ensures ConvertUnits(conversion, legs) == Map(conversion, Map(Dist, legs))
    ensures ConvertUnits(conversion, legs) == Map((x: Leg<P>) => conversion(Dist(x)), legs)
  {
  }

  /** `calc_distances(distance, pairs)`: each pair wrapped with its distance; `round(_, 4)` is the parameter `round4`. */
  function CalcDistances<P>(distance: (P, P) -> real, round4: real -> real, pairs: seq<(P, P)>): seq<Leg<P>>
  {
    Map((x: (P, P)) => (x.0, x.1, round4(distance(x.0, x.1))), pairs)
  }

  /** The ends of a leg, without its distance. */
  function Ends<P>(leg: Leg<P>): (P, P)
  {
    (leg.0, leg.1)
  }

  /**
   * Dropping the wrapped distances gives the pairs back, the distances are the
   * rounded distances of the pairs, and without rounding the legs are those of
   * `calc_haversines_1`.
   */
  lemma CalcDistancesUnwrap<P>(distance: (P, P) -> real, round4: real -> real, pairs: seq<(P, P)>)
    ensures Map(Ends, CalcDistances(distance, round4, pairs)) == pairs
    ensures Map(Dist, CalcDistances(distance, round4, pairs)) == Map((x: (P, P)) => round4(distance(x.0, x.1)), pairs)
    ensures CalcDistances(distance, (d: real) => d, pairs) == CalcHaversines1(distance, pairs)
  {
    var legs := CalcDistances(distance, round4, pairs);
    forall i | 0 <= i < |pairs|
      ensures Map(Ends, legs)[i] == pairs[i]
    {
      assert Map(Ends, legs)[i] == (pairs[i].0, pairs[i].1);
    }
  }

  // ---------------------------------------------------------------------------
  // Pairing with zip and with a two-argument map

  /** `iterable[1:]`, which is empty for an empty sequence. */
  function Rest<T>(xs: seq<T>): seq<T>
  {
    if |xs| == 0 then [] else xs[1..]
  }

  /** `create_pairs_1`: `zip(xs, xs[1:])`. */
  function CreatePairs1<T>(xs: seq<T>): seq<(T, T)>
  {
    Zip(xs, Rest(xs))
  }

  /** `zip` with the next item gives exactly the legs of the path. */
  lemma CreatePairs1IsLegs<T>(xs: seq<T>)
    ensures CreatePairs1(xs) == Ch04Pairs.Legs(xs)
    ensures |CreatePairs1(xs)| == if |xs| == 0 then 0 else |xs| - 1
    ensures forall i :: 0 <= i < |CreatePairs1(xs)| ==> CreatePairs1(xs)[i] == (xs[i], xs[i + 1])
  {
  }

  /** `calc_haversines_1`: each pair with its distance. */
  function CalcHaversines1<P>(distance: (P, P) -> real, pairs: seq<(P, P)>): seq<Leg<P>>
  {
    Map((x: (P, P)) => (x.0, x.1, distance(x.0, x.1)), pairs)
  }

  /** `map(f, a, b)`: f over the items of a and b side by side, up to the shorter. */
  function Map2<A, B, C>(f: (A, B) -> C, a: seq<A>, b: seq<B>): (r: seq<C>)
    ensures |r| == if |a| <= |b| then |a| else |b|
  {
    var n := if |a| <= |b| then |a| else |b|;
    seq(n, i requires 0 <= i < n => f(a[i], b[i]))
  }

  /** `calc_haversines_2`: the two-argument `map` over the points and the points shifted by one. */
  function CalcHaversines2<P>(distance: (P, P) -> real, xs: seq<P>): seq<Leg<P>>
  {
    Map2((s: P, e: P) => (s, e, distance(s, e)), xs, Rest(xs))
  }

  /** The two-argument `map` pairs the points exactly as `create_pairs_1` and `calc_haversines_1` do. */
  lemma HaversinesAgree<P>(distance: (P, P) -> real, xs: seq<P>)
    ensures CalcHaversines2(distance, xs) == CalcHaversines1(distance, CreatePairs1(xs))
  {
  }

  // ---------------------------------------------------------------------------
  // filter and sorted

  function IsLong<P>(leg: Leg<P>): bool
  {
    Dist(leg) >= 50.0
  }

  /** `list(filter(lambda x: dist(x) >= 50, dataset))`. */
  function LongDistances<P>(ds: seq<Leg<P>>): seq<Leg<P>>
  {
    Filter(IsLong, ds)
  }

  /** The long legs are exactly the legs of at least 50, each as often as in the data. */
  lemma LongDistancesExact<P>(ds: seq<Leg<P>>)
    ensures forall leg :: leg in LongDistances(ds) <==> leg in ds && Dist(leg) >= 50.0
    ensures forall leg :: Dist(leg) >= 50.0 ==> multiset(LongDistances(ds))[leg] == multiset(ds)[leg]
  {
    FilterSound(IsLong, ds);
    forall leg | leg in ds && Dist(leg) >= 50.0
      ensures leg in LongDistances(ds)
    {
      FilterKeeps(IsLong, ds, leg);
    }
    FilterCount(IsLong, ds);
  }

  lemma {:induction false} FilterCount<T>(p: T -> bool, s: seq<T>)
    ensures forall x :: p(x) ==> multiset(Filter(p, s))[x] == multiset(s)[x]
  {
    if |s| > 0 {
      FilterCount(p, s[1..]);
      assert s == [s[0]] + s[1..];
    }
  }

  /**
   * `filter(is_outlier, dataset)`: keeps the legs whose normalised distance
   * exceeds 2; a zero deviation raises ZeroDivisionError at the first leg.
   */
  function Outliers<P>(ds: seq<Leg<P>>, mean: real, stdev: real): (r: Outcome<seq<Leg<P>>>)
    ensures r.Raised? <==> stdev == 0.0 && |ds| > 0
    ensures r.Raised? ==> r.exc == ZeroDivisionError
    decreases |ds|
  {
    if |ds| == 0 then Ok([])
    else
      var z :- CalcNormalizedScore(Dist(ds[0]), mean, stdev);
      match Outliers(ds[1..], mean, stdev)
      case Raised(e) => Raised(e)
      case Ok(rest) => Ok(if z > 2.0 then [ds[0]] + rest else rest)
  }

  lemma ScoreAboveTwo(d: real, mean: real, stdev: real)
    requires stdev > 0.0
    ensures CalcNormalizedScore(d, mean, stdev).value > 2.0 <==> d > mean + 2.0 * stdev
  {
    var z := CalcNormalizedScore(d, mean, stdev).value;
    assert z * stdev == d - mean;
    if z > 2.0 {
      assert z * stdev > 2.0 * stdev;
    } else {
      assert z * stdev <= 2.0 * stdev;
    }
  }

  /**
   * With a positive deviation the outliers are exactly the legs longer than
   * the mean by more than two deviations, in their original order.
   */
  lemma {:induction false} OutliersAreFar<P>(ds: seq<Leg<P>>, mean: real, stdev: real)
    requires stdev > 0.0
    ensures Outliers(ds, mean, stdev) == Ok(Filter((leg: Leg<P>) => Dist(leg) > mean + 2.0 * stdev, ds))
    decreases |ds|
  {
    if |ds| > 0 {
      OutliersAreFar(ds[1..], mean, stdev);
      ScoreAboveTwo(Dist(ds[0]), mean, stdev);
    }
  }

  function Ident(x: real): real
  {
    x
  }

  lemma {:induction false} InsertMap<P>(r: seq<Leg<P>>, x: Leg<P>)
    ensures Map(Dist, Insert(r, x, Dist)) == Insert(Map(Dist, r), Dist(x), Ident)
  {
    if |r| > 0 {
      var front := r[..|r| - 1];
      assert Map(Dist, r)[..|r| - 1] == Map(Dist, front);
      InsertMap(front, x);
      if Dist(r[|r| - 1]) > Dist(x) {
        assert Map(Dist, Insert(front, x, Dist) + [r[|r| - 1]]) == Map(Dist, Insert(front, x, Dist)) + [Dist(r[|r| - 1])];
      }
    }
  }

  /** `sortedDistances1`: the distances alone, sorted. */
  function SortedDistances1<P>(ds: seq<Leg<P>>): seq<real>
  {
    SortBy(Map(Dist, ds), Ident)
  }

  /** `sortedDistances2`: the legs, sorted by distance. */
  function SortedDistances2<P>(ds: seq<Leg<P>>): seq<Leg<P>>
  {
    SortBy(ds, Dist)
  }

  /** The distances of the legs sorted by distance are the sorted distances. */
  lemma {:induction false} MapDistSortBy<P>(ds: seq<Leg<P>>)
    ensures Map(Dist, SortBy(ds, Dist)) == SortBy(Map(Dist, ds), Ident)
  {
    if |ds| > 0 {
      var front := ds[..|ds| - 1];
      MapDistSortBy(front);
      assert Map(Dist, ds)[..|ds| - 1] == Map(Dist, front);
      InsertMap(SortBy(front, Dist), ds[|ds| - 1]);
    }
  }

  /**
   * Sorting the legs by distance is a permutation in distance order, and
   * its distances are the sorted distances.
   */
  lemma SortedByDistance<P>(ds: seq<Leg<P>>)
    ensures multiset(SortedDistances2(ds)) == multiset(ds)
    ensures forall i, j :: 0 <= i < j < |ds| ==> Dist(SortedDistances2(ds)[i]) <= Dist(SortedDistances2(ds)[j])
    ensures Map(Dist, SortedDistances2(ds)) == SortedDistances1(ds)
  {
    MapDistSortBy(ds);
  }
}
