/**
 * Chapter 4, first example set: splitting KML coordinate text, swapping
 * (lon, lat, alt) into (lat, lon), and turning a path of points into its
 * legs, the consecutive (start, end) pairs, with a recursive generator, an
 * iterative generator and a filtering generator.
 *
 * The generators are modelled as the `Run` a consumer sees.  Each of them
 * takes its first point with `next()` inside a generator body, so on an
 * exhausted iterator the `StopIteration` escapes the generator and ends it
 * with `RuntimeError`.
 */
module Ch04Pairs {
  import opened Py

  /** `split_by_comma`: the pieces of the text between commas. */
  function SplitByComma(text: string): (parts: seq<string>)
    ensures |parts| >= 1
  {
    Split(text, ',')
  }

  /** The pieces contain no comma, and joining them with commas gives the text back. */
  lemma SplitByCommaInverse(text: string)
    ensures Join(SplitByComma(text), ",") == text
    ensures forall i :: 0 <= i < |SplitByComma(text)| ==> ',' !in SplitByComma(text)[i]
  {
    JoinSplit(text, ',');
    SplitPartsFree(text, ',');
  }

  /** `invert_coordinate(lon, lat, alt)`: (lat, lon). */
  function InvertCoordinate<T>(lon: T, lat: T, alt: T): (T, T)
  {
    (lat, lon)
  }

  /**
   * `list(invert_coordinates(rows))`: every row is spread into the three
   * parameters, so a row of any other length raises `TypeError`.
   */
  function InvertCoordinates<T>(rows: seq<seq<T>>): (r: Outcome<seq<(T, T)>>)
    ensures r.Ok? <==> forall i :: 0 <= i < |rows| ==> |rows[i]| == 3
    ensures r.Raised? ==> r.exc == TypeError
    ensures r.Ok? ==> |r.value| == |rows|
    ensures r.Ok? ==> forall i :: 0 <= i < |rows| ==> r.value[i].0 == rows[i][1] && r.value[i].1 == rows[i][0]
  {
    if |rows| == 0 then Ok([])
    else if |rows[0]| != 3 then Raised(TypeError)
    else
      var rest :- InvertCoordinates(rows[1..]);
      assert forall i :: 1 <= i < |rows| ==> rows[i] == rows[1..][i - 1];
      Ok([InvertCoordinate(rows[0][0], rows[0][1], rows[0][2])] + rest)
  }

  /** The doctest of `invert_coordinates`. */
  lemma InvertCoordinatesDoctest()
    ensures InvertCoordinates([["-76.33029518659048", "37.54901619777347", "0"]])
         == Ok([("37.54901619777347", "-76.33029518659048")])
  {
    var r := InvertCoordinates([["-76.33029518659048", "37.54901619777347", "0"]]);
    assert r.Ok? && |r.value| == 1;
    assert r.value[0] == ("37.54901619777347", "-76.33029518659048");
    assert r.value == [("37.54901619777347", "-76.33029518659048")];
  }

  // ---------------------------------------------------------------------------
  // Legs of a path

  /** The consecutive pairs (xs[i], xs[i + 1]) of a sequence, independent of any generator. */
  function Legs<T>(xs: seq<T>): (legs: seq<(T, T)>)
  {
    if |xs| <= 1 then [] else seq(|xs| - 1, i requires 0 <= i < |xs| - 1 => (xs[i], xs[i + 1]))
  }

  /** There is one leg fewer than points, each leg ends where the next begins, and the starts followed by the last end give the path back. */
  lemma LegsChain<T>(xs: seq<T>)
    requires |xs| >= 1
    ensures |Legs(xs)| == |xs| - 1
    ensures forall i :: 0 <= i < |Legs(xs)| - 1 ==> Legs(xs)[i].1 == Legs(xs)[i + 1].0
    ensures Map((leg: (T, T)) => leg.0, Legs(xs)) + [xs[|xs| - 1]] == xs
  {
  }

  lemma LegsCons<T>(x: T, xs: seq<T>)
    requires |xs| >= 1
    ensures Legs([x] + xs) == [(x, xs[0])] + Legs(xs)
  {
  }

  lemma LegsSnoc<T>(xs: seq<T>, y: T)
    requires |xs| >= 1
    ensures Legs(xs + [y]) == Legs(xs) + [(xs[|xs| - 1], y)]
  {
  }

  /**
   * The inner `create_pair(head, tail)`: yields (head, next) and recurses on
   * next; when the tail is exhausted its `next()` raises inside the
   * generator, which ends it with `RuntimeError`.
   */
  function CreatePair<T>(head: T, tail: seq<T>): (r: Run<(T, T)>)
    decreases |tail|
  {
    if |tail| == 0 then Run([], Some(RuntimeError))
    else
      var rest := CreatePair(tail[0], tail[1..]);
      Run([(head, tail[0])] + rest.yielded, rest.raised)
  }

  /** `create_pairs_recursive`: an empty input gives an empty iterator; otherwise the inner generator. */
  function CreatePairsRecursive<T>(xs: seq<T>): Run<(T, T)>
  {
    if |xs| == 0 then Run([], None) else CreatePair(xs[0], xs[1..])
  }

  lemma {:induction false} CreatePairYields<T>(head: T, tail: seq<T>)
    ensures CreatePair(head, tail) == Run(Legs([head] + tail), Some(RuntimeError))
    decreases |tail|
  {
    if |tail| > 0 {
      CreatePairYields(tail[0], tail[1..]);
      assert [tail[0]] + tail[1..] == tail;
      LegsCons(head, tail);
    }
  }

  /**
   * As written, the recursive version yields every leg and then ends with
   * `RuntimeError`, so `list()` of it raises for any non-empty input.
   */
  lemma CreatePairsRecursiveAsWritten<T>(xs: seq<T>)
    ensures |xs| == 0 ==> CreatePairsRecursive(xs) == Run([], None)
    ensures |xs| >= 1 ==> CreatePairsRecursive(xs) == Run(Legs(xs), Some(RuntimeError))
    ensures |xs| >= 1 ==> ListOf(CreatePairsRecursive(xs)) == Raised(RuntimeError)
  {
    if |xs| >= 1 {
      CreatePairYields(xs[0], xs[1..]);
      assert [xs[0]] + xs[1..] == xs;
    }
  }

  /** The evidently intended inner generator: an exhausted tail simply ends it. */
  function CreatePairIntended<T>(head: T, tail: seq<T>): (r: Run<(T, T)>)
    decreases |tail|
  {
    if |tail| == 0 then Run([], None)
    else
      var rest := CreatePairIntended(tail[0], tail[1..]);
      Run([(head, tail[0])] + rest.yielded, rest.raised)
  }

  function CreatePairsRecursiveIntended<T>(xs: seq<T>): Run<(T, T)>
  {
    if |xs| == 0 then Run([], None) else CreatePairIntended(xs[0], xs[1..])
  }

  lemma {:induction false} CreatePairIntendedYields<T>(head: T, tail: seq<T>)
    ensures CreatePairIntended(head, tail) == Run(Legs([head] + tail), None)
    decreases |tail|
  {
    if |tail| > 0 {
      CreatePairIntendedYields(tail[0], tail[1..]);
      assert [tail[0]] + tail[1..] == tail;
      LegsCons(head, tail);
    }
  }

  /** The intended recursive version yields exactly the legs and ends normally. */
  lemma CreatePairsRecursiveIntendedIsLegs<T>(xs: seq<T>)
    ensures CreatePairsRecursiveIntended(xs) == Run(Legs(xs), None)
  {
    if |xs| >= 1 {
      CreatePairIntendedYields(xs[0], xs[1..]);
      assert [xs[0]] + xs[1..] == xs;
    }
  }

  /**
   * `create_pairs_iterative`: takes the first point, then pairs each further
   * point with the previous one.
   */
  method CreatePairsIterative<T>(xs: seq<T>) returns (r: Run<(T, T)>)
    ensures |xs| == 0 ==> r == Run([], Some(RuntimeError))
    ensures |xs| >= 1 ==> r == Run(Legs(xs), None)
  {
    if |xs| == 0 {
      return Run([], Some(RuntimeError));
    }
    var start := xs[0];
    var out: seq<(T, T)> := [];
    for i := 1 to |xs|
      invariant start == xs[i - 1]
      invariant out == Legs(xs[..i])
    {
      LegsSnoc(xs[..i], xs[i]);
      assert xs[..i + 1] == xs[..i] + [xs[i]];
      out := out + [(start, xs[i])];
      start := xs[i];
    }
    assert xs[..|xs|] == xs;
    r := Run(out, None);
  }

  /** The doctests: a closed path of five points has four legs. */
  lemma CreatePairsDoctest()
    ensures Legs([(0, 0), (1, 0), (1, 1), (0, 1), (0, 0)])
         == [((0, 0), (1, 0)), ((1, 0), (1, 1)), ((1, 1), (0, 1)), ((0, 1), (0, 0))]
  {
  }

  /**
   * `filter_pairs` from `begin` onwards: each further point makes a leg,
   * yielded unless the rejection rule holds for it.
   */
  function FilterPairsFrom<T>(begin: T, rest: seq<T>, rejectionRule: (T, T) -> bool): seq<(T, T)>
    decreases |rest|
  {
    if |rest| == 0 then []
    else
      var tail := FilterPairsFrom(rest[0], rest[1..], rejectionRule);
      if rejectionRule(begin, rest[0]) then tail else [(begin, rest[0])] + tail
  }

  /** `list(filter_pairs(xs, rule))`. */
  function FilterPairs<T>(xs: seq<T>, rejectionRule: (T, T) -> bool): Run<(T, T)>
  {
    if |xs| == 0 then Run([], Some(RuntimeError))
    else Run(FilterPairsFrom(xs[0], xs[1..], rejectionRule), None)
  }

  /** The legs the rejection rule lets through. */
  function Accepted<T>(rejectionRule: (T, T) -> bool): ((T, T)) -> bool
  {
    (leg: (T, T)) => !rejectionRule(leg.0, leg.1)
  }

  lemma {:induction false} FilterPairsFromIsFilter<T>(begin: T, rest: seq<T>, rejectionRule: (T, T) -> bool)
    ensures FilterPairsFrom(begin, rest, rejectionRule) == Filter(Accepted(rejectionRule), Legs([begin] + rest))
    decreases |rest|
  {
    if |rest| > 0 {
      FilterPairsFromIsFilter(rest[0], rest[1..], rejectionRule);
      assert [rest[0]] + rest[1..] == rest;
      LegsCons(begin, rest);
    }
  }

  /** `filter_pairs` yields, in order, exactly the legs that the rule does not reject. */
  lemma FilterPairsIsFilteredLegs<T>(xs: seq<T>, rejectionRule: (T, T) -> bool)
    requires |xs| >= 1
    ensures FilterPairs(xs, rejectionRule) == Run(Filter(Accepted(rejectionRule), Legs(xs)), None)
  {
    FilterPairsFromIsFilter(xs[0], xs[1..], rejectionRule);
    assert [xs[0]] + xs[1..] == xs;
  }

  /** The doctest of `filter_pairs`: legs starting on the line x = 0 are rejected. */
  lemma FilterPairsDoctest(rule: ((int, int), (int, int)) -> bool)
    requires forall b, e {:trigger rule(b, e)} :: rule(b, e) == (b.0 == 0)
    ensures FilterPairs([(0, 0), (1, 0), (2, 0), (2, 1), (2, 2), (0, 1), (0, 0)], rule).yielded
         == [((1, 0), (2, 0)), ((2, 0), (2, 1)), ((2, 1), (2, 2)), ((2, 2), (0, 1))]
  {
    var xs := [(0, 0), (1, 0), (2, 0), (2, 1), (2, 2), (0, 1), (0, 0)];
    assert xs[1..] == [(1, 0), (2, 0), (2, 1), (2, 2), (0, 1), (0, 0)];
    assert FilterPairsFrom((2, 2), [(0, 1), (0, 0)], rule) == [((2, 2), (0, 1))];
    assert FilterPairsFrom((2, 1), [(2, 2), (0, 1), (0, 0)], rule) == [((2, 1), (2, 2)), ((2, 2), (0, 1))];
    assert FilterPairsFrom((2, 0), [(2, 1), (2, 2), (0, 1), (0, 0)], rule)
        == [((2, 0), (2, 1)), ((2, 1), (2, 2)), ((2, 2), (0, 1))];
  }
}
