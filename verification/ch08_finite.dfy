/**
 * Chapter 8, the finite iterators: numbering legs with `enumerate`, running
 * totals with `accumulate` and the quartile rule built on them, a dictionary
 * based `groupby`, `filter` written with `tee` and `compress`, and pairing
 * a flat list with slices or `islice`.
 */
module Ch08Finite {
  import opened Py
  import Ch04Structure
  import Ch06Grouping
  import Ch07Ranking
  import Ch08Iterators

  // ---------------------------------------------------------------------------
  // create_ordereed_pairs

  /** `OrderedLeg(order, start, end, distance)`. */
  datatype OrderedLeg<P> = OrderedLeg(order: int, start: P, end: P, distance: real)

  /**
   * `create_ordereed_pairs(iterable)`: numbers each (start, end) pair from 0.
   * The rounded haversine distance is the parameter `dist`.
   */
  function CreateOrderedPairs<P>(pairs: seq<(P, P)>, dist: (P, P) -> real): seq<OrderedLeg<P>>
  {
    Map((e: (int, (P, P))) => OrderedLeg(e.0, e.1.0, e.1.1, dist(e.1.0, e.1.1)),
        Ch04Structure.EnumerateFrom(pairs, 0))
  }

  /** Leg i has order i, the endpoints of pair i, and their distance. */
  lemma CreateOrderedPairsSpec<P>(pairs: seq<(P, P)>, dist: (P, P) -> real)
    ensures |CreateOrderedPairs(pairs, dist)| == |pairs|
    ensures forall i :: 0 <= i < |pairs| ==>
              CreateOrderedPairs(pairs, dist)[i] == OrderedLeg(i, pairs[i].0, pairs[i].1, dist(pairs[i].0, pairs[i].1))
  {
    Ch04Structure.EnumerateFromIndex(pairs, 0);
  }

  function Endpoints<P>(leg: OrderedLeg<P>): (P, P) { (leg.start, leg.end) }

  /** Dropping order and distance gives back the pairs. */
  lemma OrderedPairsEndpoints<P>(pairs: seq<(P, P)>, dist: (P, P) -> real)
    ensures Map(Endpoints, CreateOrderedPairs(pairs, dist)) == pairs
  {
    CreateOrderedPairsSpec(pairs, dist);
  }

  // ---------------------------------------------------------------------------
  // accumulate and quartiles

  /** What `accumulate` yields after the running total `total`. */
  function AccumulateFrom(total: real, s: seq<real>): seq<real>
    decreases |s|
  {
    if |s| == 0 then [] else [total + s[0]] + AccumulateFrom(total + s[0], s[1..])
  }

  /** `tuple(accumulate(s))`: the first item, then the running totals. */
  function Accumulate(s: seq<real>): seq<real>
  {
    if |s| == 0 then [] else [s[0]] + AccumulateFrom(s[0], s[1..])
  }

  /** After a running total t, item i is t plus the sum of the first i + 1 items. */
  lemma {:induction false} AccumulateFromSums(total: real, s: seq<real>)
    ensures |AccumulateFrom(total, s)| == |s|
    ensures forall i :: 0 <= i < |s| ==> AccumulateFrom(total, s)[i] == total + SumR(s[..i + 1])
    decreases |s|
  {
    if |s| > 0 {
      AccumulateFromSums(total + s[0], s[1..]);
      var r := AccumulateFrom(total, s);
      forall i | 0 <= i < |s|
        ensures r[i] == total + SumR(s[..i + 1])
      {
        assert s[..i + 1] == [s[0]] + s[1..][..i];
        SumRAppend([s[0]], s[1..][..i]);
        assert SumR([s[0]]) == s[0];
      }
    }
  }

  /** Accumulated item i is the sum of the first i + 1 items. */
  lemma AccumulateSums(s: seq<real>)
    ensures |Accumulate(s)| == |s|
    ensures forall i :: 0 <= i < |s| ==> Accumulate(s)[i] == SumR(s[..i + 1])
  {
    if |s| > 0 {
      AccumulateFromSums(0.0, s);
      var t := AccumulateFrom(0.0, s);
      assert t == [s[0]] + AccumulateFrom(s[0], s[1..]);
    }
  }

  /** The last accumulated value is the total. */
  lemma AccumulateLast(s: seq<real>)
    requires |s| > 0
    ensures |Accumulate(s)| == |s| && Accumulate(s)[|s| - 1] == SumR(s)
  {
    AccumulateSums(s);
    assert s[..|s|] == s;
  }

  /** With no negative legs the running totals never decrease and stay between 0 and the total. */
  lemma AccumulateMonotone(s: seq<real>)
    requires forall i :: 0 <= i < |s| ==> s[i] >= 0.0
    ensures |Accumulate(s)| == |s|
    ensures forall i, j :: 0 <= i <= j < |s| ==> 0.0 <= Accumulate(s)[i] <= Accumulate(s)[j] <= SumR(s)
  {
    AccumulateSums(s);
    forall i, j | 0 <= i <= j < |s|
      ensures 0.0 <= Accumulate(s)[i] <= Accumulate(s)[j] <= SumR(s)
    {
      PrefixSumsGrow(s, i + 1, j + 1);
      PrefixSumsGrow(s, 0, i + 1);
      PrefixSumsGrow(s, j + 1, |s|);
      assert s[..|s|] == s;
      assert s[..0] == [];
    }
  }

  /** A longer prefix of non-negative items has a sum at least as large. */
  lemma {:induction false} PrefixSumsGrow(s: seq<real>, m: nat, n: nat)
    requires m <= n <= |s|
    requires forall i :: 0 <= i < |s| ==> s[i] >= 0.0
    ensures SumR(s[..m]) <= SumR(s[..n])
    decreases n - m
  {
    if m < n {
      PrefixSumsGrow(s, m, n - 1);
      assert s[..n][..n - 1] == s[..n - 1];
    }
  }

  /** `int(x)`: truncation toward zero. */
  function Trunc(x: real): int
  {
    if x >= 0.0 then x.Floor else -((-x).Floor)
  }

  /**
   * The quartile rule: `total = accumulatedDists[-1] + 1.0`, then
   * `int(4*d/total)` for every accumulated distance.  No legs means no
   * last item (IndexError); a total of zero divides by zero.
   */
  function Quartiles(distances: seq<real>): Outcome<seq<int>>
  {
    var acc := Accumulate(distances);
    if |acc| == 0 then Raised(IndexError)
    else
      var total := acc[|acc| - 1] + 1.0;
      if total == 0.0 then Raised(ZeroDivisionError)
      else Ok(Map((d: real) => Quartile(d, total), acc))
  }

  /** `int(4*d/total)`. */
  function Quartile(d: real, total: real): int
    requires total != 0.0
  {
    Trunc(4.0 * d / total)
  }

  /** A running total below the padded total falls in quartile 0..3. */
  lemma QuartileBounds(d: real, total: real)
    requires 0.0 <= d < total
    ensures 0 <= Quartile(d, total) <= 3
  {
    ScaledBelowFour(d, total);
  }

  /** A larger running total never falls in an earlier quartile. */
  lemma QuartileMonotone(d: real, e: real, total: real)
    requires 0.0 <= d <= e && total > 0.0
    ensures Quartile(d, total) <= Quartile(e, total)
  {
    ScaledMonotone(d, e, total);
    assert 4.0 * d / total >= 0.0;
  }

  /** 4·d / t lies in [0, 4) when 0 <= d < t. */
  lemma ScaledBelowFour(d: real, t: real)
    requires 0.0 <= d < t
    ensures 0.0 <= 4.0 * d / t < 4.0
  {
    var q := d / t;
    assert q * t == d;
    assert 4.0 * d / t == 4.0 * q;
    assert (1.0 - q) * t == t - d;
  }

  /** 4·d / t grows with d for a positive t. */
  lemma ScaledMonotone(d: real, e: real, t: real)
    requires d <= e && t > 0.0
    ensures 4.0 * d / t <= 4.0 * e / t
  {
    assert 4.0 * e / t - 4.0 * d / t == 4.0 * (e - d) / t;
  }

  /**
   * For non-negative legs every quartile lies in 0..3, one per leg, and the
   * quartiles never decrease along the trip.
   */
  lemma QuartilesInRange(distances: seq<real>)
    requires |distances| > 0
    requires forall i :: 0 <= i < |distances| ==> distances[i] >= 0.0
    ensures Quartiles(distances).Ok?
    ensures |Quartiles(distances).value| == |distances|
    ensures forall i :: 0 <= i < |distances| ==> 0 <= Quartiles(distances).value[i] <= 3
    ensures forall i, j :: 0 <= i <= j < |distances| ==> Quartiles(distances).value[i] <= Quartiles(distances).value[j]
  {
    var acc := Accumulate(distances);
    AccumulateSums(distances);
    AccumulateMonotone(distances);
    var total := acc[|acc| - 1] + 1.0;
    assert total >= 1.0;
    var q := Quartiles(distances).value;
    assert forall i :: 0 <= i < |distances| ==> q[i] == Quartile(acc[i], total);
    forall i | 0 <= i < |distances|
      ensures 0 <= q[i] <= 3
    {
      QuartileBounds(acc[i], total);
    }
    forall i, j | 0 <= i <= j < |distances|
      ensures q[i] <= q[j]
    {
      QuartileMonotone(acc[i], acc[j], total);
    }
  }

  /** Without the extra 1.0 the last leg would land in a fifth quartile, 4. */
  lemma WithoutOffsetFifthQuartile(total: real)
    requires total > 0.0
    ensures Trunc(4.0 * total / total) == 4
  {
    assert 4.0 * total / total == 4.0;
  }

  // ---------------------------------------------------------------------------
  // groupby_2

  /** The keys in order of first appearance, each once. */
  function FirstSeen<K(==)>(ks: seq<K>): seq<K>
  {
    if |ks| == 0 then []
    else
      var seen := FirstSeen(ks[..|ks| - 1]);
      if ks[|ks| - 1] in seen then seen else seen + [ks[|ks| - 1]]
  }

  /** Every key appears in `FirstSeen` exactly when it appears in the input, and only once. */
  lemma {:induction false} FirstSeenSpec<K>(ks: seq<K>)
    ensures forall k :: k in FirstSeen(ks) <==> k in ks
    ensures forall i, j :: 0 <= i < j < |FirstSeen(ks)| ==> FirstSeen(ks)[i] != FirstSeen(ks)[j]
  {
    if |ks| > 0 {
      FirstSeenSpec(ks[..|ks| - 1]);
      assert ks == ks[..|ks| - 1] + [ks[|ks| - 1]];
    }
  }

  /** A key that `FirstSeen` reports is the key of some item. */
  lemma SeenKeyOccurs<T, K>(key: T -> K, data: seq<T>, k: K)
    requires k in FirstSeen(Map(key, data))
    ensures k in Map(key, data)
  {
    FirstSeenSpec(Map(key, data));
  }

  /** One group per key, in the order of the keys: the items with that key, in input order. */
  function GroupsOf<T, K(==)>(key: T -> K, data: seq<T>, keys: seq<K>): seq<seq<T>>
  {
    if |keys| == 0 then []
    else [Filter(Ch06Grouping.HasKey(key, keys[0]), data)] + GroupsOf(key, data, keys[1..])
  }

  /** The dictionary of lists after the first i items, and its keys in insertion order. */
  ghost predicate Buckets<T, K(!new)>(key: T -> K, data: seq<T>, keys: seq<K>, groups: map<K, seq<T>>)
  {
    && keys == FirstSeen(Map(key, data))
    && (forall k :: k in groups <==> k in keys)
    && (forall k :: k in groups ==> groups[k] == Filter(Ch06Grouping.HasKey(key, k), data))
  }

  /** Appending one item to its key's list keeps the buckets in step with the longer input. */
  lemma BucketsStep<T, K(!new)>(key: T -> K, data: seq<T>, x: T, keys: seq<K>, groups: map<K, seq<T>>)
    requires Buckets(key, data, keys, groups)
    ensures key(x) in groups ==>
              Buckets(key, data + [x], keys, groups[key(x) := groups[key(x)] + [x]])
    ensures key(x) !in groups ==>
              Buckets(key, data + [x], keys + [key(x)], groups[key(x) := [x]])
  {
    assert Map(key, data + [x])[..|data|] == Map(key, data);
    FirstSeenSpec(Map(key, data));
    forall k
      ensures Filter(Ch06Grouping.HasKey(key, k), data + [x])
           == Filter(Ch06Grouping.HasKey(key, k), data) + (if key(x) == k then [x] else [])
    {
      FilterAppend(Ch06Grouping.HasKey(key, k), data, [x]);
      FilterSingle(Ch06Grouping.HasKey(key, k), x);
    }
    if key(x) !in groups {
      forall k | k !in keys
        ensures Filter(Ch06Grouping.HasKey(key, k), data) == []
      {
        Ch07Ranking.FilterNone(Ch06Grouping.HasKey(key, k), data);
      }
    }
  }

  /**
   * `groupby_2(iterable, key)`: appends each item to `groups[key(item)]`,
   * then yields the lists in the dictionary's insertion order.
   */
  method GroupBy2<T, K(==,!new)>(iterable: seq<T>, key: T -> K) returns (r: seq<seq<T>>)
    ensures r == GroupsOf(key, iterable, FirstSeen(Map(key, iterable)))
  {
    var keys: seq<K> := [];
    var groups: map<K, seq<T>> := map[];
    for i := 0 to |iterable|
      invariant Buckets(key, iterable[..i], keys, groups)
    {
      BucketsStep(key, iterable[..i], iterable[i], keys, groups);
      assert iterable[..i + 1] == iterable[..i] + [iterable[i]];
      var k := key(iterable[i]);
      if k in groups {
        groups := groups[k := groups[k] + [iterable[i]]];
      } else {
        keys := keys + [k];
        groups := groups[k := [iterable[i]]];
      }
    }
    assert iterable[..|iterable|] == iterable;
    r := [];
    for j := 0 to |keys|
      invariant r + GroupsOf(key, iterable, keys[j..]) == GroupsOf(key, iterable, keys)
    {
      assert keys[j..][1..] == keys[j + 1..];
      r := r + [groups[keys[j]]];
    }
  }

  /** Group i holds exactly the items whose key is key i, in input order; every group is non-empty. */
  lemma {:induction false} GroupsOfShape<T, K>(key: T -> K, data: seq<T>, keys: seq<K>)
    requires forall i :: 0 <= i < |keys| ==> keys[i] in Map(key, data)
    ensures |GroupsOf(key, data, keys)| == |keys|
    ensures forall i :: 0 <= i < |keys| ==> GroupsOf(key, data, keys)[i] == Filter(Ch06Grouping.HasKey(key, keys[i]), data)
    ensures forall i :: 0 <= i < |keys| ==> |GroupsOf(key, data, keys)[i]| > 0
  {
    if |keys| > 0 {
      GroupsOfShape(key, data, keys[1..]);
      var j :| 0 <= j < |data| && Map(key, data)[j] == keys[0];
      FilterKeeps(Ch06Grouping.HasKey(key, keys[0]), data, data[j]);
    }
  }

  /** An item occurs in the groups of distinct keys as often as in the input if its key is among them, else never. */
  lemma {:induction false} GroupsOfCount<T, K>(key: T -> K, data: seq<T>, keys: seq<K>, x: T)
    requires forall i, j :: 0 <= i < j < |keys| ==> keys[i] != keys[j]
    ensures multiset(Flatten(GroupsOf(key, data, keys)))[x] == if key(x) in keys then multiset(data)[x] else 0
  {
    if |keys| > 0 {
      GroupsOfCount(key, data, keys[1..], x);
      Ch07Ranking.FilterMultiset(Ch06Grouping.HasKey(key, keys[0]), data, x);
      assert key(x) in keys <==> key(x) == keys[0] || key(x) in keys[1..];
    }
  }

  /** `groupby_2` puts every item in exactly one group. */
  lemma GroupBy2Partition<T, K>(key: T -> K, data: seq<T>)
    ensures multiset(Flatten(GroupsOf(key, data, FirstSeen(Map(key, data))))) == multiset(data)
  {
    var keys := FirstSeen(Map(key, data));
    FirstSeenSpec(Map(key, data));
    forall x: T
      ensures multiset(Flatten(GroupsOf(key, data, keys)))[x] == multiset(data)[x]
    {
      GroupsOfCount(key, data, keys, x);
      if x in data {
        var i :| 0 <= i < |data| && data[i] == x;
        assert Map(key, data)[i] == key(x);
      }
    }
    Ch07Ranking.MultisetExtensional(multiset(Flatten(GroupsOf(key, data, keys))), multiset(data));
  }

  /** The groups come one per distinct key, in order of first appearance, each the items with that key in input order. */
  lemma GroupBy2Groups<T, K>(key: T -> K, data: seq<T>)
    ensures |GroupsOf(key, data, FirstSeen(Map(key, data)))| == |FirstSeen(Map(key, data))|
    ensures forall i :: 0 <= i < |FirstSeen(Map(key, data))| ==>
              && GroupsOf(key, data, FirstSeen(Map(key, data)))[i]
                   == Filter(Ch06Grouping.HasKey(key, FirstSeen(Map(key, data))[i]), data)
              && |GroupsOf(key, data, FirstSeen(Map(key, data)))[i]| > 0
  {
    var keys := FirstSeen(Map(key, data));
    FirstSeenSpec(Map(key, data));
    forall i | 0 <= i < |keys|
      ensures keys[i] in Map(key, data)
    {
      SeenKeyOccurs(key, data, keys[i]);
    }
    GroupsOfShape(key, data, keys);
  }

  // ---------------------------------------------------------------------------
  // filter with tee and compress

  /**
   * `filter(iterable, function)`: one copy of the items, compressed by the
   * flags computed over the other copy.  `compress(data, selectors)` is the
   * zip-and-test generator `Ch08Iterators.Picked(selectors, data)`.
   */
  function TeeFilter<T>(iterable: seq<T>, fn: T -> bool): seq<T>
  {
    Ch08Iterators.Picked(Map(fn, iterable), iterable)
  }

  /** The tee-and-compress filter keeps, in order, the items that pass. */
  lemma {:induction false} TeeFilterIsFilter<T>(iterable: seq<T>, fn: T -> bool)
    ensures TeeFilter(iterable, fn) == Filter(fn, iterable)
    decreases |iterable|
  {
    if |iterable| > 0 {
      assert Map(fn, iterable)[1..] == Map(fn, iterable[1..]);
      TeeFilterIsFilter(iterable[1..], fn);
    }
  }

  // ---------------------------------------------------------------------------
  // slices and islice

  /**
   * The items `islice` passes on while it walks the input: item i goes out
   * when i reaches the next wanted index, which then moves on by step.
   */
  function ISliceFrom<T>(s: seq<T>, i: nat, next: nat, step: nat): seq<T>
    requires step > 0 && i <= next
    decreases |s| - i
  {
    if i >= |s| then []
    else if i == next then [s[i]] + ISliceFrom(s, i + 1, next + step, step)
    else ISliceFrom(s, i + 1, next, step)
  }

  /** `islice(iter(s), start, None, step)`. */
  function ISlice<T>(s: seq<T>, start: nat, step: nat): seq<T>
    requires step > 0
  {
    ISliceFrom(s, 0, start, step)
  }

  /** Walking from any point before the next wanted index yields the slice from that index. */
  lemma {:induction false} ISliceFromIsSlice<T>(s: seq<T>, i: nat, next: nat, step: nat)
    requires step > 0 && i <= next
    ensures ISliceFrom(s, i, next, step) == Ch04Structure.StepSlice(s, next, step)
    decreases |s| - i
  {
    if i < |s| {
      if i == next {
        ISliceFromIsSlice(s, i + 1, next + step, step);
      } else {
        ISliceFromIsSlice(s, i + 1, next, step);
      }
    }
  }

  /** `islice(it, start, None, step)` yields the same items as `s[start::step]`. */
  lemma ISliceIsSlice<T>(s: seq<T>, start: nat, step: nat)
    requires step > 0
    ensures ISlice(s, start, step) == Ch04Structure.StepSlice(s, start, step)
  {
    ISliceFromIsSlice(s, 0, start, step);
  }

  /** `zip(flat[0::2], flat[1::2])`. */
  function Structured<T>(flat: seq<T>): seq<(T, T)>
  {
    Zip(Ch04Structure.StepSlice(flat, 0, 2), Ch04Structure.StepSlice(flat, 1, 2))
  }

  /** `zip(islice(iter(flat), 0, None, 2), islice(iter(flat), 1, None, 2))`. */
  function Structured2<T>(flat: seq<T>): seq<(T, T)>
  {
    Zip(ISlice(flat, 0, 2), ISlice(flat, 1, 2))
  }

  /** The islice pairing and the slice pairing are the same. */
  lemma Structured2IsStructured<T>(flat: seq<T>)
    ensures Structured2(flat) == Structured(flat)
  {
    ISliceIsSlice(flat, 0, 2);
    ISliceIsSlice(flat, 1, 2);
  }

  /** Pair k is (flat[2k], flat[2k+1]) for every k below len // 2; an odd last item is dropped. */
  lemma StructuredPairs<T>(flat: seq<T>)
    ensures |Structured(flat)| == |flat| / 2
    ensures forall k :: 0 <= k < |flat| / 2 ==> 2 * k + 1 < |flat| && Structured(flat)[k] == (flat[2 * k], flat[2 * k + 1])
  {
    var pairs := Structured(flat);
    assert pairs == Ch04Structure.GroupByEvenOdd(flat);
    Ch04Structure.GroupByEvenOddIsGroupByTwo(flat);
    Ch04Structure.GroupByNShape(2, flat);
    assert |Map(Ch04Structure.PairToSeq, pairs)| == |pairs|;
    forall k | 0 <= k < |flat| / 2
      ensures 2 * k + 1 < |flat| && pairs[k] == (flat[2 * k], flat[2 * k + 1])
    {
      var block := Map(Ch04Structure.PairToSeq, pairs)[k];
      assert block == flat[k * 2 .. k * 2 + 2];
      assert block == [pairs[k].0, pairs[k].1];
      assert block[0] == flat[2 * k] && block[1] == flat[2 * k + 1];
    }
  }

  /** The twenty primes, as text, that the chapter pairs up. */
  function Flat(): seq<string>
  {
    ["2", "3", "5", "7", "11", "13", "17", "19", "23", "29", "31",
     "37", "41", "43", "47", "53", "59", "61", "67", "71"]
  }

  /** The pairing gives ten pairs, from ('2', '3') to ('67', '71'). */
  lemma StructuredPrimes()
    ensures |Structured(Flat())| == 10
    ensures Structured(Flat())[0] == ("2", "3") && Structured(Flat())[9] == ("67", "71")
  {
    var flat := Flat();
    StructuredPairs(flat);
    assert flat[0] == "2" && flat[1] == "3" && flat[18] == "67" && flat[19] == "71";
  }
}
