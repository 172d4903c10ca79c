/**
 * Chapter 6, second example set: reductions from many items to fewer.
 * Quantising distances into buckets of 5, counting each distinct value by
 * walking the sorted data (`group_sort`), partitioning into a dictionary of
 * lists (`group_by`), the northernmost leg of each bucket, and sums
 * generalised over a function and over a filter.
 */
module Ch06Grouping {
  import opened Py
  import opened Sorting
  import opened Ch05Mapping
  import Ch05Generators

  // ---------------------------------------------------------------------------
  // Quantising

  /** `5*(d//5)` on a float: d rounded down to a multiple of 5. */
  function Quantize(d: real): (q: real)
    ensures ((q / 5.0).Floor as real) * 5.0 == q
    ensures d - 5.0 < q <= d
  {
    5.0 * ((d / 5.0).Floor as real)
  }

  /** A bucket value is its own bucket. */
  lemma QuantizeIdempotent(d: real)
    ensures Quantize(Quantize(d)) == Quantize(d)
  {
    var q := Quantize(d);
    assert q / 5.0 == (q / 5.0).Floor as real;
  }

  /** `quantize_distance_by_5(coordinate)`: the bucket of a leg's distance. */
  function QuantizeDistanceBy5<P>(leg: Leg<P>): (q: real)
    ensures Dist(leg) - 5.0 < q <= Dist(leg)
  {
    Quantize(Dist(leg))
  }

  // ---------------------------------------------------------------------------
  // Counting by sorting

  /** The first components of a sequence of pairs. */
  function Keys<K, V>(r: seq<(K, V)>): (ks: seq<K>)
    ensures |ks| == |r|
    ensures forall i :: 0 <= i < |r| ==> ks[i] == r[i].0
  {
    seq(|r|, i requires 0 <= i < |r| => r[i].0)
  }

  /** The counts of a sequence of (value, count) pairs. */
  function Counts<K>(r: seq<(K, nat)>): (cs: seq<int>)
    ensures |cs| == |r|
    ensures forall i :: 0 <= i < |r| ==> cs[i] == r[i].1
  {
    seq(|r|, i requires 0 <= i < |r| => r[i].1 as int)
  }

  /**
   * One more item after the runs r: it lengthens the last run when it equals
   * that run's value, and otherwise starts a new run of length 1.
   */
  function Extend(r: seq<(real, nat)>, x: real): seq<(real, nat)>
  {
    if |r| > 0 && r[|r| - 1].0 == x then r[..|r| - 1] + [(x, r[|r| - 1].1 + 1)]
    else r + [(x, 1)]
  }

  /**
   * The reference for `group`: each maximal run of equal items as (item,
   * length of the run), built from the front so that it follows the loop.
   */
  function Runs(s: seq<real>): seq<(real, nat)>
  {
    if |s| == 0 then [] else Extend(Runs(s[..|s| - 1]), s[|s| - 1])
  }

  lemma ExtendMembers(r: seq<(real, nat)>, x: real)
    ensures forall y :: y in Keys(Extend(r, x)) <==> y in Keys(r) || y == x
  {
    if |r| > 0 && r[|r| - 1].0 == x {
      assert Keys(Extend(r, x)) == Keys(r);
      assert x == Keys(r)[|r| - 1];
    } else {
      assert Keys(Extend(r, x)) == Keys(r) + [x];
    }
  }

  lemma ExtendTotal(r: seq<(real, nat)>, x: real)
    ensures Sum(Counts(Extend(r, x))) == Sum(Counts(r)) + 1
  {
    var e := Extend(r, x);
    if |r| > 0 && r[|r| - 1].0 == x {
      assert Counts(e)[..|r| - 1] == Counts(r)[..|r| - 1];
    } else {
      assert Counts(e)[..|r|] == Counts(r);
    }
  }

  /** An item no smaller than every run value keeps the values strictly ascending; a new run's value is above all earlier ones. */
  lemma ExtendAscending(r: seq<(real, nat)>, x: real)
    requires StrictlyAscending(Keys(r))
    requires forall i :: 0 <= i < |r| ==> r[i].0 <= x
    ensures StrictlyAscending(Keys(Extend(r, x)))
    ensures !(|r| > 0 && r[|r| - 1].0 == x) ==> forall i :: 0 <= i < |r| ==> r[i].0 < x
  {
    if |r| > 0 && r[|r| - 1].0 == x {
      assert Keys(Extend(r, x)) == Keys(r);
    } else {
      forall i | 0 <= i < |r|
        ensures r[i].0 < x
      {
        if i < |r| - 1 {
          assert Keys(r)[i] < Keys(r)[|r| - 1];
        }
      }
      assert Keys(Extend(r, x)) == Keys(r) + [x];
    }
  }

  /** Run lengths that count the occurrences in m still count them after one more item x. */
  lemma ExtendCounts(r: seq<(real, nat)>, x: real, m: multiset<real>)
    requires StrictlyAscending(Keys(r))
    requires forall i :: 0 <= i < |r| ==> r[i].0 <= x
    requires forall i :: 0 <= i < |r| ==> r[i].1 == m[r[i].0]
    requires forall y :: y in m <==> y in Keys(r)
    ensures forall i :: 0 <= i < |Extend(r, x)| ==> Extend(r, x)[i].1 == (m + multiset{x})[Extend(r, x)[i].0]
  {
    ExtendAscending(r, x);
    var e := Extend(r, x);
    if |r| > 0 && r[|r| - 1].0 == x {
      forall i | 0 <= i < |r| - 1
        ensures e[i].1 == (m + multiset{x})[e[i].0]
      {
        assert Keys(r)[i] < Keys(r)[|r| - 1];
      }
    }
  }

  /** The values of the runs are exactly the items. */
  lemma {:induction false} RunsMembers(s: seq<real>)
    ensures forall x :: x in Keys(Runs(s)) <==> x in s
    decreases |s|
  {
    if |s| > 0 {
      var front, x := s[..|s| - 1], s[|s| - 1];
      RunsMembers(front);
      ExtendMembers(Runs(front), x);
      assert s == front + [x];
    }
  }

  /** The run lengths add up to the number of items. */
  lemma {:induction false} RunsTotal(s: seq<real>)
    ensures Sum(Counts(Runs(s))) == |s|
    decreases |s|
  {
    if |s| > 0 {
      RunsTotal(s[..|s| - 1]);
      ExtendTotal(Runs(s[..|s| - 1]), s[|s| - 1]);
    }
  }

  /** An item no smaller than all earlier items is no smaller than any of their run values. */
  lemma RunsBounded(front: seq<real>, x: real)
    requires forall j :: 0 <= j < |front| ==> front[j] <= x
    ensures forall i :: 0 <= i < |Runs(front)| ==> Runs(front)[i].0 <= x
  {
    var r := Runs(front);
    RunsMembers(front);
    forall i | 0 <= i < |r|
      ensures r[i].0 <= x
    {
      assert Keys(r)[i] in Keys(r);
    }
  }

  /** On sorted items the last one is no smaller than any before it. */
  lemma SortedLast(s: seq<real>)
    requires |s| > 0 && SortedBy(s, Ident)
    ensures forall j :: 0 <= j < |s| - 1 ==> s[j] <= s[|s| - 1]
  {
    forall j | 0 <= j < |s| - 1
      ensures s[j] <= s[|s| - 1]
    {
      assert Ident(s[j]) <= Ident(s[|s| - 1]);
    }
  }

  /** On sorted items the run values strictly ascend. */
  lemma {:induction false} RunsAscending(s: seq<real>)
    requires SortedBy(s, Ident)
    ensures StrictlyAscending(Keys(Runs(s)))
    decreases |s|
  {
    if |s| > 0 {
      var front := s[..|s| - 1];
      assert SortedBy(front, Ident);
      RunsAscending(front);
      SortedLast(s);
      RunsBounded(front, s[|s| - 1]);
      ExtendAscending(Runs(front), s[|s| - 1]);
    }
  }

  /** On sorted items each run length is the number of occurrences of its value. */
  lemma {:induction false} RunsCounts(s: seq<real>)
    requires SortedBy(s, Ident)
    ensures forall i :: 0 <= i < |Runs(s)| ==> Runs(s)[i].1 == multiset(s)[Runs(s)[i].0]
    decreases |s|
  {
    if |s| > 0 {
      var front, x := s[..|s| - 1], s[|s| - 1];
      assert SortedBy(front, Ident);
      RunsCounts(front);
      RunsAscending(front);
      SortedLast(s);
      RunsBounded(front, x);
      RunsMembers(front);
      assert s == front + [x];
      ExtendCounts(Runs(front), x, multiset(front));
    }
  }

  /** (value, count) with the value as a present `previous`. */
  function Present(p: (real, nat)): (Option<real>, nat)
  {
    (Some(p.0), p.1)
  }

  /** One loop step of `group`, seen on the runs: a repeat raises the pending count, a new value flushes the pending pair. */
  lemma PresentExtend(runs: seq<(real, nat)>, x: real, r: seq<(Option<real>, nat)>, previous: Option<real>, count: nat)
    requires previous.Some? && Map(Present, runs) == r + [(previous, count)]
    ensures previous == Some(x) ==> Map(Present, Extend(runs, x)) == r + [(previous, count + 1)]
    ensures previous != Some(x) ==> Map(Present, Extend(runs, x)) == r + [(previous, count)] + [(Some(x), 1)]
  {
    assert |runs| > 0 && Present(runs[|runs| - 1]) == (previous, count);
    if previous == Some(x) {
      assert Map(Present, runs)[..|runs| - 1] == r;
      assert Map(Present, Extend(runs, x))[..|runs| - 1] == Map(Present, runs)[..|runs| - 1];
    } else {
      assert Map(Present, Extend(runs, x))[..|runs|] == Map(Present, runs);
    }
  }

  lemma RunsOfNext(sorted: seq<real>, i: nat)
    requires i < |sorted|
    ensures Runs(sorted[..i + 1]) == Extend(Runs(sorted[..i]), sorted[i])
  {
    assert sorted[..i + 1][..i] == sorted[..i];
  }

  lemma PresentFirst(x: real)
    ensures Map(Present, Extend([], x)) == [(Some(x), 1)]
  {
  }

  /** What `group(data)` yields: (None, 0) for no data, otherwise the runs of the sorted data. */
  function GroupOf(data: seq<real>): seq<(Option<real>, nat)>
  {
    if |data| == 0 then [(None, 0)] else Map(Present, Runs(SortBy(data, Ident)))
  }

  lemma GroupOfAscending(data: seq<real>)
    requires |data| > 0
    ensures forall i, j :: 0 <= i < j < |GroupOf(data)| ==>
      GroupOf(data)[i].0.Some? && GroupOf(data)[j].0.Some? && GroupOf(data)[i].0.value < GroupOf(data)[j].0.value
  {
    var r := Runs(SortBy(data, Ident));
    var g := GroupOf(data);
    RunsAscending(SortBy(data, Ident));
    forall i, j | 0 <= i < j < |g|
      ensures g[i].0.Some? && g[j].0.Some? && g[i].0.value < g[j].0.value
    {
      assert g[i] == Present(r[i]) && g[j] == Present(r[j]);
      assert Keys(r)[i] < Keys(r)[j];
    }
  }

  lemma GroupOfMembers(data: seq<real>)
    requires |data| > 0
    ensures forall x :: Some(x) in Keys(GroupOf(data)) <==> x in data
  {
    var sorted := SortBy(data, Ident);
    var r := Runs(sorted);
    var g := GroupOf(data);
    RunsMembers(sorted);
    forall x
      ensures Some(x) in Keys(g) <==> x in data
    {
      assert x in data <==> x in multiset(sorted);
      if x in Keys(r) {
        var i :| 0 <= i < |r| && Keys(r)[i] == x;
        assert Keys(g)[i] == Some(x);
      }
      if Some(x) in Keys(g) {
        var i :| 0 <= i < |g| && Keys(g)[i] == Some(x);
        assert Keys(r)[i] == x;
      }
    }
  }

  lemma GroupOfCounts(data: seq<real>)
    ensures forall i :: 0 <= i < |GroupOf(data)| && GroupOf(data)[i].0.Some? ==>
      GroupOf(data)[i].1 == multiset(data)[GroupOf(data)[i].0.value]
  {
    if |data| > 0 {
      RunsCounts(SortBy(data, Ident));
    }
  }

  lemma GroupOfTotal(data: seq<real>)
    ensures Sum(Counts(GroupOf(data))) == |data|
  {
    if |data| == 0 {
      assert |Counts(GroupOf(data))[..0]| == 0;
    } else {
      var r := Runs(SortBy(data, Ident));
      RunsTotal(SortBy(data, Ident));
      assert Counts(GroupOf(data)) == Counts(r);
    }
  }

  /**
   * The pairs `group` yields: for data, every distinct value once, in
   * ascending order, with its number of occurrences, the counts adding up
   * to the number of items; for no data, the single pair (None, 0).
   */
  lemma GroupOfSpec(data: seq<real>)
    ensures |data| == 0 ==> GroupOf(data) == [(None, 0)]
    ensures |data| > 0 ==> forall i, j :: 0 <= i < j < |GroupOf(data)| ==>
      GroupOf(data)[i].0.Some? && GroupOf(data)[j].0.Some? && GroupOf(data)[i].0.value < GroupOf(data)[j].0.value
    ensures |data| > 0 ==> forall x :: Some(x) in Keys(GroupOf(data)) <==> x in data
    ensures forall i :: 0 <= i < |GroupOf(data)| && GroupOf(data)[i].0.Some? ==>
      GroupOf(data)[i].1 == multiset(data)[GroupOf(data)[i].0.value]
    ensures Sum(Counts(GroupOf(data))) == |data|
  {
    if |data| > 0 {
      GroupOfAscending(data);
      GroupOfMembers(data);
    }
    GroupOfCounts(data);
    GroupOfTotal(data);
  }

  /**
   * The state of `group` after i sorted items: nothing yet before the first,
   * afterwards the pairs already yielded followed by the pending pair.
   */
  predicate Pending(sorted: seq<real>, i: nat, r: seq<(Option<real>, nat)>, previous: Option<real>, count: nat)
    requires i <= |sorted|
  {
    if i == 0 then previous.None? && count == 0 && r == []
    else previous.Some? && Map(Present, Runs(sorted[..i])) == r + [(previous, count)]
  }

  /** Each branch of the loop body keeps the state in step with the runs. */
  lemma GroupStep(sorted: seq<real>, i: nat, r: seq<(Option<real>, nat)>, previous: Option<real>, count: nat)
    requires i < |sorted| && Pending(sorted, i, r, previous, count)
    ensures previous == Some(sorted[i]) ==> Pending(sorted, i + 1, r, previous, count + 1)
    ensures previous.Some? && previous != Some(sorted[i]) ==>
      Pending(sorted, i + 1, r + [(previous, count)], Some(sorted[i]), 1)
    ensures previous.None? ==> Pending(sorted, i + 1, r, Some(sorted[i]), 1)
  {
    RunsOfNext(sorted, i);
    if i > 0 {
      PresentExtend(Runs(sorted[..i]), sorted[i], r, previous, count);
    } else {
      PresentFirst(sorted[i]);
    }
  }

  /**
   * The loop of `group` over data already sorted: keeps the previous value
   * and its count, yielding the pair each time the value changes and once
   * more at the end.  The source's final `raise` branch cannot be reached:
   * `previous` is either None or a value.
   */
  method GroupSorted(sorted: seq<real>) returns (r: seq<(Option<real>, nat)>)
    ensures |sorted| == 0 ==> r == [(None, 0)]
    ensures |sorted| > 0 ==> r == Map(Present, Runs(sorted))
  {
    var previous: Option<real> := None;
    var count: nat := 0;
    r := [];
    for i := 0 to |sorted|
      invariant Pending(sorted, i, r, previous, count)
    {
      var item := sorted[i];
      GroupStep(sorted, i, r, previous, count);
      if previous == Some(item) {
        count := count + 1;
      } else if previous.Some? {
        r := r + [(previous, count)];
        previous, count := Some(item), 1;
      } else {
        previous, count := Some(item), 1;
      }
    }
    r := r + [(previous, count)];
    assert |sorted| > 0 ==> sorted[..|sorted|] == sorted;
  }

  /**
   * `group(data)` inside `group_sort`: sorts the data, then counts each run.
   * For data it yields every distinct value once, with its number of
   * occurrences, the counts adding up to the number of items; for no data
   * the single pair (None, 0).
   */
  method Group(data: seq<real>) returns (r: seq<(Option<real>, nat)>)
    ensures r == GroupOf(data)
    ensures |data| == 0 ==> r == [(None, 0)]
    ensures |data| > 0 ==> forall x :: Some(x) in Keys(r) <==> x in data
    ensures forall i :: 0 <= i < |r| && r[i].0.Some? ==> r[i].1 == multiset(data)[r[i].0.value]
    ensures Sum(Counts(r)) == |data|
  {
    var sorted := SortBy(data, Ident);
    r := GroupSorted(sorted);
    GroupOfSpec(data);
  }

  /** `dict(pairs)`: later pairs overwrite earlier ones with the same key. */
  function DictOf<K, V>(pairs: seq<(K, V)>): map<K, V>
  {
    if |pairs| == 0 then map[]
    else DictOf(pairs[..|pairs| - 1])[pairs[|pairs| - 1].0 := pairs[|pairs| - 1].1]
  }

  /** With distinct keys the dictionary holds every pair and nothing else. */
  lemma {:induction false} DictOfDistinct<K, V>(pairs: seq<(K, V)>)
    requires forall i, j :: 0 <= i < j < |pairs| ==> pairs[i].0 != pairs[j].0
    ensures forall k :: k in DictOf(pairs) <==> k in Keys(pairs)
    ensures forall i :: 0 <= i < |pairs| ==> DictOf(pairs)[pairs[i].0] == pairs[i].1
  {
    if |pairs| > 0 {
      var front := pairs[..|pairs| - 1];
      DictOfDistinct(front);
      assert Keys(pairs) == Keys(front) + [pairs[|pairs| - 1].0];
    }
  }

  /** `group_sort(dataset)`: the dictionary from each distance bucket to its number of legs. */
  function GroupSort<P>(dataset: seq<Leg<P>>): map<Option<real>, nat>
  {
    DictOf(GroupOf(Map(QuantizeDistanceBy5, dataset)))
  }

  lemma CountDictEmpty()
    ensures DictOf(GroupOf([])) == map[None := 0]
  {
    var single: seq<(Option<real>, nat)> := [(None, 0)];
    assert single[..0] == [];
  }

  /** With distinct values, the dictionary of (value, count) pairs keeps every pair. */
  lemma CountDictOf(g: seq<(Option<real>, nat)>, qs: seq<real>)
    requires forall i, j :: 0 <= i < j < |g| ==> g[i].0 != g[j].0
    requires forall q :: Some(q) in Keys(g) <==> q in qs
    requires forall i :: 0 <= i < |g| && g[i].0.Some? ==> g[i].1 == multiset(qs)[g[i].0.value]
    ensures forall q :: Some(q) in DictOf(g) <==> q in qs
    ensures forall q :: Some(q) in DictOf(g) ==> DictOf(g)[Some(q)] == multiset(qs)[q]
  {
    DictOfDistinct(g);
  }

  /** The dictionary of `group` over values: each value present once, mapped to its number of occurrences. */
  lemma CountDict(qs: seq<real>)
    requires |qs| > 0
    ensures forall q :: Some(q) in DictOf(GroupOf(qs)) <==> q in qs
    ensures forall q :: Some(q) in DictOf(GroupOf(qs)) ==> DictOf(GroupOf(qs))[Some(q)] == multiset(qs)[q]
  {
    var g := GroupOf(qs);
    GroupOfAscending(qs);
    GroupOfMembers(qs);
    GroupOfCounts(qs);
    assert forall i, j :: 0 <= i < j < |g| ==> g[i].0 != g[j].0;
    CountDictOf(g, qs);
  }

  /**
   * Every bucket of the data is a key, mapped to the number of legs in it; no
   * data gives {None: 0}.
   */
  lemma GroupSortCounts<P>(dataset: seq<Leg<P>>)
    ensures |dataset| == 0 ==> GroupSort(dataset) == map[None := 0]
    ensures |dataset| > 0 ==> forall q :: Some(q) in GroupSort(dataset) <==> q in Map(QuantizeDistanceBy5, dataset)
    ensures forall q :: Some(q) in GroupSort(dataset) ==>
      GroupSort(dataset)[Some(q)] == multiset(Map(QuantizeDistanceBy5, dataset))[q]
  {
    var qs := Map(QuantizeDistanceBy5, dataset);
    if |dataset| == 0 {
      assert qs == [];
      CountDictEmpty();
    } else {
      CountDict(qs);
    }
  }

  // ---------------------------------------------------------------------------
  // Partitioning by key

  /** Reading a `defaultdict(list)`: a missing key reads as the empty list. */
  function Bucket<K, T>(d: map<K, seq<T>>, k: K): seq<T>
  {
    if k in d then d[k] else []
  }

  /** The items whose key is k. */
  function HasKey<T, K(==)>(key: T -> K, k: K): T -> bool
  {
    x => key(x) == k
  }

  /** `group_into(key, collection, dictionary)`: appends each item, head first, to the list under its key. */
  function GroupInto<T, K>(key: T -> K, collection: seq<T>, dictionary: map<K, seq<T>>): map<K, seq<T>>
    decreases |collection|
  {
    if |collection| == 0 then dictionary
    else
      var head := collection[0];
      GroupInto(key, collection[1..], dictionary[key(head) := Bucket(dictionary, key(head)) + [head]])
  }

  /** `group_by(key, data)`: `group_into` from an empty dictionary. */
  function GroupBy<T, K>(key: T -> K, data: seq<T>): map<K, seq<T>>
  {
    GroupInto(key, data, map[])
  }

  /** The keys after `group_into` are the keys before and the keys of the items. */
  lemma {:induction false} GroupIntoKeys<T, K>(key: T -> K, collection: seq<T>, dictionary: map<K, seq<T>>)
    ensures GroupInto(key, collection, dictionary).Keys
         == dictionary.Keys + (set i | 0 <= i < |collection| :: key(collection[i]))
    decreases |collection|
  {
    if |collection| > 0 {
      var head, tail := collection[0], collection[1..];
      GroupIntoKeys(key, tail, dictionary[key(head) := Bucket(dictionary, key(head)) + [head]]);
      assert (set i | 0 <= i < |collection| :: key(collection[i]))
          == {key(head)} + (set i | 0 <= i < |tail| :: key(tail[i])) by {
        assert forall i :: 1 <= i < |collection| ==> collection[i] == tail[i - 1];
      }
    }
  }

  /** The list under k after `group_into` is the list before, then the items with key k in input order. */
  lemma {:induction false} GroupIntoBuckets<T, K>(key: T -> K, collection: seq<T>, dictionary: map<K, seq<T>>)
    ensures forall k ::
      Bucket(GroupInto(key, collection, dictionary), k) == Bucket(dictionary, k) + Filter(HasKey(key, k), collection)
    decreases |collection|
  {
    if |collection| > 0 {
      var head, tail := collection[0], collection[1..];
      GroupIntoBuckets(key, tail, dictionary[key(head) := Bucket(dictionary, key(head)) + [head]]);
      forall k
        ensures Bucket(GroupInto(key, collection, dictionary), k)
             == Bucket(dictionary, k) + Filter(HasKey(key, k), collection)
      {
        if key(head) == k {
          assert Filter(HasKey(key, k), collection) == [head] + Filter(HasKey(key, k), tail);
        } else {
          assert Filter(HasKey(key, k), collection) == Filter(HasKey(key, k), tail);
        }
      }
    }
  }

  /**
   * The keys are exactly the keys of the items, and the list under k holds
   * exactly the items with key k, in input order; so every item lands once,
   * under its own key.
   */
  lemma GroupBySpec<T, K>(key: T -> K, data: seq<T>)
    ensures GroupBy(key, data).Keys == set i | 0 <= i < |data| :: key(data[i])
    ensures forall k :: k in GroupBy(key, data) ==> GroupBy(key, data)[k] == Filter(HasKey(key, k), data)
    ensures forall k :: k in GroupBy(key, data) ==> |GroupBy(key, data)[k]| > 0
  {
    GroupIntoKeys(key, data, map[]);
    GroupIntoBuckets(key, data, map[]);
    forall k | k in GroupBy(key, data)
      ensures GroupBy(key, data)[k] == Filter(HasKey(key, k), data)
      ensures |GroupBy(key, data)[k]| > 0
    {
      assert Bucket(GroupBy(key, data), k) == Filter(HasKey(key, k), data);
      var i :| 0 <= i < |data| && key(data[i]) == k;
      FilterKeeps(HasKey(key, k), data, data[i]);
    }
  }

  // ---------------------------------------------------------------------------
  // Getters and the northernmost leg of each bucket

  /** `get_lat(pair)`. */
  function GetLat(pair: (real, real)): real { pair.0 }

  /** `get_lon(pair)`. */
  function GetLon(pair: (real, real)): real { pair.1 }

  /** The getters on the sample point ((35.505665, -76.653664), (35.508335, -76.654999), 0.1731). */
  lemma GettersExample()
    ensures var point := ((35.505665, -76.653664), (35.508335, -76.654999), 0.1731);
      Start(point) == (35.505665, -76.653664) && End(point) == (35.508335, -76.654999) && Dist(point) == 0.1731
      && GetLat(Start(point)) == 35.505665 && GetLon(Start(point)) == -76.653664
  {
  }

  /** The key of `max(..., key=lambda x: get_lat(get_start(x)))`. */
  function Latitude(leg: Leg<(real, real)>): real
  {
    GetLat(Start(leg))
  }

  function NorthOf(a: Leg<(real, real)>, b: Leg<(real, real)>): bool
  {
    Latitude(a) > Latitude(b)
  }

  lemma NorthOfRanks()
    ensures Ranks(NorthOf, Latitude)
  {
  }

  /** The northernmost leg of each bucket, for the keys in the given order; an empty bucket raises ValueError. */
  function NorthernmostOf(collection: map<real, seq<Leg<(real, real)>>>, keys: seq<real>): Outcome<seq<Leg<(real, real)>>>
    requires forall i :: 0 <= i < |keys| ==> keys[i] in collection
  {
    if |keys| == 0 then Ok([])
    else
      var first :- Best(NorthOf, collection[keys[0]]);
      var rest :- NorthernmostOf(collection, keys[1..]);
      Ok([first] + rest)
  }

  /** `get_northernmost_distances(collection)`: over the keys in ascending order. */
  function NorthernmostDistances(collection: map<real, seq<Leg<(real, real)>>>): Outcome<seq<Leg<(real, real)>>>
  {
    var keys := SortedSet(collection.Keys);
    NorthernmostOf(collection, keys)
  }

  lemma {:induction false} NorthernmostOfSpec(collection: map<real, seq<Leg<(real, real)>>>, keys: seq<real>)
    requires forall i :: 0 <= i < |keys| ==> keys[i] in collection
    ensures NorthernmostOf(collection, keys).Raised? <==> exists i :: 0 <= i < |keys| && |collection[keys[i]]| == 0
    ensures NorthernmostOf(collection, keys).Raised? ==> NorthernmostOf(collection, keys).exc == ValueError
    ensures NorthernmostOf(collection, keys).Ok? ==>
      var r := NorthernmostOf(collection, keys).value;
      |r| == |keys| && forall i :: 0 <= i < |keys| ==>
        r[i] in collection[keys[i]]
        && forall j :: 0 <= j < |collection[keys[i]]| ==> Latitude(collection[keys[i]][j]) <= Latitude(r[i])
  {
    if |keys| > 0 {
      NorthernmostOfSpec(collection, keys[1..]);
      assert forall i :: 1 <= i < |keys| ==> keys[i] == keys[1..][i - 1];
      if |collection[keys[0]]| > 0 {
        NorthOfRanks();
        BestIsExtreme(NorthOf, Latitude, collection[keys[0]]);
      }
    }
  }

  /**
   * For every distance bucket in ascending order, a leg of that bucket with
   * the greatest starting latitude; ValueError exactly when some bucket is
   * empty.
   */
  lemma NorthernmostDistancesSpec(collection: map<real, seq<Leg<(real, real)>>>)
    ensures NorthernmostDistances(collection).Raised? <==> exists k :: k in collection && |collection[k]| == 0
    ensures NorthernmostDistances(collection).Ok? ==>
      var keys := SortedSet(collection.Keys);
      var r := NorthernmostDistances(collection).value;
      |r| == |keys| && forall i :: 0 <= i < |keys| ==>
        r[i] in collection[keys[i]]
        && forall j :: 0 <= j < |collection[keys[i]]| ==> Latitude(collection[keys[i]][j]) <= Latitude(r[i])
  {
    var keys := SortedSet(collection.Keys);
    NorthernmostOfSpec(collection, keys);
    if exists k :: k in collection && |collection[k]| == 0 {
      var k :| k in collection && |collection[k]| == 0;
      assert k in keys;
    }
  }

  /** The buckets of `group_by` are never empty, so the northernmost legs of its result always exist. */
  lemma NorthernmostOfGroupBy(data: seq<Leg<(real, real)>>)
    ensures NorthernmostDistances(GroupBy(QuantizeDistanceBy5, data)).Ok?
  {
    GroupBySpec(QuantizeDistanceBy5, data);
    NorthernmostDistancesSpec(GroupBy(QuantizeDistanceBy5, data));
  }

  // ---------------------------------------------------------------------------
  // Generalised sums

  /** `sum_generalized(function, data)`: the sum of function(x) over the data. */
  function SumGeneralized<T>(f: T -> int, data: seq<T>): int
  {
    Sum(Map(f, data))
  }

  function One<T>(x: T): int { 1 }

  function Identity(x: int): int { x }

  function Square(x: int): int { x * x }

  lemma {:induction false} SumOfOnes<T>(data: seq<T>)
    ensures SumGeneralized(One, data) == |data|
  {
    if |data| > 0 {
      SumOfOnes(data[..|data| - 1]);
      assert Map(One, data)[..|data| - 1] == Map(One, data[..|data| - 1]);
    }
  }

  /** With the constant 1 the generalised sum is s0, the count; with the identity it is s1, the sum. */
  lemma SumGeneralizedMoments(data: seq<int>)
    ensures SumGeneralized(One, data) == |data|
    ensures SumGeneralized(Identity, data) == Sum(data)
  {
    SumOfOnes(data);
    assert Map(Identity, data) == data;
  }

  /** The three reductions of 4, 3, 7, 5, 8: count 5, sum 27, sum of squares 163. */
  lemma SumGeneralizedExample()
    ensures SumGeneralized(One, [4, 3, 7, 5, 8]) == 5
    ensures SumGeneralized(Identity, [4, 3, 7, 5, 8]) == 27
    ensures SumGeneralized(Square, [4, 3, 7, 5, 8]) == 163
  {
    var d := [4, 3, 7, 5, 8];
    SumGeneralizedMoments(d);
    assert Sum([4]) == 4 by { assert [4][..0] == []; }
    assert Sum([4, 3]) == 7 by { assert [4, 3][..1] == [4]; }
    assert Sum([4, 3, 7]) == 14 by { assert [4, 3, 7][..2] == [4, 3]; }
    assert Sum([4, 3, 7, 5]) == 19 by { assert [4, 3, 7, 5][..3] == [4, 3, 7]; }
    assert d[..4] == [4, 3, 7, 5];
    assert Map(Square, d) == [16, 9, 49, 25, 64];
    assert Sum([16]) == 16 by { assert [16][..0] == []; }
    assert Sum([16, 9]) == 25 by { assert [16, 9][..1] == [16]; }
    assert Sum([16, 9, 49]) == 74 by { assert [16, 9, 49][..2] == [16, 9]; }
    assert Sum([16, 9, 49, 25]) == 99 by { assert [16, 9, 49, 25][..3] == [16, 9, 49]; }
    assert [16, 9, 49, 25, 64][..4] == [16, 9, 49, 25];
  }

  /** `filtered_sum_generalized(filter, function, data)`: the sum of function(x) over the x that pass the filter. */
  function FilteredSumGeneralized<T>(keep: T -> bool, f: T -> int, data: seq<T>): int
  {
    Sum(Map(f, Filter(keep, data)))
  }

  /** It is the running sum `Sum_Filter` of chapter 5: f(x) for a kept item, nothing for a rejected one. */
  lemma FilteredSumIsSumFilter<T>(keep: T -> bool, f: T -> int, data: seq<T>)
    ensures FilteredSumGeneralized(keep, f, data) == Ch05Generators.SumFilter(keep, f, data)
  {
    Ch05Generators.SumFilterIsSumOfFiltered(keep, f, data);
  }

  /** `is_valid(x)`: x is not None. */
  predicate IsValid(x: Option<int>)
  {
    x.Some?
  }

  /**
   * `lambda x: x` as the function: it is only ever applied to valid items,
   * so its value on None does not matter; it is taken as 0.
   */
  function ValueOf(x: Option<int>): int
  {
    if x.Some? then x.value else 0
  }

  function Count(x: Option<int>): int { 1 }

  /** With None in the data: the filtered count is 5 and the filtered sum 27. */
  lemma FilteredSumExample()
    ensures FilteredSumGeneralized(IsValid, Count, [Some(4), Some(3), Some(7), None, Some(5), Some(8)]) == 5
    ensures FilteredSumGeneralized(IsValid, ValueOf, [Some(4), Some(3), Some(7), None, Some(5), Some(8)]) == 27
  {
    var d: seq<Option<int>> := [Some(4), Some(3), Some(7), None, Some(5), Some(8)];
    FilteredSumIsSumFilter(IsValid, Count, d);
    FilteredSumIsSumFilter(IsValid, ValueOf, d);
    assert d[1..][1..] == d[2..];
    assert d[2..][1..] == d[3..];
    assert d[3..][1..] == d[4..];
    assert d[4..][1..] == d[5..];
  }
}
