/**
 * Chapter 7: statistical ranks built by wrapping instead of updating.
 * `rank` groups the items by key, walks the keys in ascending order and
 * gives every item of a tie group the mean of the positions the group
 * occupies; `rank_y` and `rank_xy` wrap a pair with its y and x ranks, and
 * the Spearman coefficient compares the two.
 *
 * Ranks are Python floats; the model keeps them as exact reals.
 */
module Ch07Ranking {
  import opened Py
  import opened Sorting
  import Ch06Grouping
  import Ch03Anscombe
  import Arith

  // ---------------------------------------------------------------------------
  // Counting helpers

  /** The items whose key is below k. */
  function KeyBelow<T>(key: T -> real, k: real): T -> bool
  {
    x => key(x) < k
  }

  /** The number of items whose key is below k. */
  function BelowCount<T>(key: T -> real, data: seq<T>, k: real): nat
  {
    |Filter(KeyBelow(key, k), data)|
  }

  /** The number of items whose key is k. */
  function EqualCount<T>(key: T -> real, data: seq<T>, k: real): nat
  {
    |Filter(Ch06Grouping.HasKey(key, k), data)|
  }

  /** Two disjoint tests that together make a third split what it keeps. */
  lemma {:induction false} FilterSplit<T>(p: T -> bool, q: T -> bool, r: T -> bool, s: seq<T>)
    requires forall i :: 0 <= i < |s| ==> (r(s[i]) <==> p(s[i]) || q(s[i])) && !(p(s[i]) && q(s[i]))
    ensures multiset(Filter(r, s)) == multiset(Filter(p, s)) + multiset(Filter(q, s))
  {
    if |s| > 0 {
      FilterSplit(p, q, r, s[1..]);
    }
  }

  /** A test every item passes keeps everything. */
  lemma {:induction false} FilterAll<T>(p: T -> bool, s: seq<T>)
    requires forall i :: 0 <= i < |s| ==> p(s[i])
    ensures Filter(p, s) == s
  {
    if |s| > 0 {
      FilterAll(p, s[1..]);
    }
  }

  /** A test no item passes keeps nothing. */
  lemma {:induction false} FilterNone<T>(p: T -> bool, s: seq<T>)
    requires forall i :: 0 <= i < |s| ==> !p(s[i])
    ensures Filter(p, s) == []
  {
    if |s| > 0 {
      FilterNone(p, s[1..]);
    }
  }

  // ---------------------------------------------------------------------------
  // rank

  /** The mean of the 1-based positions base + 1 .. base + dups: `(base + 1 + base + dups)/2`. */
  function MidRank(base: nat, dups: nat): real
  {
    ((base + 1 + base + dups) as real) / 2.0
  }

  /** Every item of a group paired with the same rank. */
  function Tag<T>(rank: real, group: seq<T>): (out: seq<(real, T)>)
    ensures |out| == |group|
    ensures forall i :: 0 <= i < |group| ==> out[i] == (rank, group[i])
  {
    seq(|group|, i requires 0 <= i < |group| => (rank, group[i]))
  }

  /**
   * `rank_output(duplicates, key_iter, base)`: for each key, every item of
   * its group with the mean position of the group, then the next key with
   * the base moved past the group.
   */
  function RankOutput<T>(duplicates: map<real, seq<T>>, keys: seq<real>, base: nat): seq<(real, T)>
    requires forall i :: 0 <= i < |keys| ==> keys[i] in duplicates
  {
    if |keys| == 0 then []
    else
      var group := duplicates[keys[0]];
      Tag(MidRank(base, |group|), group) + RankOutput(duplicates, keys[1..], base + |group|)
  }

  /**
   * `rank(data, key)`: `build_duplicates` collects the items under their
   * keys in input order, then `rank_output` walks the sorted keys from base 0.
   */
  function Rank<T>(key: T -> real, data: seq<T>): seq<(real, T)>
  {
    var duplicates := Ch06Grouping.GroupBy(key, data);
    RankOutput(duplicates, SortedSet(duplicates.Keys), 0)
  }

  /** The groups of the keys, one after the other. */
  function Groups<T>(duplicates: map<real, seq<T>>, keys: seq<real>): seq<T>
    requires forall i :: 0 <= i < |keys| ==> keys[i] in duplicates
  {
    if |keys| == 0 then [] else duplicates[keys[0]] + Groups(duplicates, keys[1..])
  }

  function RankOf<T>(p: (real, T)): real { p.0 }

  function ItemOf<T>(p: (real, T)): T { p.1 }

  /** The items come out group by group, in the order of the keys. */
  lemma {:induction false} RankOutputItems<T>(duplicates: map<real, seq<T>>, keys: seq<real>, base: nat)
    requires forall i :: 0 <= i < |keys| ==> keys[i] in duplicates
    ensures Map(ItemOf, RankOutput(duplicates, keys, base)) == Groups(duplicates, keys)
  {
    if |keys| > 0 {
      var group := duplicates[keys[0]];
      RankOutputItems(duplicates, keys[1..], base + |group|);
      var t := Tag(MidRank(base, |group|), group);
      var rest := RankOutput(duplicates, keys[1..], base + |group|);
      assert Map(ItemOf, t + rest) == Map(ItemOf, t) + Map(ItemOf, rest);
      assert Map(ItemOf, t) == group;
    }
  }

  /** The ranks of one group add up to its size times its rank. */
  lemma {:induction false} SumTag<T>(rank: real, group: seq<T>)
    ensures SumR(Map(RankOf, Tag(rank, group))) == (|group| as real) * rank
  {
    if |group| > 0 {
      var front := group[..|group| - 1];
      SumTag(rank, front);
      assert Map(RankOf, Tag(rank, group))[..|group| - 1] == Map(RankOf, Tag(rank, front));
    }
  }

  /** The sum of the positions 1 .. n. */
  function Triangle(n: nat): real
  {
    if n == 0 then 0.0 else Triangle(n - 1) + n as real
  }

  /** Gauss: 1 + 2 + ... + n == n(n + 1)/2. */
  lemma {:induction false} TriangleClosed(n: nat)
    ensures 2.0 * Triangle(n) == (n as real) * (n as real + 1.0)
  {
    if n > 0 {
      TriangleClosed(n - 1);
      var m := n as real;
      assert (m - 1.0) * m + 2.0 * m == m * (m + 1.0);
    }
  }

  /** The mean position of a group times its size: base + 1 + ... + base + dups. */
  lemma {:induction false} TriangleStep(base: nat, dups: nat)
    ensures (dups as real) * MidRank(base, dups) == Triangle(base + dups) - Triangle(base)
  {
    if dups > 0 {
      TriangleStep(base, dups - 1);
      var b, d := base as real, dups as real;
      assert MidRank(base, dups) == (2.0 * b + 1.0 + d) / 2.0;
      assert MidRank(base, dups - 1) == (2.0 * b + d) / 2.0;
      assert d * ((2.0 * b + 1.0 + d) / 2.0) - (d - 1.0) * ((2.0 * b + d) / 2.0) == b + d;
    }
  }

  /** The ranks of a group of dups items from base on add up to base + 1 + ... + base + dups. */
  lemma GroupRankSum<T>(base: nat, group: seq<T>)
    ensures SumR(Map(RankOf, Tag(MidRank(base, |group|), group))) == Triangle(base + |group|) - Triangle(base)
  {
    SumTag(MidRank(base, |group|), group);
    TriangleStep(base, |group|);
  }

  /** The ranks of an output made of two parts add up part by part. */
  lemma RanksSplit<T>(out: seq<(real, T)>, a: seq<(real, T)>, b: seq<(real, T)>)
    requires out == a + b
    ensures SumR(Map(RankOf, out)) == SumR(Map(RankOf, a)) + SumR(Map(RankOf, b))
  {
    assert Map(RankOf, a + b) == Map(RankOf, a) + Map(RankOf, b);
    SumRAppend(Map(RankOf, a), Map(RankOf, b));
  }

  /** The positions the groups occupy from base on, group by group. */
  function GroupPositions<T>(duplicates: map<real, seq<T>>, keys: seq<real>, base: nat): real
    requires forall i :: 0 <= i < |keys| ==> keys[i] in duplicates
  {
    if |keys| == 0 then 0.0
    else
      var n := |duplicates[keys[0]]|;
      (Triangle(base + n) - Triangle(base)) + GroupPositions(duplicates, keys[1..], base + n)
  }

  /** The ranks of each group add up to the positions it occupies. */
  lemma {:induction false} RankOutputSum<T>(duplicates: map<real, seq<T>>, keys: seq<real>, base: nat)
    requires forall i :: 0 <= i < |keys| ==> keys[i] in duplicates
    ensures SumR(Map(RankOf, RankOutput(duplicates, keys, base))) == GroupPositions(duplicates, keys, base)
  {
    if |keys| > 0 {
      var group := duplicates[keys[0]];
      var t := Tag(MidRank(base, |group|), group);
      var rest := RankOutput(duplicates, keys[1..], base + |group|);
      RankOutputSum(duplicates, keys[1..], base + |group|);
      GroupRankSum(base, group);
      RanksSplit(RankOutput(duplicates, keys, base), t, rest);
    }
  }

  /** Consecutive groups occupy consecutive positions: base + 1 .. base + n in all. */
  lemma {:induction false} GroupPositionsTelescope<T>(duplicates: map<real, seq<T>>, keys: seq<real>, base: nat)
    requires forall i :: 0 <= i < |keys| ==> keys[i] in duplicates
    ensures GroupPositions(duplicates, keys, base) == Triangle(base + |Groups(duplicates, keys)|) - Triangle(base)
  {
    if |keys| > 0 {
      GroupPositionsTelescope(duplicates, keys[1..], base + |duplicates[keys[0]]|);
    }
  }

  // ---------------------------------------------------------------------------
  // The duplicates dictionary

  /** What `build_duplicates` gives: under each key, the items with that key, in input order. */
  ghost predicate GroupedBy<T>(key: T -> real, data: seq<T>, duplicates: map<real, seq<T>>)
  {
    forall k :: k in duplicates ==> duplicates[k] == Filter(Ch06Grouping.HasKey(key, k), data)
  }

  /** The keys present in some item. */
  ghost predicate KeysOf<T>(key: T -> real, data: seq<T>, keys: set<real>)
  {
    forall k :: k in keys <==> exists i :: 0 <= i < |data| && key(data[i]) == k
  }

  lemma DuplicatesSpec<T>(key: T -> real, data: seq<T>)
    ensures GroupedBy(key, data, Ch06Grouping.GroupBy(key, data))
    ensures KeysOf(key, data, Ch06Grouping.GroupBy(key, data).Keys)
  {
    Ch06Grouping.GroupBySpec(key, data);
  }

  /** Every item of a group has the group's key. */
  lemma GroupKeys<T>(key: T -> real, data: seq<T>, k: real)
    ensures forall i :: 0 <= i < |Filter(Ch06Grouping.HasKey(key, k), data)| ==>
      key(Filter(Ch06Grouping.HasKey(key, k), data)[i]) == k
  {
    FilterSound(Ch06Grouping.HasKey(key, k), data);
  }

  /** The items of keys past the first of an ascending key list lie above it. */
  ghost predicate Covers<T>(key: T -> real, data: seq<T>, keys: seq<real>)
  {
    |keys| > 0 ==> forall i :: 0 <= i < |data| && key(data[i]) >= keys[0] ==> key(data[i]) in keys
  }

  /**
   * With ascending keys covering every item from the first key on, and the
   * base equal to the number of items below the first key, every item gets
   * the mean of the positions of the items with its key.
   */
  lemma {:induction false} RankOutputMidRank<T>(key: T -> real, data: seq<T>, duplicates: map<real, seq<T>>,
                                               keys: seq<real>, base: nat)
    requires forall i :: 0 <= i < |keys| ==> keys[i] in duplicates
    requires GroupedBy(key, data, duplicates)
    requires StrictlyAscending(keys) && Covers(key, data, keys)
    requires |keys| > 0 ==> base == BelowCount(key, data, keys[0])
    ensures forall i :: 0 <= i < |RankOutput(duplicates, keys, base)| ==>
      var (r, x) := RankOutput(duplicates, keys, base)[i];
      r == MidRank(BelowCount(key, data, key(x)), EqualCount(key, data, key(x)))
  {
    if |keys| > 0 {
      var k := keys[0];
      var group := duplicates[k];
      var t := Tag(MidRank(base, |group|), group);
      var rest := RankOutput(duplicates, keys[1..], base + |group|);
      GroupKeys(key, data, k);
      if |keys| > 1 {
        NextBase(key, data, keys);
      }
      assert StrictlyAscending(keys[1..]);
      CoversRest(key, data, keys);
      RankOutputMidRank(key, data, duplicates, keys[1..], base + |group|);
      forall i | 0 <= i < |t + rest|
        ensures var (r, x) := (t + rest)[i];
          r == MidRank(BelowCount(key, data, key(x)), EqualCount(key, data, key(x)))
      {
        if i < |t| {
          assert (t + rest)[i] == (MidRank(base, |group|), group[i]);
        } else {
          assert (t + rest)[i] == rest[i - |t|];
        }
      }
    }
  }

  lemma CoversRest<T>(key: T -> real, data: seq<T>, keys: seq<real>)
    requires |keys| > 0 && StrictlyAscending(keys) && Covers(key, data, keys)
    ensures Covers(key, data, keys[1..])
  {
    if |keys| > 1 {
      forall i | 0 <= i < |data| && key(data[i]) >= keys[1]
        ensures key(data[i]) in keys[1..]
      {
        assert keys[0] < keys[1];
        var j :| 0 <= j < |keys| && keys[j] == key(data[i]);
        assert j != 0;
        assert keys[1..][j - 1] == keys[j];
      }
    }
  }

  /** No key of an ascending list lies strictly between its first two. */
  lemma BetweenNeighbours(keys: seq<real>, v: real)
    requires |keys| > 1 && StrictlyAscending(keys) && v in keys
    ensures !(keys[0] < v < keys[1])
  {
    var j :| 0 <= j < |keys| && keys[j] == v;
    if j > 1 {
      assert keys[1] < keys[j];
    }
  }

  /** No item lies strictly between two neighbouring keys, so the next base is this base plus this group. */
  lemma NextBase<T>(key: T -> real, data: seq<T>, keys: seq<real>)
    requires |keys| > 1 && StrictlyAscending(keys) && Covers(key, data, keys)
    ensures BelowCount(key, data, keys[1]) == BelowCount(key, data, keys[0]) + EqualCount(key, data, keys[0])
  {
    var k0, k1 := keys[0], keys[1];
    forall i | 0 <= i < |data|
      ensures (KeyBelow(key, k1)(data[i]) <==> KeyBelow(key, k0)(data[i]) || Ch06Grouping.HasKey(key, k0)(data[i]))
      ensures !(KeyBelow(key, k0)(data[i]) && Ch06Grouping.HasKey(key, k0)(data[i]))
    {
      if key(data[i]) >= k0 {
        BetweenNeighbours(keys, key(data[i]));
      }
    }
    FilterSplit(KeyBelow(key, k0), Ch06Grouping.HasKey(key, k0), KeyBelow(key, k1), data);
    var below1 := Filter(KeyBelow(key, k1), data);
    assert |multiset(below1)| == |below1|;
  }

  /** The base 0 is the number of items below the least key. */
  lemma FirstBase<T>(key: T -> real, data: seq<T>, keys: seq<real>)
    requires |keys| > 0 && StrictlyAscending(keys)
    requires forall i :: 0 <= i < |data| ==> key(data[i]) in keys
    ensures BelowCount(key, data, keys[0]) == 0
  {
    forall i | 0 <= i < |data|
      ensures !KeyBelow(key, keys[0])(data[i])
    {
      var j :| 0 <= j < |keys| && keys[j] == key(data[i]);
      if j > 0 {
        assert keys[0] < keys[j];
      }
    }
    FilterNone(KeyBelow(key, keys[0]), data);
  }

  /**
   * Every item's rank is the mean of the positions the items with its key
   * occupy in key order: `(below + 1 + below + equal)/2`, where below
   * counts the items with smaller keys and equal those with the same key.
   */
  lemma RankIsMidRank<T>(key: T -> real, data: seq<T>)
    ensures forall i :: 0 <= i < |Rank(key, data)| ==>
      var (r, x) := Rank(key, data)[i];
      r == MidRank(BelowCount(key, data, key(x)), EqualCount(key, data, key(x)))
  {
    var duplicates := Ch06Grouping.GroupBy(key, data);
    var keys := SortedSet(duplicates.Keys);
    DuplicatesSpec(key, data);
    assert forall i :: 0 <= i < |data| ==> key(data[i]) in keys;
    if |keys| > 0 {
      FirstBase(key, data, keys);
    }
    RankOutputMidRank(key, data, duplicates, keys, 0);
  }

  /** Items with the same key get the same rank. */
  lemma RankTies<T>(key: T -> real, data: seq<T>)
    ensures forall i, j ::
      (0 <= i < |Rank(key, data)| && 0 <= j < |Rank(key, data)| && key(Rank(key, data)[i].1) == key(Rank(key, data)[j].1)) ==>
      Rank(key, data)[i].0 == Rank(key, data)[j].0
  {
    RankIsMidRank(key, data);
  }

  // ---------------------------------------------------------------------------
  // Every item exactly once, in key order

  /** The items whose key is one of keys. */
  function KeyIn<T>(key: T -> real, keys: seq<real>): T -> bool
  {
    x => key(x) in keys
  }

  /** The groups of distinct keys hold exactly the items with one of those keys. */
  lemma {:induction false} GroupsCount<T>(key: T -> real, data: seq<T>, duplicates: map<real, seq<T>>, keys: seq<real>)
    requires forall i :: 0 <= i < |keys| ==> keys[i] in duplicates
    requires GroupedBy(key, data, duplicates) && StrictlyAscending(keys)
    ensures multiset(Groups(duplicates, keys)) == multiset(Filter(KeyIn(key, keys), data))
  {
    if |keys| == 0 {
      FilterNone(KeyIn(key, keys), data);
    } else {
      assert StrictlyAscending(keys[1..]);
      GroupsCount(key, data, duplicates, keys[1..]);
      forall i | 0 <= i < |data|
        ensures KeyIn(key, keys)(data[i]) <==>
          Ch06Grouping.HasKey(key, keys[0])(data[i]) || KeyIn(key, keys[1..])(data[i])
        ensures !(Ch06Grouping.HasKey(key, keys[0])(data[i]) && KeyIn(key, keys[1..])(data[i]))
      {
        HeadOrTail(keys, key(data[i]));
      }
      FilterSplit(Ch06Grouping.HasKey(key, keys[0]), KeyIn(key, keys[1..]), KeyIn(key, keys), data);
    }
  }

  /** A value is in a strictly ascending list exactly when it is its head or, apart from the head, in its tail. */
  lemma HeadOrTail(keys: seq<real>, v: real)
    requires |keys| > 0 && StrictlyAscending(keys)
    ensures v in keys <==> v == keys[0] || v in keys[1..]
    ensures !(v == keys[0] && v in keys[1..])
  {
    if v in keys[1..] {
      var j :| 0 <= j < |keys| - 1 && keys[1..][j] == v;
      assert keys[0] < keys[j + 1];
    }
    if v in keys && v != keys[0] {
      var j :| 0 <= j < |keys| && keys[j] == v;
      assert keys[1..][j - 1] == keys[j];
    }
  }

  /** The keys of the groups come from the key list. */
  lemma {:induction false} GroupsKeys<T>(key: T -> real, data: seq<T>, duplicates: map<real, seq<T>>, keys: seq<real>)
    requires forall i :: 0 <= i < |keys| ==> keys[i] in duplicates
    requires GroupedBy(key, data, duplicates)
    ensures forall i :: 0 <= i < |Groups(duplicates, keys)| ==> key(Groups(duplicates, keys)[i]) in keys
  {
    if |keys| > 0 {
      var group := duplicates[keys[0]];
      var rest := Groups(duplicates, keys[1..]);
      GroupsKeys(key, data, duplicates, keys[1..]);
      GroupKeys(key, data, keys[0]);
      forall i | 0 <= i < |group + rest|
        ensures key((group + rest)[i]) in keys
      {
        if i >= |group| {
          assert (group + rest)[i] == rest[i - |group|];
        }
      }
    }
  }

  /** Ascending keys put the groups in ascending key order. */
  lemma {:induction false} GroupsSorted<T>(key: T -> real, data: seq<T>, duplicates: map<real, seq<T>>, keys: seq<real>)
    requires forall i :: 0 <= i < |keys| ==> keys[i] in duplicates
    requires GroupedBy(key, data, duplicates) && StrictlyAscending(keys)
    ensures SortedBy(Groups(duplicates, keys), key)
  {
    if |keys| > 0 {
      var group := duplicates[keys[0]];
      var rest := Groups(duplicates, keys[1..]);
      assert StrictlyAscending(keys[1..]);
      GroupsSorted(key, data, duplicates, keys[1..]);
      GroupsKeys(key, data, duplicates, keys[1..]);
      GroupKeys(key, data, keys[0]);
      forall i | 0 <= i < |rest|
        ensures keys[0] < key(rest[i])
      {
        HeadOrTail(keys, key(rest[i]));
      }
      forall i, j | 0 <= i < j < |group + rest|
        ensures key((group + rest)[i]) <= key((group + rest)[j])
      {
        if j >= |group| {
          assert (group + rest)[j] == rest[j - |group|];
          if i >= |group| {
            assert (group + rest)[i] == rest[i - |group|];
          }
        }
      }
    }
  }

  /** Each key's items come out of the groups in their input order. */
  lemma {:induction false} GroupsFilter<T>(key: T -> real, data: seq<T>, duplicates: map<real, seq<T>>,
                                         keys: seq<real>, k: real)
    requires forall i :: 0 <= i < |keys| ==> keys[i] in duplicates
    requires GroupedBy(key, data, duplicates) && StrictlyAscending(keys)
    ensures Filter(Ch06Grouping.HasKey(key, k), Groups(duplicates, keys))
         == if k in keys then Filter(Ch06Grouping.HasKey(key, k), data) else []
  {
    if |keys| > 0 {
      var group := duplicates[keys[0]];
      var rest := Groups(duplicates, keys[1..]);
      assert StrictlyAscending(keys[1..]);
      GroupsFilter(key, data, duplicates, keys[1..], k);
      GroupKeys(key, data, keys[0]);
      HeadOrTail(keys, k);
      FilterAppend(Ch06Grouping.HasKey(key, k), group, rest);
      if k == keys[0] {
        FilterAll(Ch06Grouping.HasKey(key, k), group);
      } else {
        FilterNone(Ch06Grouping.HasKey(key, k), group);
      }
    }
  }

  /** The sorted keys of the duplicates dictionary: every key of an item, each once, ascending. */
  lemma SortedKeys<T>(key: T -> real, data: seq<T>)
    ensures var duplicates := Ch06Grouping.GroupBy(key, data);
      var keys := SortedSet(duplicates.Keys);
      (forall i :: 0 <= i < |keys| ==> keys[i] in duplicates) &&
      GroupedBy(key, data, duplicates) && StrictlyAscending(keys) &&
      (forall i :: 0 <= i < |data| ==> key(data[i]) in keys) &&
      (forall k :: k in keys ==> exists i :: 0 <= i < |data| && key(data[i]) == k)
  {
    var duplicates := Ch06Grouping.GroupBy(key, data);
    DuplicatesSpec(key, data);
    forall i | 0 <= i < |data|
      ensures key(data[i]) in duplicates
    {
      assert exists j :: 0 <= j < |data| && key(data[j]) == key(data[i]);
    }
  }

  /** The items of the ranking, without their ranks. */
  function Items<T>(ranked: seq<(real, T)>): seq<T>
  {
    Map(ItemOf, ranked)
  }

  /** `rank` yields every item exactly once. */
  lemma RankEmitsEach<T>(key: T -> real, data: seq<T>)
    ensures multiset(Items(Rank(key, data))) == multiset(data)
  {
    var duplicates := Ch06Grouping.GroupBy(key, data);
    var keys := SortedSet(duplicates.Keys);
    SortedKeys(key, data);
    RankOutputItems(duplicates, keys, 0);
    GroupsCount(key, data, duplicates, keys);
    FilterAll(KeyIn(key, keys), data);
  }

  /** The items come out in ascending key order. */
  lemma RankSorted<T>(key: T -> real, data: seq<T>)
    ensures SortedBy(Items(Rank(key, data)), key)
  {
    var duplicates := Ch06Grouping.GroupBy(key, data);
    var keys := SortedSet(duplicates.Keys);
    SortedKeys(key, data);
    RankOutputItems(duplicates, keys, 0);
    GroupsSorted(key, data, duplicates, keys);
  }

  /** Items with the same key keep their input order. */
  lemma RankStable<T>(key: T -> real, data: seq<T>, k: real)
    ensures Filter(Ch06Grouping.HasKey(key, k), Items(Rank(key, data))) == Filter(Ch06Grouping.HasKey(key, k), data)
  {
    var duplicates := Ch06Grouping.GroupBy(key, data);
    var keys := SortedSet(duplicates.Keys);
    SortedKeys(key, data);
    RankOutputItems(duplicates, keys, 0);
    GroupsFilter(key, data, duplicates, keys, k);
    if k !in keys {
      FilterNone(Ch06Grouping.HasKey(key, k), data);
    }
  }

  /**
   * The ranks add up to 1 + 2 + ... + n whatever the ties, which
   * TriangleClosed puts as n(n + 1)/2.
   */
  lemma RankPositions<T>(key: T -> real, data: seq<T>)
    ensures SumR(Map(RankOf, Rank(key, data))) == Triangle(|data|)
  {
    var duplicates := Ch06Grouping.GroupBy(key, data);
    var keys := SortedSet(duplicates.Keys);
    SortedKeys(key, data);
    RankOutputSum(duplicates, keys, 0);
    GroupPositionsFromZero(duplicates, keys);
    GroupsLength(key, data);
  }

  /** From base 0 the groups occupy the positions 1 .. n. */
  lemma GroupPositionsFromZero<T>(duplicates: map<real, seq<T>>, keys: seq<real>)
    requires forall i :: 0 <= i < |keys| ==> keys[i] in duplicates
    ensures GroupPositions(duplicates, keys, 0) == Triangle(|Groups(duplicates, keys)|)
  {
    var n := |Groups(duplicates, keys)|;
    GroupPositionsTelescope(duplicates, keys, 0);
    assert 0 + n == n;
    assert Triangle(0) == 0.0;
  }

  /** The groups hold as many items as the data. */
  lemma GroupsLength<T>(key: T -> real, data: seq<T>)
    ensures var duplicates := Ch06Grouping.GroupBy(key, data);
      |Groups(duplicates, SortedSet(duplicates.Keys))| == |data|
  {
    var duplicates := Ch06Grouping.GroupBy(key, data);
    var keys := SortedSet(duplicates.Keys);
    SortedKeys(key, data);
    RankOutputItems(duplicates, keys, 0);
    RankEmitsEach(key, data);
    assert |Groups(duplicates, keys)| == |multiset(Groups(duplicates, keys))|;
  }

  // ---------------------------------------------------------------------------
  // Counting under a permutation and through a map

  /** How often each value occurs among the items a test keeps. */
  lemma {:induction false} FilterMultiset<T>(p: T -> bool, s: seq<T>, x: T)
    ensures multiset(Filter(p, s))[x] == if p(x) then multiset(s)[x] else 0
  {
    if |s| > 0 {
      FilterMultiset(p, s[1..], x);
      assert s == [s[0]] + s[1..];
    }
  }

  lemma MultisetExtensional<T>(m: multiset<T>, n: multiset<T>)
    requires forall x: T :: m[x] == n[x]
    ensures m == n
  {
  }

  lemma MultisetCancel<T>(m: multiset<T>, n: multiset<T>, x: T)
    requires m + multiset{x} == n + multiset{x}
    ensures m == n
  {
    forall y: T
      ensures m[y] == n[y]
    {
      assert (m + multiset{x})[y] == (n + multiset{x})[y];
    }
    MultisetExtensional(m, n);
  }

  /** A rearrangement keeps as many items as before. */
  lemma FilterPermutation<T>(p: T -> bool, a: seq<T>, b: seq<T>)
    requires multiset(a) == multiset(b)
    ensures |Filter(p, a)| == |Filter(p, b)|
  {
    forall x: T
      ensures multiset(Filter(p, a))[x] == multiset(Filter(p, b))[x]
    {
      FilterMultiset(p, a, x);
      FilterMultiset(p, b, x);
    }
    MultisetExtensional(multiset(Filter(p, a)), multiset(Filter(p, b)));
    assert |multiset(Filter(p, a))| == |multiset(Filter(p, b))|;
  }

  /** Testing a projection of each item keeps as many items as testing the projections. */
  lemma {:induction false} FilterMapCount<T, U>(p: U -> bool, q: T -> bool, f: T -> U, s: seq<T>)
    requires forall i :: 0 <= i < |s| ==> q(s[i]) == p(f(s[i]))
    ensures |Filter(q, s)| == |Filter(p, Map(f, s))|
  {
    if |s| > 0 {
      assert Map(f, s)[1..] == Map(f, s[1..]);
      FilterMapCount(p, q, f, s[1..]);
    }
  }

  /** Two tests that agree on every item keep the same items. */
  lemma {:induction false} FilterAgree<T>(p: T -> bool, q: T -> bool, s: seq<T>)
    requires forall i :: 0 <= i < |s| ==> p(s[i]) == q(s[i])
    ensures Filter(p, s) == Filter(q, s)
  {
    if |s| > 0 {
      FilterAgree(p, q, s[1..]);
    }
  }

  // ---------------------------------------------------------------------------
  // rank_y and rank_xy: wrapping instead of updating

  type Pair = Ch03Anscombe.Pair<real>

  /** `Ranked_Y(r_y, raw)`. */
  datatype RankedY = RankedY(ry: real, raw: Pair)

  /** `Ranked_XY(r_x, r_y, raw)`. */
  datatype RankedXY = RankedXY(rx: real, ry: real, raw: Pair)

  function PairX(p: Pair): real { p.x }

  function PairY(p: Pair): real { p.y }

  function ToRankedY(row: (real, Pair)): RankedY { RankedY(row.0, row.1) }

  function RawOfY(r: RankedY): Pair { r.raw }

  function RawX(r: RankedY): real { r.raw.x }

  /** `rank_xy` unpacks `(r_x, rank_y_raw)` and flattens it. */
  function ToRankedXY(row: (real, RankedY)): RankedXY { RankedXY(row.0, row.1.ry, row.1.raw) }

  function RawOfXY(r: RankedXY): Pair { r.raw }

  /** `rank_y(pairs)`: each pair wrapped with the rank of its y. */
  function RankY(pairs: seq<Pair>): seq<RankedY>
  {
    Map(ToRankedY, Rank(PairY, pairs))
  }

  /** `rank_xy(pairs)`: the y-ranked pairs ranked again by `raw.x`. */
  function RankXY(pairs: seq<Pair>): seq<RankedXY>
  {
    Map(ToRankedXY, Rank(RawX, RankY(pairs)))
  }

  /** The average rank of v among the given pairs, by one coordinate. */
  function RankAmong(coordinate: Pair -> real, pairs: seq<Pair>, v: real): real
  {
    MidRank(BelowCount(coordinate, pairs, v), EqualCount(coordinate, pairs, v))
  }

  /** `rank_y` leaves every pair unchanged, keeps each exactly once, and attaches its y rank. */
  lemma RankYSpec(pairs: seq<Pair>)
    ensures multiset(Map(RawOfY, RankY(pairs))) == multiset(pairs)
    ensures forall i :: 0 <= i < |RankY(pairs)| ==>
      RankY(pairs)[i].ry == RankAmong(PairY, pairs, RankY(pairs)[i].raw.y)
  {
    RankEmitsEach(PairY, pairs);
    RankIsMidRank(PairY, pairs);
    assert Map(RawOfY, RankY(pairs)) == Items(Rank(PairY, pairs));
  }

  /** The x counts over the y-ranked pairs are the x counts over the pairs themselves. */
  lemma RankYCounts(pairs: seq<Pair>, v: real)
    ensures BelowCount(RawX, RankY(pairs), v) == BelowCount(PairX, pairs, v)
    ensures EqualCount(RawX, RankY(pairs), v) == EqualCount(PairX, pairs, v)
  {
    var ys := RankY(pairs);
    RankYSpec(pairs);
    FilterMapCount(KeyBelow(PairX, v), KeyBelow(RawX, v), RawOfY, ys);
    forall i | 0 <= i < |ys|
      ensures Ch06Grouping.HasKey(RawX, v)(ys[i]) == Ch06Grouping.HasKey(PairX, v)(RawOfY(ys[i]))
    {
    }
    FilterMapCount(Ch06Grouping.HasKey(PairX, v), Ch06Grouping.HasKey(RawX, v), RawOfY, ys);
    FilterPermutation(KeyBelow(PairX, v), Map(RawOfY, ys), pairs);
    FilterPermutation(Ch06Grouping.HasKey(PairX, v), Map(RawOfY, ys), pairs);
  }

  /** `rank_xy` keeps each pair exactly once. */
  lemma RankXYRaw(pairs: seq<Pair>)
    ensures multiset(Map(RawOfXY, RankXY(pairs))) == multiset(pairs)
  {
    var ys := RankY(pairs);
    RankYSpec(pairs);
    RankEmitsEach(RawX, ys);
    assert Map(RawOfXY, RankXY(pairs)) == Map(RawOfY, Items(Rank(RawX, ys)));
    MapMultiset(RawOfY, Items(Rank(RawX, ys)), ys);
  }

  /** Mapping two rearrangements of each other gives rearrangements of each other. */
  lemma {:induction false} MapMultiset<T, U>(f: T -> U, a: seq<T>, b: seq<T>)
    requires multiset(a) == multiset(b)
    ensures multiset(Map(f, a)) == multiset(Map(f, b))
    decreases |a|
  {
    if |a| > 0 {
      assert a[0] in multiset(b);
      var j :| 0 <= j < |b| && b[j] == a[0];
      RemoveBoth(a, b, j);
      MapMultiset(f, a[1..], b[..j] + b[j + 1..]);
      MapRemoveBoth(f, a, b, j);
    } else {
      assert b == [];
    }
  }

  /** Taking the same item out of two rearrangements leaves rearrangements. */
  lemma RemoveBoth<T>(a: seq<T>, b: seq<T>, j: nat)
    requires multiset(a) == multiset(b) && |a| > 0 && j < |b| && b[j] == a[0]
    ensures multiset(a[1..]) == multiset(b[..j] + b[j + 1..])
  {
    var x := a[0];
    assert b == b[..j] + [x] + b[j + 1..];
    assert a == [x] + a[1..];
    assert multiset(a) == multiset(a[1..]) + multiset{x};
    assert multiset(b) == multiset(b[..j] + b[j + 1..]) + multiset{x};
    MultisetCancel(multiset(a[1..]), multiset(b[..j] + b[j + 1..]), x);
  }

  /** Putting the same item back into two mapped rearrangements keeps them rearrangements. */
  lemma MapRemoveBoth<T, U>(f: T -> U, a: seq<T>, b: seq<T>, j: nat)
    requires |a| > 0 && j < |b| && b[j] == a[0]
    requires multiset(Map(f, a[1..])) == multiset(Map(f, b[..j] + b[j + 1..]))
    ensures multiset(Map(f, a)) == multiset(Map(f, b))
  {
    assert Map(f, a) == [f(a[0])] + Map(f, a[1..]);
    assert Map(f, b) == Map(f, b[..j]) + [f(a[0])] + Map(f, b[j + 1..]);
    assert Map(f, b[..j] + b[j + 1..]) == Map(f, b[..j]) + Map(f, b[j + 1..]);
  }

  /** `rank_xy` attaches to every pair its x rank and keeps its y rank. */
  lemma RankXYSpec(pairs: seq<Pair>)
    ensures forall i :: 0 <= i < |RankXY(pairs)| ==>
      RankXY(pairs)[i].rx == RankAmong(PairX, pairs, RankXY(pairs)[i].raw.x) &&
      RankXY(pairs)[i].ry == RankAmong(PairY, pairs, RankXY(pairs)[i].raw.y)
  {
    var ys := RankY(pairs);
    var ranked := Rank(RawX, ys);
    RankYSpec(pairs);
    RankIsMidRank(RawX, ys);
    RankEmitsEach(RawX, ys);
    forall i | 0 <= i < |ranked|
      ensures ranked[i].0 == RankAmong(PairX, pairs, ranked[i].1.raw.x)
      ensures ranked[i].1.ry == RankAmong(PairY, pairs, ranked[i].1.raw.y)
    {
      RankYCounts(pairs, ranked[i].1.raw.x);
      assert Items(ranked)[i] == ranked[i].1;
      assert ranked[i].1 in multiset(ys);
    }
  }

  // ---------------------------------------------------------------------------
  // Spearman rank-order correlation

  function SquaredDifference(r: RankedXY): real { (r.rx - r.ry) * (r.rx - r.ry) }

  /** `sum((r.r_x - r.r_y)**2 for r in ranked)`. */
  function SumSquares(ranked: seq<RankedXY>): real
  {
    SumR(Map(SquaredDifference, ranked))
  }

  /** `1 - 6*sum_d_2/(n*(n**2 - 1))`; the division raises ZeroDivisionError when the denominator is 0. */
  function SpearmanOf(sumD2: real, n: nat): Outcome<real>
  {
    var denominator := n * (n * n - 1);
    if denominator == 0 then Raised(ZeroDivisionError)
    else Ok(1.0 - 6.0 * sumD2 / denominator as real)
  }

  /** `calc_spearman_corr(pairs)`. */
  function Spearman(pairs: seq<Pair>): Outcome<real>
  {
    SpearmanOf(SumSquares(RankXY(pairs)), |pairs|)
  }

  lemma Denominator(n: nat)
    ensures n * (n * n - 1) == 0 <==> n < 2
    ensures n >= 2 ==> n * (n * n - 1) > 0
  {
    if n >= 2 {
      Arith.MulLe(n, 2, n);
      Arith.MulAtLeastOne(n, n * n - 1);
    }
  }

  lemma SquareNonNegative(d: real)
    ensures d * d >= 0.0
  {
    if d < 0.0 {
      assert d * d == (-d) * (-d);
    }
  }

  lemma {:induction false} SumSquaresNonNegative(s: seq<RankedXY>)
    ensures SumSquares(s) >= 0.0
  {
    if |s| > 0 {
      var last := s[|s| - 1];
      SumSquaresNonNegative(s[..|s| - 1]);
      assert Map(SquaredDifference, s)[..|s| - 1] == Map(SquaredDifference, s[..|s| - 1]);
      SquareNonNegative(last.rx - last.ry);
    }
  }

  /** The formula divides by zero exactly for fewer than two pairs. */
  lemma SpearmanOfRaises(sumD2: real, n: nat)
    ensures SpearmanOf(sumD2, n) == Raised(ZeroDivisionError) <==> n < 2
    ensures n >= 2 ==> SpearmanOf(sumD2, n).Ok?
  {
    Denominator(n);
  }

  /** A sum of squares is never negative, so the coefficient is at most 1; a zero sum gives exactly 1. */
  lemma SpearmanOfBounds(sumD2: real, n: nat)
    requires sumD2 >= 0.0
    ensures SpearmanOf(sumD2, n).Ok? ==> SpearmanOf(sumD2, n).value <= 1.0
    ensures SpearmanOf(sumD2, n).Ok? && sumD2 == 0.0 ==> SpearmanOf(sumD2, n).value == 1.0
  {
    Denominator(n);
  }

  /** Fewer than two pairs make the denominator 0, so the division raises. */
  lemma SpearmanRaises(pairs: seq<Pair>)
    ensures Spearman(pairs) == Raised(ZeroDivisionError) <==> |pairs| < 2
  {
    SpearmanOfRaises(SumSquares(RankXY(pairs)), |pairs|);
  }

  /** The squared rank differences are never negative, so the coefficient is at most 1. */
  lemma SpearmanAtMostOne(pairs: seq<Pair>)
    ensures Spearman(pairs).Ok? ==> Spearman(pairs).value <= 1.0
  {
    SumSquaresNonNegative(RankXY(pairs));
    SpearmanOfBounds(SumSquares(RankXY(pairs)), |pairs|);
  }

  /** Ranking by two coordinates that agree on every pair gives the same ranks. */
  lemma RankAmongAgree(pairs: seq<Pair>, v: real)
    requires forall i :: 0 <= i < |pairs| ==> pairs[i].x == pairs[i].y
    ensures RankAmong(PairX, pairs, v) == RankAmong(PairY, pairs, v)
  {
    FilterAgree(KeyBelow(PairX, v), KeyBelow(PairY, v), pairs);
    FilterAgree(Ch06Grouping.HasKey(PairX, v), Ch06Grouping.HasKey(PairY, v), pairs);
  }

  /** Sums of zeros. */
  lemma {:induction false} SumSquaresZero(s: seq<RankedXY>)
    requires forall i :: 0 <= i < |s| ==> s[i].rx == s[i].ry
    ensures SumSquares(s) == 0.0
  {
    if |s| > 0 {
      SumSquaresZero(s[..|s| - 1]);
      assert Map(SquaredDifference, s)[..|s| - 1] == Map(SquaredDifference, s[..|s| - 1]);
    }
  }

  /** When every pair has x == y the two rankings agree and the coefficient is exactly 1. */
  lemma SpearmanIdentical(pairs: seq<Pair>)
    requires |pairs| >= 2
    requires forall i :: 0 <= i < |pairs| ==> pairs[i].x == pairs[i].y
    ensures Spearman(pairs) == Ok(1.0)
  {
    var ranked := RankXY(pairs);
    RankXYSpec(pairs);
    RankXYRaw(pairs);
    forall i | 0 <= i < |ranked|
      ensures ranked[i].rx == ranked[i].ry
    {
      assert Map(RawOfXY, ranked)[i] == ranked[i].raw;
      assert ranked[i].raw in multiset(pairs);
      RankAmongAgree(pairs, ranked[i].raw.x);
    }
    SumSquaresZero(ranked);
    SpearmanOfRaises(0.0, |pairs|);
    SpearmanOfBounds(0.0, |pairs|);
  }

  /** A filter over five items, one item at a time. */
  lemma FilterFive<T>(p: T -> bool, s: seq<T>)
    requires |s| == 5
    ensures |Filter(p, s)| == (if p(s[0]) then 1 else 0) + (if p(s[1]) then 1 else 0) + (if p(s[2]) then 1 else 0)
                            + (if p(s[3]) then 1 else 0) + (if p(s[4]) then 1 else 0)
  {
    assert s == [s[0]] + ([s[1]] + ([s[2]] + ([s[3]] + [s[4]])));
    FilterAppend(p, [s[0]], [s[1]] + ([s[2]] + ([s[3]] + [s[4]])));
    FilterAppend(p, [s[1]], [s[2]] + ([s[3]] + [s[4]]));
    FilterAppend(p, [s[2]], [s[3]] + [s[4]]);
    FilterAppend(p, [s[3]], [s[4]]);
    FilterSingle(p, s[0]);
    FilterSingle(p, s[1]);
    FilterSingle(p, s[2]);
    FilterSingle(p, s[3]);
    FilterSingle(p, s[4]);
  }

  /** The chapter's sample `((2, 0.8), (3, 1.2), (5, 1.2), (7, 2.3), (11, 18))`. */
  function Sample(): seq<Pair>
  {
    [Ch03Anscombe.Pair(2.0, 0.8), Ch03Anscombe.Pair(3.0, 1.2), Ch03Anscombe.Pair(5.0, 1.2),
     Ch03Anscombe.Pair(7.0, 2.3), Ch03Anscombe.Pair(11.0, 18.0)]
  }

  /**
   * By RankYSpec, the y ranks of the sample: 0.8 comes first, and 1.2 is
   * tied in positions 2 and 3 and gets 2.5.
   */
  lemma RankYExample()
    ensures RankAmong(PairY, Sample(), 0.8) == 1.0
    ensures RankAmong(PairY, Sample(), 1.2) == 2.5
  {
    var s := Sample();
    assert PairY(s[0]) == 0.8 && PairY(s[1]) == 1.2 && PairY(s[2]) == 1.2;
    assert PairY(s[3]) == 2.3 && PairY(s[4]) == 18.0;
    FilterFive(KeyBelow(PairY, 0.8), s);
    FilterFive(Ch06Grouping.HasKey(PairY, 0.8), s);
    FilterFive(KeyBelow(PairY, 1.2), s);
    FilterFive(Ch06Grouping.HasKey(PairY, 1.2), s);
    assert BelowCount(PairY, s, 0.8) == 0;
    assert EqualCount(PairY, s, 0.8) == 1;
    assert BelowCount(PairY, s, 1.2) == 1;
    assert EqualCount(PairY, s, 1.2) == 2;
  }
}
