/**
 * Chapter 3: two immutable mappings.  `convert_to_dict` builds a dictionary
 * from colour names to colours; `StaticMapping` keeps the (key, value) pairs
 * in a tuple beside a sorted tuple of their keys and looks a key up by
 * bisection.
 */
module Ch03StaticMapping {
  import opened Py
  import opened Sorting

  /** The `Color` named tuple. */
  datatype Color = Color(red: int, green: int, blue: int, name: string)

  /** No colour after position i has the same name as the one at i. */
  predicate LastWithName(colors: seq<Color>, i: int)
    requires 0 <= i < |colors|
  {
    forall j :: i < j < |colors| ==> colors[j].name != colors[i].name
  }

  /**
   * `convert_to_dict`: a dictionary from each colour's name to the colour,
   * built in order, so that a later colour overwrites an earlier one of the
   * same name.
   */
  function ConvertToDict(colors: seq<Color>): map<string, Color>
  {
    if |colors| == 0 then map[]
    else
      var last := colors[|colors| - 1];
      ConvertToDict(colors[..|colors| - 1])[last.name := last]
  }

  /** The keys of the dictionary are exactly the names. */
  lemma {:induction false} ConvertToDictKeys(colors: seq<Color>)
    ensures ConvertToDict(colors).Keys == set i | 0 <= i < |colors| :: colors[i].name
  {
    if |colors| > 0 {
      var front := colors[..|colors| - 1];
      var last := colors[|colors| - 1];
      ConvertToDictKeys(front);
      assert forall i :: 0 <= i < |front| ==> front[i] == colors[i];
      assert (set i | 0 <= i < |colors| :: colors[i].name)
          == (set i | 0 <= i < |front| :: front[i].name) + {last.name};
    }
  }

  /** Every name maps to a colour of that name. */
  lemma {:induction false} ConvertToDictNames(colors: seq<Color>)
    ensures forall k :: k in ConvertToDict(colors) ==> ConvertToDict(colors)[k].name == k
  {
    if |colors| > 0 {
      ConvertToDictNames(colors[..|colors| - 1]);
    }
  }

  /** The colour kept under a name is the last one with that name. */
  lemma {:induction false} ConvertToDictLast(colors: seq<Color>)
    ensures forall i :: 0 <= i < |colors| && LastWithName(colors, i) ==>
      colors[i].name in ConvertToDict(colors) && ConvertToDict(colors)[colors[i].name] == colors[i]
  {
    if |colors| > 0 {
      var front := colors[..|colors| - 1];
      ConvertToDictLast(front);
      forall i | 0 <= i < |colors| && LastWithName(colors, i)
        ensures colors[i].name in ConvertToDict(colors) && ConvertToDict(colors)[colors[i].name] == colors[i]
      {
        if i < |colors| - 1 {
          assert front[i] == colors[i];
          assert LastWithName(front, i);
        }
      }
    }
  }

  /**
   * The keys are exactly the names, every name maps to a colour of that
   * name, and the colour kept is the last one with the name.
   */
  lemma ConvertToDictSpec(colors: seq<Color>)
    ensures ConvertToDict(colors).Keys == set i | 0 <= i < |colors| :: colors[i].name
    ensures forall k :: k in ConvertToDict(colors) ==> ConvertToDict(colors)[k].name == k
    ensures forall i :: 0 <= i < |colors| && LastWithName(colors, i) ==>
      colors[i].name in ConvertToDict(colors) && ConvertToDict(colors)[colors[i].name] == colors[i]
  {
    ConvertToDictKeys(colors);
    ConvertToDictNames(colors);
    ConvertToDictLast(colors);
  }

  /** A repeated name keeps only the later colour. */
  lemma ConvertToDictLaterWins(a: Color, b: Color)
    requires a.name == b.name
    ensures ConvertToDict([a, b]) == map[a.name := b]
  {
    assert [a, b][..1] == [a];
    assert ConvertToDict([a]) == map[a.name := a];
  }

  // ---------------------------------------------------------------------------
  // StaticMapping

  /** A `StaticMapping` over integer keys; `data` is the tuple of the pairs as given. */
  datatype StaticMapping<V> = StaticMapping(data: seq<(int, V)>)

  function KeyOf<V>(p: (int, V)): int { p.0 }

  function IntKey(k: int): real { k as real }

  function PairKey<V>(p: (int, V)): real { p.0 as real }

  /** The `_keys` tuple built by `__init__`: the keys of the pairs, sorted. */
  function SortedKeys<V>(m: StaticMapping<V>): (keys: seq<int>)
    ensures |keys| == |m.data|
    ensures multiset(keys) == multiset(Map(KeyOf, m.data))
    ensures forall i, j :: 0 <= i < j < |keys| ==> keys[i] <= keys[j]
  {
    var keys := SortBy(Map(KeyOf, m.data), IntKey);
    assert forall i, j :: 0 <= i < j < |keys| ==> IntKey(keys[i]) <= IntKey(keys[j]);
    keys
  }

  /** `__iter__`: the keys in ascending order. */
  function Iter<V>(m: StaticMapping<V>): (r: seq<int>)
    ensures forall i, j :: 0 <= i < j < |r| ==> r[i] <= r[j]
    ensures forall k :: k in r <==> exists i :: 0 <= i < |m.data| && m.data[i].0 == k
  {
    var r := SortedKeys(m);
    assert forall k :: k in r <==> k in multiset(Map(KeyOf, m.data));
    r
  }

  /** `__len__`: the number of pairs given, duplicates included. */
  function Len<V>(m: StaticMapping<V>): (n: nat)
    ensures n == |m.data|
  {
    |SortedKeys(m)|
  }

  /** The leftmost position i with a[i] >= x, or |a| when there is none. */
  function LowerBound(a: seq<int>, x: int): (i: nat)
    ensures i <= |a|
    ensures forall j :: 0 <= j < i ==> a[j] < x
    ensures i < |a| ==> a[i] >= x
  {
    if |a| == 0 then 0
    else if a[0] >= x then 0
    else 1 + LowerBound(a[1..], x)
  }

  /** `bisect_left`: binary search for the lower bound in an ascending sequence. */
  method BisectLeft(a: seq<int>, x: int) returns (lo: nat)
    requires forall i, j :: 0 <= i < j < |a| ==> a[i] <= a[j]
    ensures lo == LowerBound(a, x)
  {
    lo := 0;
    var hi := |a|;
    while lo < hi
      invariant 0 <= lo <= hi <= |a|
      invariant forall j :: 0 <= j < lo ==> a[j] < x
      invariant forall j :: hi <= j < |a| ==> a[j] >= x
      decreases hi - lo
    {
      var mid := (lo + hi) / 2;
      if a[mid] < x {
        lo := mid + 1;
      } else {
        hi := mid;
      }
    }
    LowerBoundUnique(a, x, lo);
  }

  /** The lower bound is the only position with everything before it below x and nothing at it below x. */
  lemma LowerBoundUnique(a: seq<int>, x: int, i: int)
    requires 0 <= i <= |a|
    requires forall j :: 0 <= j < i ==> a[j] < x
    requires i < |a| ==> a[i] >= x
    ensures i == LowerBound(a, x)
  {
  }

  /** In an ascending sequence that holds x, the lower bound is a position of x. */
  lemma LowerBoundFinds(a: seq<int>, x: int)
    requires forall i, j :: 0 <= i < j < |a| ==> a[i] <= a[j]
    ensures x in a <==> LowerBound(a, x) < |a| && a[LowerBound(a, x)] == x
  {
    if x in a {
      var j :| 0 <= j < |a| && a[j] == x;
      assert LowerBound(a, x) <= j;
    }
  }

  /**
   * `__getitem__`: the bisect-left position in the sorted keys, used as an
   * index into the pairs in the order they were given; `ValueError` when the
   * key is absent.
   */
  function GetItem<V>(m: StaticMapping<V>, key: int): (r: Outcome<V>)
    ensures r.Ok? <==> exists i :: 0 <= i < |m.data| && m.data[i].0 == key
    ensures r.Raised? ==> r.exc == ValueError
  {
    var keys := SortedKeys(m);
    var index := LowerBound(keys, key);
    LowerBoundFinds(keys, key);
    assert key in keys <==> key in multiset(Map(KeyOf, m.data));
    if index != |keys| && keys[index] == key then Ok(m.data[index].1)
    else Raised(ValueError)
  }

  /** The position of the first pair with key k, in the order given: what a lookup of k is meant to find. */
  function FirstIndexWithKey<V>(data: seq<(int, V)>, k: int): (i: nat)
    requires exists i :: 0 <= i < |data| && data[i].0 == k
    ensures i < |data| && data[i].0 == k
    ensures forall j :: 0 <= j < i ==> data[j].0 != k
  {
    if data[0].0 == k then 0
    else
      assert exists i :: 0 <= i < |data[1..]| && data[1..][i].0 == k by {
        var i :| 0 <= i < |data| && data[i].0 == k;
        assert data[1..][i - 1].0 == k;
      }
      1 + FirstIndexWithKey(data[1..], k)
  }

  /** The keys 2 and 1, given in that order, sort to 1, 2. */
  lemma SortedKeysExample()
    ensures SortedKeys(StaticMapping([(2, "b"), (1, "a")])) == [1, 2]
  {
    assert Map(KeyOf, [(2, "b"), (1, "a")]) == [2, 1];
    assert SortBy([2], IntKey) == [2] by {
      assert [2][..0] == [];
      assert SortBy([2], IntKey) == Insert([], 2, IntKey);
    }
    assert Insert([2], 1, IntKey) == [1, 2] by {
      assert [2][..0] == [];
      assert Insert([2], 1, IntKey) == Insert([], 1, IntKey) + [2];
    }
    assert [2, 1][..1] == [2];
  }

  /**
   * The lookup as the source writes it picks a value from the unsorted pairs:
   * keys 2 and 1 given in that order, a lookup of 1 finds the value stored
   * under 2.
   */
  lemma GetItemUnsortedQuirk()
    ensures GetItem(StaticMapping([(2, "b"), (1, "a")]), 1) == Ok("b")
    ensures FirstIndexWithKey([(2, "b"), (1, "a")], 1) == 1
  {
    SortedKeysExample();
    assert LowerBound([1, 2], 1) == 0;
  }

  /** The evidently intended `__init__`: the pairs themselves sorted by key (stably), and their keys. */
  function SortedData<V>(m: StaticMapping<V>): (data: seq<(int, V)>)
    ensures multiset(data) == multiset(m.data)
    ensures forall i, j :: 0 <= i < j < |data| ==> data[i].0 <= data[j].0
  {
    var data := SortBy(m.data, PairKey);
    assert forall i, j :: 0 <= i < j < |data| ==> PairKey(data[i]) <= PairKey(data[j]);
    data
  }

  /** The evidently intended `__getitem__`: the bisect-left position indexes the sorted pairs. */
  function GetItemSorted<V>(m: StaticMapping<V>, key: int): Outcome<V>
  {
    var data := SortedData(m);
    var keys := Map(KeyOf, data);
    var index := LowerBound(keys, key);
    if index != |keys| && keys[index] == key then Ok(data[index].1)
    else Raised(ValueError)
  }

  /** In a key-sorted sequence, the first pair with key k sits at the lower bound of k. */
  lemma {:induction false} FirstAtLowerBound<V>(data: seq<(int, V)>, k: int)
    requires forall i, j :: 0 <= i < j < |data| ==> data[i].0 <= data[j].0
    requires exists i :: 0 <= i < |data| && data[i].0 == k
    ensures LowerBound(Map(KeyOf, data), k) < |data|
    ensures LowerBound(Map(KeyOf, data), k) == FirstIndexWithKey(data, k)
  {
    var keys := Map(KeyOf, data);
    var fi := FirstIndexWithKey(data, k);
    assert keys[fi] == k;
    LowerBoundUnique(keys, k, fi);
  }

  /** The first pair with key k is the head of the pairs filtered by key k. */
  lemma {:induction false} FirstWithKeyFilter<V>(data: seq<(int, V)>, k: int)
    requires exists i :: 0 <= i < |data| && data[i].0 == k
    ensures |Filter(KeyIs(PairKey, k as real), data)| > 0
    ensures Filter(KeyIs(PairKey, k as real), data)[0] == data[FirstIndexWithKey(data, k)]
  {
    KeyIsApply(PairKey, k as real, data[0]);
    if data[0].0 != k {
      assert exists i :: 0 <= i < |data[1..]| && data[1..][i].0 == k by {
        var i :| 0 <= i < |data| && data[i].0 == k;
        assert data[1..][i - 1].0 == k;
      }
      FirstWithKeyFilter(data[1..], k);
    }
  }

  /** Two sequences with the same pairs hold the same keys. */
  lemma SameKeys<V>(a: seq<(int, V)>, b: seq<(int, V)>, k: int)
    requires multiset(a) == multiset(b)
    ensures (exists i :: 0 <= i < |a| && a[i].0 == k) <==> (exists i :: 0 <= i < |b| && b[i].0 == k)
  {
    if exists i :: 0 <= i < |a| && a[i].0 == k {
      var i :| 0 <= i < |a| && a[i].0 == k;
      assert a[i] in multiset(b);
    }
    if exists i :: 0 <= i < |b| && b[i].0 == k {
      var i :| 0 <= i < |b| && b[i].0 == k;
      assert b[i] in multiset(a);
    }
  }

  /** The lookup in the sorted pairs succeeds exactly when some pair has the key. */
  lemma GetItemSortedPresent<V>(m: StaticMapping<V>, key: int)
    ensures GetItemSorted(m, key).Ok? <==> exists i :: 0 <= i < |m.data| && m.data[i].0 == key
  {
    var data := SortedData(m);
    var keys := Map(KeyOf, data);
    LowerBoundFinds(keys, key);
    SameKeys(data, m.data, key);
    assert (exists i :: 0 <= i < |data| && data[i].0 == key) <==> key in keys;
  }

  /**
   * The corrected lookup finds exactly the first pair with the key in the
   * order given, and raises `ValueError` exactly when the key is absent.
   */
  lemma GetItemSortedCorrect<V>(m: StaticMapping<V>, key: int)
    ensures GetItemSorted(m, key).Ok? <==> exists i :: 0 <= i < |m.data| && m.data[i].0 == key
    ensures GetItemSorted(m, key).Raised? ==> GetItemSorted(m, key).exc == ValueError
    ensures GetItemSorted(m, key).Ok? ==> GetItemSorted(m, key).value == m.data[FirstIndexWithKey(m.data, key)].1
  {
    GetItemSortedPresent(m, key);
    if GetItemSorted(m, key).Ok? {
      var data := SortedData(m);
      SameKeys(data, m.data, key);
      FirstAtLowerBound(data, key);
      FirstWithKeyFilter(data, key);
      FirstWithKeyFilter(m.data, key);
      SortByStable(m.data, PairKey, key as real);
    }
  }

  /** On pairs already sorted by key, the lookup as written and the corrected one agree. */
  lemma GetItemAgreesOnSortedInput<V>(m: StaticMapping<V>, key: int)
    requires forall i, j :: 0 <= i < j < |m.data| ==> m.data[i].0 <= m.data[j].0
    ensures GetItem(m, key) == GetItemSorted(m, key)
  {
    SortBySorted(m.data, PairKey);
    assert SortedBy(Map(KeyOf, m.data), IntKey);
    SortBySorted(Map(KeyOf, m.data), IntKey);
  }
}
