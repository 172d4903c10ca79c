/**
 * Python's `sorted(s, key=...)` on numeric keys: a stable sort, modelled as
 * insertion from the back.  Also the ascending, duplicate-free list of keys
 * that `sorted(d)` gives for a dictionary built from a sequence.
 */
module Sorting {
  import opened Py

  predicate SortedBy<T>(s: seq<T>, key: T -> real)
  {
    forall i, j :: 0 <= i < j < |s| ==> key(s[i]) <= key(s[j])
  }

  predicate StrictlyAscending(s: seq<real>)
  {
    forall i, j :: 0 <= i < j < |s| ==> s[i] < s[j]
  }

  /** The elements whose key is `v`. */
  function KeyIs<T>(key: T -> real, v: real): T -> bool
  {
    x => key(x) == v
  }

  /** Inserts `x` after every element whose key is at most its own. */
  function Insert<T>(r: seq<T>, x: T, key: T -> real): (out: seq<T>)
    ensures |out| == |r| + 1
  {
    if |r| == 0 then [x]
    else
      var last := r[|r| - 1];
      var front := r[..|r| - 1];
      if key(last) <= key(x) then r + [x]
      else Insert(front, x, key) + [last]
  }

  /** Inserting adds exactly `x` to the elements. */
  lemma {:induction false} InsertPerm<T>(r: seq<T>, x: T, key: T -> real)
    ensures multiset(Insert(r, x, key)) == multiset(r) + multiset{x}
  {
    if |r| > 0 {
      var front := r[..|r| - 1];
      assert r == front + [r[|r| - 1]];
      if key(r[|r| - 1]) > key(x) {
        InsertPerm(front, x, key);
      }
    }
  }

  /** Inserting into a sorted sequence keeps it sorted. */
  lemma {:induction false} InsertSorted<T>(r: seq<T>, x: T, key: T -> real)
    requires SortedBy(r, key)
    ensures SortedBy(Insert(r, x, key), key)
  {
    if |r| > 0 {
      var last := r[|r| - 1];
      var front := r[..|r| - 1];
      if key(last) > key(x) {
        assert SortedBy(front, key);
        InsertSorted(front, x, key);
        InsertPerm(front, x, key);
        var ins := Insert(front, x, key);
        forall i | 0 <= i < |ins|
          ensures key(ins[i]) <= key(last)
        {
          assert ins[i] in multiset(ins);
          if ins[i] != x {
            assert ins[i] in multiset(front);
          }
        }
        assert Insert(r, x, key) == ins + [last];
      }
    }
  }

  /** `sorted(s, key=key)`. */
  function SortBy<T>(s: seq<T>, key: T -> real): (r: seq<T>)
    ensures |r| == |s|
    ensures multiset(r) == multiset(s)
    ensures SortedBy(r, key)
  {
    if |s| == 0 then []
    else
      assert s == s[..|s| - 1] + [s[|s| - 1]];
      var front := SortBy(s[..|s| - 1], key);
      InsertSorted(front, s[|s| - 1], key);
      InsertPerm(front, s[|s| - 1], key);
      Insert(front, s[|s| - 1], key)
  }

  lemma KeyIsApply<T>(key: T -> real, v: real, x: T)
    ensures KeyIs(key, v)(x) == (key(x) == v)
  {
  }

  lemma {:induction false} InsertStable<T>(r: seq<T>, x: T, key: T -> real, v: real)
    requires SortedBy(r, key)
    ensures Filter(KeyIs(key, v), Insert(r, x, key))
         == Filter(KeyIs(key, v), r) + (if key(x) == v then [x] else [])
  {
    var p := KeyIs(key, v);
    KeyIsApply(key, v, x);
    FilterSingle(p, x);
    if |r| == 0 {
      assert Insert(r, x, key) == [x];
      assert Filter(p, r) == [];
    } else if key(r[|r| - 1]) <= key(x) {
      assert Insert(r, x, key) == r + [x];
      FilterAppend(p, r, [x]);
    } else {
      var front := r[..|r| - 1];
      assert SortedBy(front, key);
      InsertStable(front, x, key, v);
      InsertStableShift(r, x, key, v);
    }
  }

  /** The step of `InsertStable` where `x` goes in front of the last element. */
  lemma InsertStableShift<T>(r: seq<T>, x: T, key: T -> real, v: real)
    requires |r| > 0 && key(r[|r| - 1]) > key(x)
    requires Filter(KeyIs(key, v), Insert(r[..|r| - 1], x, key))
          == Filter(KeyIs(key, v), r[..|r| - 1]) + (if key(x) == v then [x] else [])
    ensures Filter(KeyIs(key, v), Insert(r, x, key))
         == Filter(KeyIs(key, v), r) + (if key(x) == v then [x] else [])
  {
    var p := KeyIs(key, v);
    var last := r[|r| - 1];
    var front := r[..|r| - 1];
    var tx := if key(x) == v then [x] else [];
    var tl := if key(last) == v then [last] else [];
    assert Filter(p, [last]) == tl by {
      KeyIsApply(key, v, last);
      FilterSingle(p, last);
    }
    assert r == front + [last];
    calc {
      Filter(p, Insert(r, x, key));
      Filter(p, Insert(front, x, key) + [last]);
      { FilterShift(p, Insert(front, x, key), front, last, tx, tl); }
      Filter(p, front + [last]) + tx;
    }
  }

  lemma FilterShift<T>(p: T -> bool, ins: seq<T>, front: seq<T>, last: T, tx: seq<T>, tl: seq<T>)
    requires Filter(p, ins) == Filter(p, front) + tx
    requires Filter(p, [last]) == tl && (tx == [] || tl == [])
    ensures Filter(p, ins + [last]) == Filter(p, front + [last]) + tx
  {
    FilterAppend(p, ins, [last]);
    FilterAppend(p, front, [last]);
    SwapEmpty(Filter(p, front), tx, tl);
  }

  lemma SwapEmpty<T>(a: seq<T>, b: seq<T>, c: seq<T>)
    requires b == [] || c == []
    ensures (a + b) + c == (a + c) + b
  {
  }

  /** `sorted` is stable: elements with equal keys keep their original order. */
  lemma {:induction false} SortByStable<T>(s: seq<T>, key: T -> real, v: real)
    ensures Filter(KeyIs(key, v), SortBy(s, key)) == Filter(KeyIs(key, v), s)
  {
    var p := KeyIs(key, v);
    if |s| == 0 {
      assert SortBy(s, key) == [];
    } else {
      var front := s[..|s| - 1];
      var last := s[|s| - 1];
      var tail := if key(last) == v then [last] else [];
      calc {
        Filter(p, SortBy(s, key));
        Filter(p, Insert(SortBy(front, key), last, key));
        { InsertStable(SortBy(front, key), last, key, v); }
        Filter(p, SortBy(front, key)) + tail;
        { SortByStable(front, key, v); }
        Filter(p, front) + tail;
        { KeyIsApply(key, v, last); FilterSingle(p, last); }
        Filter(p, front) + Filter(p, [last]);
        { FilterAppend(p, front, [last]); }
        Filter(p, front + [last]);
        { assert s == front + [last]; }
        Filter(p, s);
      }
    }
  }

  /** Sorting a sequence that is already in order changes nothing. */
  lemma {:induction false} SortBySorted<T>(s: seq<T>, key: T -> real)
    requires SortedBy(s, key)
    ensures SortBy(s, key) == s
  {
    if |s| > 0 {
      var front := s[..|s| - 1];
      assert SortedBy(front, key);
      SortBySorted(front, key);
      assert s == front + [s[|s| - 1]];
    }
  }

  /** Drops adjacent repeats. */
  function Dedup(s: seq<real>): (r: seq<real>)
    ensures forall x :: x in r <==> x in s
    ensures |s| > 0 ==> |r| > 0 && r[0] == s[0]
    ensures SortedBy(s, x => x) ==> StrictlyAscending(r)
  {
    if |s| <= 1 then s
    else if s[0] == s[1] then
      assert s == [s[0]] + s[1..];
      Dedup(s[1..])
    else
      var rest := Dedup(s[1..]);
      assert s == [s[0]] + s[1..];
      assert SortedBy(s, x => x) ==> forall i :: 0 <= i < |rest| ==> s[0] < rest[i];
      [s[0]] + rest
  }

  /** `sorted(set(xs))`: the distinct values of `xs`, ascending. */
  function SortedDistinct(xs: seq<real>): (r: seq<real>)
    ensures StrictlyAscending(r)
    ensures forall x :: x in r <==> x in xs
  {
    var sorted := SortBy(xs, x => x);
    assert forall x :: x in sorted <==> x in multiset(sorted);
    Dedup(sorted)
  }

  lemma ElementOf(s: set<real>)
    requires s != {}
    ensures exists x :: x in s
  {
    if forall x :: x !in s {
      assert false;
    }
  }

  lemma {:induction false} MinExists(s: set<real>)
    requires s != {}
    ensures exists m :: m in s && forall y :: y in s ==> m <= y
    decreases |s|
  {
    ElementOf(s);
    var x :| x in s;
    if s != {x} {
      MinExists(s - {x});
      var m :| m in s - {x} && forall y :: y in s - {x} ==> m <= y;
      var lo := if x < m then x else m;
      forall y | y in s
        ensures lo <= y
      {
        if y != x {
          assert y in s - {x};
        }
      }
    } else {
      assert forall y :: y in s ==> x <= y;
    }
  }

  /** `sorted(d)` for a dictionary with numeric keys: its keys, ascending. */
  function SortedSet(s: set<real>): (r: seq<real>)
    ensures StrictlyAscending(r)
    ensures forall x :: x in r <==> x in s
    decreases |s|
  {
    if s == {} then []
    else
      MinExists(s);
      var m :| m in s && forall y :: y in s ==> m <= y;
      [m] + SortedSet(s - {m})
  }
}
