/**
 * Chapter 8, the infinite iterators: `enumerate` built from `count`, the
 * recursive `iterate_until_condition`, choosers built from `cycle` and
 * `repeat`, the multiples-of-3-or-5 sum driven by two cycles, and the
 * nested `repeat` structures `squares1` and `squares2`.
 *
 * An infinite iterator is modelled by its first n items: every consumer
 * here is a `zip` with a finite sequence, which stops after that many.
 */
module Ch08Iterators {
  import opened Py
  import Ch01Sums
  import Ch05Generators
  import Arith
  import Ch04Structure

  // ---------------------------------------------------------------------------
  // count() and enumerate()

  /** The first n values of `count(start)`. */
  function Count(start: int, n: nat): (r: seq<int>)
    ensures |r| == n
    ensures forall i :: 0 <= i < n ==> r[i] == start + i
    decreases n
  {
    if n == 0 then [] else [start] + Count(start + 1, n - 1)
  }

  /** `enumerate(x, start)` as `zip(count(start), x)`. */
  function Enumerate<T>(x: seq<T>, start: int): seq<(int, T)>
  {
    Zip(Count(start, |x|), x)
  }

  /** Item i of `enumerate(x, start)` is (start + i, x[i]), and nothing is dropped. */
  lemma EnumerateSpec<T>(x: seq<T>, start: int)
    ensures |Enumerate(x, start)| == |x|
    ensures forall i :: 0 <= i < |x| ==> Enumerate(x, start)[i] == (start + i, x[i])
  {
  }

  function Second<A, B>(p: (A, B)): B { p.1 }

  /** Dropping the counters from `enumerate(x, start)` gives back x. */
  lemma EnumerateValues<T>(x: seq<T>, start: int)
    ensures Map(Second, Enumerate(x, start)) == x
  {
    EnumerateSpec(x, start);
  }

  /** `zip(count(), it)` and `enumerate(it)` are the same pairs as `zip(range(len(it)), it)`. */
  lemma EnumerateDefault<T>(x: seq<T>)
    ensures Enumerate(x, 0) == Zip(Range(0, |x|), x)
  {
    assert Count(0, |x|) == Range(0, |x|);
  }

  /** Built from `count`, `enumerate` agrees with the built-in one counting from start. */
  lemma EnumerateIsBuiltin<T>(x: seq<T>, start: int)
    ensures Enumerate(x, start) == Ch04Structure.EnumerateFrom(x, start)
  {
    Ch04Structure.EnumerateFromIndex(x, start);
  }

  // ---------------------------------------------------------------------------
  // iterate_until_condition()

  /**
   * `iterate_until_condition(function, iterator)`: takes items until one
   * passes; an exhausted iterator lets `next` raise StopIteration.  The
   * source applies `function(*i)` to a tuple; here the predicate takes the
   * item itself.
   */
  function IterateUntilCondition<T>(cond: T -> bool, items: seq<T>): Outcome<T>
  {
    if |items| == 0 then Raised(StopIteration)
    else if cond(items[0]) then Ok(items[0])
    else IterateUntilCondition(cond, items[1..])
  }

  /** The recursion is Chapter 5's `first`, with StopIteration in place of None. */
  lemma {:induction false} IterateUntilIsFirst<T>(cond: T -> bool, items: seq<T>)
    ensures IterateUntilCondition(cond, items)
         == match Ch05Generators.First(cond, items)
            case None => Raised(StopIteration)
            case Some(x) => Ok(x)
  {
    if |items| > 0 && !cond(items[0]) {
      IterateUntilIsFirst(cond, items[1..]);
    }
  }

  /** It returns the earliest item that passes, and raises StopIteration when none does. */
  lemma IterateUntilSpec<T>(cond: T -> bool, items: seq<T>)
    ensures IterateUntilCondition(cond, items) == Raised(StopIteration)
        <==> forall i :: 0 <= i < |items| ==> !cond(items[i])
    ensures IterateUntilCondition(cond, items).Ok? ==>
              exists i :: 0 <= i < |items| && IterateUntilCondition(cond, items).value == items[i]
                          && cond(items[i]) && forall j :: 0 <= j < i ==> !cond(items[j])
  {
    IterateUntilIsFirst(cond, items);
    Ch05Generators.FirstSpec(cond, items);
  }

  // ---------------------------------------------------------------------------
  // cycle() and repeat()

  /**
   * The next n items of `cycle(saved)` when the cycle stands at position p
   * of its saved items; a cycle over nothing yields nothing.
   */
  function CycleFrom<T>(saved: seq<T>, p: nat, n: nat): seq<T>
    requires p < |saved| || |saved| == 0
    decreases n
  {
    if n == 0 || |saved| == 0 then []
    else [saved[p]] + CycleFrom(saved, if p + 1 == |saved| then 0 else p + 1, n - 1)
  }

  /** The first n items of `cycle(saved)`. */
  function Cycle<T>(saved: seq<T>, n: nat): seq<T>
  {
    CycleFrom(saved, 0, n)
  }

  /** Item i of the cycle from position p is saved[(p + i) mod |saved|]. */
  lemma {:induction false} CycleFromIndex<T>(saved: seq<T>, p: nat, n: nat)
    requires p < |saved|
    ensures |CycleFrom(saved, p, n)| == n
    ensures forall i :: 0 <= i < n ==> CycleFrom(saved, p, n)[i] == saved[(p + i) % |saved|]
    decreases n
  {
    if n > 0 {
      var q := if p + 1 == |saved| then 0 else p + 1;
      CycleFromIndex(saved, q, n - 1);
      var c := CycleFrom(saved, p, n);
      forall i | 0 <= i < n
        ensures c[i] == saved[(p + i) % |saved|]
      {
        if i == 0 {
          Arith.DivSmall(p, |saved|);
        } else {
          assert c[i] == saved[(q + (i - 1)) % |saved|];
          if p + 1 == |saved| {
            Arith.DivSub(p + i, |saved|);
          }
        }
      }
    }
  }

  /** `cycle(saved)` repeats saved without end: item i is saved[i mod |saved|]. */
  lemma CycleIndex<T>(saved: seq<T>, n: nat)
    requires |saved| > 0
    ensures |Cycle(saved, n)| == n
    ensures forall i :: 0 <= i < n ==> Cycle(saved, n)[i] == saved[i % |saved|]
  {
    CycleFromIndex(saved, 0, n);
  }

  /** `x == 0`, the test every chooser applies. */
  predicate IsZero(x: int) { x == 0 }

  /** The first n flags of `(i == 0 for i in cycle(range(k)))`. */
  function Chooser(k: int, n: nat): seq<bool>
  {
    Map(IsZero, Cycle(Range(0, k), n))
  }

  /** The cycle chooser is true exactly at the positions divisible by k. */
  lemma ChooserSpec(k: int, n: nat)
    requires k > 0
    ensures |Chooser(k, n)| == n
    ensures forall i :: 0 <= i < n ==> (Chooser(k, n)[i] <==> i % k == 0)
  {
    CycleIndex(Range(0, k), n);
  }

  /** `repeat(v, times)`: v, times times; a negative count yields nothing. */
  function Repeat<T>(v: T, times: int): seq<T>
  {
    seq(if times < 0 then 0 else times, _ => v)
  }

  /** The first n flags of `(x == 0 for x in repeat(0))`. */
  function AllChooser(n: nat): seq<bool>
  {
    Map(IsZero, Repeat(0, n))
  }

  /**
   * `(row for pick, row in zip(chooser, rows) if pick)`: the rows paired
   * with a true flag, in order.
   */
  function Picked<T>(chooser: seq<bool>, rows: seq<T>): seq<T>
    decreases |rows|
  {
    if |chooser| == 0 || |rows| == 0 then []
    else (if chooser[0] then [rows[0]] else []) + Picked(chooser[1..], rows[1..])
  }

  /** Dropping the first item moves every slice position down by one. */
  lemma {:induction false} StepSliceDrop<T>(s: seq<T>, start: nat, step: nat)
    requires step > 0 && start >= 1 && |s| > 0
    ensures Ch04Structure.StepSlice(s, start, step) == Ch04Structure.StepSlice(s[1..], start - 1, step)
    decreases |s| - start
  {
    if start < |s| {
      StepSliceDrop(s, start + step, step);
    }
  }

  /** One step of the chooser: a flag for position p, then the flags from the next position. */
  lemma ChooserStep(k: int, p: nat, n: nat)
    requires 0 <= p < k && n > 0
    ensures Map(IsZero, CycleFrom(Range(0, k), p, n))
         == [p == 0] + Map(IsZero, CycleFrom(Range(0, k), if p + 1 == k then 0 else p + 1, n - 1))
  {
    assert CycleFrom(Range(0, k), p, n) == [p] + CycleFrom(Range(0, k), if p + 1 == k then 0 else p + 1, n - 1);
  }

  /**
   * With the cycle standing at position p, the chooser picks the rows at
   * (k − p) mod k, then every k-th.
   */
  lemma {:induction false} PickedFromPhase<T>(k: int, p: nat, rows: seq<T>)
    requires 0 <= p < k
    ensures Picked(Map(IsZero, CycleFrom(Range(0, k), p, |rows|)), rows)
         == Ch04Structure.StepSlice(rows, if p == 0 then 0 else k - p, k)
    decreases |rows|
  {
    if |rows| > 0 {
      var q := if p + 1 == k then 0 else p + 1;
      var c := Map(IsZero, CycleFrom(Range(0, k), p, |rows|));
      var rest := Map(IsZero, CycleFrom(Range(0, k), q, |rows| - 1));
      ChooserStep(k, p, |rows|);
      PickedFromPhase(k, q, rows[1..]);
      assert Picked(c, rows) == (if p == 0 then [rows[0]] else []) + Picked(rest, rows[1..]);
      if p == 0 {
        StepSliceDrop(rows, k, k);
      } else {
        StepSliceDrop(rows, k - p, k);
      }
    }
  }

  /** Sampling with `cycle(range(k))` keeps rows[0], rows[k], rows[2k], ...: the slice `rows[::k]`. */
  lemma SampleEveryKth<T>(k: int, rows: seq<T>)
    requires k > 0
    ensures Picked(Chooser(k, |rows|), rows) == Ch04Structure.StepSlice(rows, 0, k)
  {
    PickedFromPhase(k, 0, rows);
  }

  /** The `repeat(0)` chooser selects every row. */
  lemma {:induction false} AllChooserKeepsAll<T>(rows: seq<T>)
    ensures Picked(AllChooser(|rows|), rows) == rows
    decreases |rows|
  {
    if |rows| > 0 {
      assert AllChooser(|rows|)[1..] == AllChooser(|rows| - 1);
      AllChooserKeepsAll(rows[1..]);
    }
  }

  // ---------------------------------------------------------------------------
  // validMultipliers

  /** `zip(a, b, c)`: triples up to the shortest length. */
  function Zip3<A, B, C>(a: seq<A>, b: seq<B>, c: seq<C>): (r: seq<(A, B, C)>)
    ensures |r| <= |a| && |r| <= |b| && |r| <= |c|
    ensures |r| == |a| || |r| == |b| || |r| == |c|
  {
    var n := if |a| <= |b| && |a| <= |c| then |a| else if |b| <= |c| then |b| else |c|;
    seq(n, i requires 0 <= i < n => (a[i], b[i], c[i]))
  }

  /** `zip(range(n), is_multipleof_3, is_multipleof_5)`. */
  function Multipliers(n: nat): seq<(int, bool, bool)>
  {
    Zip3(Range(0, n), Chooser(3, n), Chooser(5, n))
  }

  /** `any(multipliers)` over the two flags of a triple. */
  predicate AnyFlag(t: (int, bool, bool)) { t.1 || t.2 }

  function Value(t: (int, bool, bool)): int { t.0 }

  /** `sum(i for i, *multipliers in multipliers if any(multipliers))` over range(n). */
  function ValidMultipliers(n: nat): int
  {
    Sum(Map(Value, Filter(AnyFlag, Multipliers(n))))
  }

  /** Filtering triples on their flags is filtering their values on a test that agrees. */
  lemma {:induction false} FilterByFlags(ts: seq<(int, bool, bool)>)
    requires forall i :: 0 <= i < |ts| ==> (AnyFlag(ts[i]) <==> Ch01Sums.IsMultipleOf3Or5(ts[i].0))
    ensures Map(Value, Filter(AnyFlag, ts)) == Filter(Ch01Sums.IsMultipleOf3Or5, Map(Value, ts))
  {
    if |ts| > 0 {
      FilterByFlags(ts[1..]);
      assert Map(Value, ts)[1..] == Map(Value, ts[1..]);
      var rest := Filter(AnyFlag, ts[1..]);
      if AnyFlag(ts[0]) {
        assert Map(Value, [ts[0]] + rest) == [ts[0].0] + Map(Value, rest);
      }
    }
  }

  /** The two cycles flag exactly the multiples of 3 or 5, so the sum is theirs. */
  lemma ValidMultipliersSpec(n: nat)
    ensures ValidMultipliers(n) == Sum(Filter(Ch01Sums.IsMultipleOf3Or5, Range(0, n)))
  {
    MultipliersSpec(n);
    var ts := Multipliers(n);
    assert Map(Value, ts) == Range(0, n);
    FilterByFlags(ts);
  }

  /** Triple i is (i, i divisible by 3, i divisible by 5). */
  lemma MultipliersSpec(n: nat)
    ensures |Multipliers(n)| == n
    ensures forall i :: 0 <= i < n ==> Multipliers(n)[i] == (i, i % 3 == 0, i % 5 == 0)
  {
    ChooserSpec(3, n);
    ChooserSpec(5, n);
  }

  /** The value the script computes: 0 + 3 + 5 + 6 + 9 = 23. */
  lemma ValidMultipliersIs23()
    ensures ValidMultipliers(10) == 23
  {
    ValidMultipliersSpec(10);
    Ch01Sums.MultiplesBelowTen();
    Ch01Sums.SumOfMultiples();
  }

  // ---------------------------------------------------------------------------
  // squares1 and squares2

  /** `list(tuple(repeat(i, times=i)) for i in range(n))`. */
  function Squares1(n: nat): seq<seq<int>>
  {
    Map((i: int) => Repeat(i, i), Range(0, n))
  }

  /** `list(sum(repeat(i, times=i)) for i in range(n))`. */
  function Squares2(n: nat): seq<int>
  {
    Map((i: int) => Sum(Repeat(i, i)), Range(0, n))
  }

  /** t copies of v add up to v·t. */
  lemma {:induction false} SumRepeat(v: int, t: nat)
    ensures Sum(Repeat(v, t)) == v * t
  {
    if t > 0 {
      var r := Repeat(v, t);
      SumRepeat(v, t - 1);
      assert Sum(r) == Sum(Repeat(v, t - 1)) + v by {
        assert r[..t - 1] == Repeat(v, t - 1);
      }
      assert v * (t - 1) + v == v * t by {
        Ch04Structure.MulPred(t, v);
      }
    }
  }

  /** Row i of squares1 is i copies of i; squares2 sums each row, giving i·i. */
  lemma SquaresSpec(n: nat)
    ensures |Squares1(n)| == n && |Squares2(n)| == n
    ensures forall i :: 0 <= i < n ==> |Squares1(n)[i]| == i && forall j :: 0 <= j < i ==> Squares1(n)[i][j] == i
    ensures forall i :: 0 <= i < n ==> Squares2(n)[i] == i * i
    ensures Squares2(n) == Map(Sum, Squares1(n))
  {
    forall i | 0 <= i < n
      ensures Squares2(n)[i] == i * i
    {
      SumRepeat(i, i);
    }
  }
}
