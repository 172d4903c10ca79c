/**
 * Chapter 4, third example set: flattening rows into one sequence,
 * regrouping a flat sequence into n-tuples (by consuming an iterator, and by
 * zipping stepped slices), the digits of a number in a base, and
 * `enumerate` as a zip with a range.
 */
module Ch04Structure {
  import opened Py
  import opened Arith

  // ---------------------------------------------------------------------------
  // Flattening

  /** `flatten1`: the nested generator expression, one row after another. */
  function Flatten1<T>(rows: seq<seq<T>>): seq<T>
  {
    FoldLeft((acc: seq<T>, row: seq<T>) => acc + row, [], rows)
  }

  lemma {:induction false} FoldConcat<T>(init: seq<T>, rows: seq<seq<T>>)
    ensures FoldLeft((acc: seq<T>, row: seq<T>) => acc + row, init, rows) == init + Flatten(rows)
    decreases |rows|
  {
    if |rows| > 0 {
      FoldConcat(init + rows[0], rows[1..]);
    }
  }

  /** `flatten1` is the in-order concatenation of the rows. */
  lemma Flatten1IsFlatten<T>(rows: seq<seq<T>>)
    ensures Flatten1(rows) == Flatten(rows)
  {
    FoldConcat([], rows);
  }

  /** `list(flatten2(rows))`: two nested loops yielding every item. */
  method Flatten2<T>(rows: seq<seq<T>>) returns (out: seq<T>)
    ensures out == Flatten(rows)
  {
    out := [];
    for r := 0 to |rows|
      invariant out == Flatten(rows[..r])
    {
      var row := rows[r];
      ghost var before := out;
      for j := 0 to |row|
        invariant out == before + row[..j]
      {
        out := out + [row[j]];
        assert row[..j + 1] == row[..j] + [row[j]];
      }
      assert row[..|row|] == row;
      FlattenAppend(rows[..r], [row]);
      assert rows[..r + 1] == rows[..r] + [row];
      assert Flatten([row]) == row + Flatten([]);
    }
    assert rows[..|rows|] == rows;
  }

  // ---------------------------------------------------------------------------
  // Chunks of n

  /** The reference grouping: consecutive blocks of n items; a short remainder is not a block. */
  function Chunks<T>(n: int, s: seq<T>): seq<seq<T>>
    requires n > 0
    decreases |s|
  {
    if |s| < n then [] else [s[..n]] + Chunks(n, s[n..])
  }

  /** There are len / n blocks and block k is s[k n .. k n + n). */
  lemma ChunksShape<T>(n: int, s: seq<T>)
    requires n > 0
    ensures |Chunks(n, s)| == |s| / n
    ensures forall k :: 0 <= k < |s| / n ==> k * n + n <= |s| && Chunks(n, s)[k] == s[k * n .. k * n + n]
  {
    ChunksLength(n, s);
    ChunksBlocks(n, s);
  }

  lemma {:induction false} ChunksLength<T>(n: int, s: seq<T>)
    requires n > 0
    ensures |Chunks(n, s)| == |s| / n
    decreases |s|
  {
    if |s| < n {
      DivSmall(|s|, n);
    } else {
      ChunksLength(n, s[n..]);
      DivSub(|s|, n);
    }
  }

  lemma {:induction false} ChunksBlocks<T>(n: int, s: seq<T>)
    requires n > 0
    ensures forall k :: 0 <= k < |Chunks(n, s)| ==> k * n + n <= |s| && Chunks(n, s)[k] == s[k * n .. k * n + n]
    decreases |s|
  {
    if |s| >= n {
      var rest := s[n..];
      ChunksBlocks(n, rest);
      forall k | 0 <= k < |Chunks(n, s)|
        ensures k * n + n <= |s| && Chunks(n, s)[k] == s[k * n .. k * n + n]
      {
        if k == 0 {
          assert k * n == 0;
        } else {
          var j := (k - 1) * n;
          MulPred(k, n);
          MulLe(n, 0, k - 1);
          assert j + n <= |rest| && Chunks(n, rest)[k - 1] == rest[j .. j + n];
          ChunkShift(n, s, k, j);
        }
      }
    }
  }

  /** Block k of s is block k - 1 of s[n..], moved up by n. */
  lemma ChunkShift<T>(n: int, s: seq<T>, k: int, j: int)
    requires n > 0 && |s| >= n && 0 < k && k - 1 < |Chunks(n, s[n..])|
    requires 0 <= j && j + n <= |s| - n && Chunks(n, s[n..])[k - 1] == s[n..][j .. j + n]
    ensures Chunks(n, s)[k] == s[n + j .. n + j + n]
  {
    assert Chunks(n, s)[k] == Chunks(n, s[n..])[k - 1];
  }

  /** The items after the last full block. */
  function Remainder<T>(n: int, s: seq<T>): seq<T>
    requires n > 0
    decreases |s|
  {
    if |s| < n then s else Remainder(n, s[n..])
  }

  /** The blocks followed by the remainder give the sequence back, and the remainder holds len % n items. */
  lemma ChunksRebuild<T>(n: int, s: seq<T>)
    requires n > 0
    ensures Flatten(Chunks(n, s)) + Remainder(n, s) == s
    ensures |Remainder(n, s)| == |s| % n
  {
    ChunksConcat(n, s);
    RemainderLength(n, s);
  }

  lemma {:induction false} ChunksConcat<T>(n: int, s: seq<T>)
    requires n > 0
    ensures Flatten(Chunks(n, s)) + Remainder(n, s) == s
    decreases |s|
  {
    if |s| >= n {
      var rest := s[n..];
      ChunksConcat(n, rest);
      assert Chunks(n, s)[1..] == Chunks(n, rest);
      assert Flatten(Chunks(n, s)) == s[..n] + Flatten(Chunks(n, rest));
      assert s == s[..n] + rest;
    }
  }

  lemma {:induction false} RemainderLength<T>(n: int, s: seq<T>)
    requires n > 0
    ensures |Remainder(n, s)| == |s| % n
    decreases |s|
  {
    if |s| < n {
      DivSmall(|s|, n);
    } else {
      RemainderLength(n, s[n..]);
      DivSub(|s|, n);
    }
  }

  // ---------------------------------------------------------------------------
  // group_by_v1

  /** An entry of `group_by_v1`'s result: a full n-tuple, or a single left-over item. */
  datatype Entry<T> = Group(items: seq<T>) | Item(item: T)

  /** Each item on its own. */
  function Loose<T>(s: seq<T>): seq<Entry<T>>
  {
    seq(|s|, i requires 0 <= i < |s| => Item(s[i]))
  }

  /** Each block as a tuple. */
  function Groups<T>(blocks: seq<seq<T>>): seq<Entry<T>>
  {
    seq(|blocks|, i requires 0 <= i < |blocks| => Group(blocks[i]))
  }

  /** `rows` tuples of n items taken from an iterator over s, and what the iterator still holds. */
  function TakeGroups<T>(rows: nat, n: int, s: seq<T>): (r: (seq<Entry<T>>, seq<T>))
    requires n > 0 && rows <= |s| / n
  {
    if rows == 0 then ([], s)
    else
      DivAtLeastOne(|s|, n);
      DivSub(|s|, n);
      var (groups, rest) := TakeGroups(rows - 1, n, s[n..]);
      ([Group(s[..n])] + groups, rest)
  }

  /**
   * `group_by_v1(n, s)`: len(s) // n tuples taken from an iterator over s,
   * then the items left over appended one by one, not as a tuple.  n = 0
   * fails on the floor division; a negative n gives a non-positive count, so
   * every item is left over.
   */
  function GroupByV1<T>(n: int, s: seq<T>): Outcome<seq<Entry<T>>>
  {
    if n == 0 then Raised(ZeroDivisionError)
    else if n < 0 then Ok(Loose(s))
    else
      var (full, trailer) := TakeGroups(|s| / n, n, s);
      if |trailer| > 0 then Ok(full + Loose(trailer)) else Ok(full)
  }

  lemma {:induction false} TakeGroupsIsChunks<T>(n: int, s: seq<T>)
    requires n > 0
    ensures TakeGroups(|s| / n, n, s) == (Groups(Chunks(n, s)), Remainder(n, s))
    decreases |s|
  {
    if |s| < n {
      DivSmall(|s|, n);
    } else {
      var rest := s[n..];
      TakeGroupsIsChunks(n, rest);
      DivSub(|s|, n);
      assert Groups(Chunks(n, s)) == [Group(s[..n])] + Groups(Chunks(n, rest));
    }
  }

  /**
   * For n > 0 the result is the blocks of n as tuples followed by the
   * remainder as loose items.
   */
  lemma GroupByV1Shape<T>(n: int, s: seq<T>)
    requires n > 0
    ensures GroupByV1(n, s) == Ok(Groups(Chunks(n, s)) + Loose(Remainder(n, s)))
  {
    TakeGroupsIsChunks(n, s);
    if |Remainder(n, s)| == 0 {
      assert Groups(Chunks(n, s)) + Loose(Remainder(n, s)) == Groups(Chunks(n, s));
    }
  }

  /** When n divides the length, every entry is a full tuple and their items, in order, are the sequence. */
  lemma GroupByV1Exact<T>(n: int, s: seq<T>)
    requires n > 0 && |s| % n == 0
    ensures GroupByV1(n, s) == Ok(Groups(Chunks(n, s)))
    ensures Flatten(Chunks(n, s)) == s
  {
    GroupByV1Shape(n, s);
    ChunksRebuild(n, s);
    assert Loose(Remainder(n, s)) == [];
    assert Groups(Chunks(n, s)) + Loose(Remainder(n, s)) == Groups(Chunks(n, s));
  }

  /** The left-over items are not grouped: three items in pairs give one pair and a loose item. */
  lemma GroupByV1FlatTrailer()
    ensures GroupByV1(2, [1, 2, 3]) == Ok([Group([1, 2]), Item(3)])
  {
    GroupByV1Shape(2, [1, 2, 3]);
    assert [1, 2, 3][..2] == [1, 2];
    assert [1, 2, 3][2..] == [3];
    assert Chunks(2, [3]) == [];
    assert Chunks(2, [1, 2, 3]) == [[1, 2]];
    assert Remainder(2, [1, 2, 3]) == [3];
    assert Groups([[1, 2]]) == [Group([1, 2])];
    assert Loose([3]) == [Item(3)];
    assert Groups(Chunks(2, [1, 2, 3])) + Loose(Remainder(2, [1, 2, 3])) == [Group([1, 2]), Item(3)];
  }

  lemma GroupByV1Degenerate<T>(s: seq<T>)
    ensures GroupByV1(0, s) == Raised(ZeroDivisionError)
    ensures GroupByV1(-1, s) == Ok(Loose(s))
  {
  }

  // ---------------------------------------------------------------------------
  // group_by_v2

  /**
   * `group_by_v2(n, iterator)` over what the iterator still holds: each row is
   * `tuple(next(it) for i in range(n))`.  For n <= 0 the first row is empty and
   * the loop never starts.  Otherwise a `next()` on an exhausted iterator
   * raises inside the generator expression, which ends it with `RuntimeError`.
   */
  function GroupByV2<T>(n: int, s: seq<T>): Run<seq<T>>
    decreases |s|
  {
    if n <= 0 then Run([], None)
    else if |s| < n then Run([], Some(RuntimeError))
    else
      var rest := GroupByV2(n, s[n..]);
      Run([s[..n]] + rest.yielded, rest.raised)
  }

  /**
   * As written, `group_by_v2` yields the full blocks and then always ends with
   * `RuntimeError`, so `list()` of it raises for every n > 0.
   */
  lemma {:induction false} GroupByV2AsWritten<T>(n: int, s: seq<T>)
    requires n > 0
    ensures GroupByV2(n, s) == Run(Chunks(n, s), Some(RuntimeError))
    ensures ListOf(GroupByV2(n, s)) == Raised(RuntimeError)
    decreases |s|
  {
    if |s| >= n {
      GroupByV2AsWritten(n, s[n..]);
    }
  }

  /**
   * The evidently intended `group_by_v2`: exhaustion ends the row early, a
   * short last row is still yielded, and the empty row stops the loop.
   */
  function GroupByV2Intended<T>(n: int, s: seq<T>): Run<seq<T>>
    decreases |s|
  {
    if n <= 0 || |s| == 0 then Run([], None)
    else if |s| < n then Run([s], None)
    else
      var rest := GroupByV2Intended(n, s[n..]);
      Run([s[..n]] + rest.yielded, rest.raised)
  }

  /** The intended version yields the full blocks, then the non-empty remainder as one row, and ends normally. */
  lemma {:induction false} GroupByV2IntendedIsChunks<T>(n: int, s: seq<T>)
    requires n > 0
    ensures GroupByV2Intended(n, s).raised == None
    ensures GroupByV2Intended(n, s).yielded ==
      Chunks(n, s) + (if |Remainder(n, s)| > 0 then [Remainder(n, s)] else [])
    ensures Flatten(GroupByV2Intended(n, s).yielded) == s
    decreases |s|
  {
    if |s| >= n {
      GroupByV2IntendedIsChunks(n, s[n..]);
      var tail := if |Remainder(n, s[n..])| > 0 then [Remainder(n, s[n..])] else [];
      assert [s[..n]] + (Chunks(n, s[n..]) + tail) == ([s[..n]] + Chunks(n, s[n..])) + tail;
      var ys := GroupByV2Intended(n, s[n..]).yielded;
      assert ([s[..n]] + ys)[1..] == ys;
      assert s[..n] + s[n..] == s;
    } else if |s| > 0 {
      assert Flatten([s]) == s + Flatten([]);
    }
  }

  // ---------------------------------------------------------------------------
  // group_by_n and group_by_even_odd

  /** `s[start::step]`. */
  function StepSlice<T>(s: seq<T>, start: nat, step: nat): (r: seq<T>)
    requires step > 0
    decreases |s| - start
  {
    if start >= |s| then [] else [s[start]] + StepSlice(s, start + step, step)
  }

  /** Every element of `s[start::step]` is s[start + k step]. */
  lemma {:induction false} StepSliceIndex<T>(s: seq<T>, start: nat, step: nat)
    requires step > 0
    ensures forall k :: 0 <= k < |StepSlice(s, start, step)| ==>
      start + k * step < |s| && StepSlice(s, start, step)[k] == s[start + k * step]
    decreases |s| - start
  {
    if start < |s| {
      var r := StepSlice(s, start, step);
      StepSliceIndex(s, start + step, step);
      forall k | 1 <= k < |r|
        ensures start + k * step < |s| && r[k] == s[start + k * step]
      {
        var j := (k - 1) * step;
        MulPred(k, step);
        assert start + k * step == start + step + j;
        assert r[k] == StepSlice(s, start + step, step)[k - 1];
      }
    }
  }

  lemma MulPred(k: int, step: int)
    ensures (k - 1) * step + step == k * step
  {
  }

  /** Dropping one block from the front shifts every slice by one step. */
  lemma {:induction false} StepSliceShift<T>(s: seq<T>, start: nat, step: nat)
    requires step > 0 && |s| >= step
    ensures StepSlice(s, start + step, step) == StepSlice(s[step..], start, step)
    decreases |s| - start
  {
    if start + step < |s| {
      StepSliceShift(s, start + step, step);
    }
  }

  /** The first element of every column. */
  function Heads<T>(cols: seq<seq<T>>): seq<T>
    requires forall i :: 0 <= i < |cols| ==> |cols[i]| > 0
  {
    seq(|cols|, i requires 0 <= i < |cols| => cols[i][0])
  }

  /** Every column without its first element. */
  function Tails<T>(cols: seq<seq<T>>): seq<seq<T>>
    requires forall i :: 0 <= i < |cols| ==> |cols[i]| > 0
  {
    seq(|cols|, i requires 0 <= i < |cols| => cols[i][1..])
  }

  /** `zip(*cols)`: one row across the columns at a time until some column runs out; no columns, no rows. */
  function ZipN<T>(cols: seq<seq<T>>): (rows: seq<seq<T>>)
    decreases if |cols| == 0 then 0 else |cols[0]|
  {
    if |cols| == 0 || exists i :: 0 <= i < |cols| && |cols[i]| == 0 then []
    else [Heads(cols)] + ZipN(Tails(cols))
  }

  /** The n stepped slices s[0::n], ..., s[n-1::n]. */
  function Columns<T>(n: nat, s: seq<T>): (cols: seq<seq<T>>)
    requires n > 0
    ensures |cols| == n
  {
    seq(n, i requires 0 <= i < n => StepSlice(s, i, n))
  }

  /** `list(group_by_n(n, s))`; `range(n)` is empty for n <= 0, and so is the zip. */
  function GroupByN<T>(n: int, s: seq<T>): seq<seq<T>>
  {
    if n <= 0 then [] else ZipN(Columns(n, s))
  }

  /** `group_by_n(n, s)` yields the full blocks of n in order, dropping the remainder. */
  lemma {:induction false} GroupByNIsChunks<T>(n: int, s: seq<T>)
    requires n > 0
    ensures GroupByN(n, s) == Chunks(n, s)
    decreases |s|
  {
    var cols := Columns(n, s);
    if |s| < n {
      assert |cols[n - 1]| == 0;
    } else {
      forall i | 0 <= i < n
        ensures cols[i] == [s[i]] + Columns(n, s[n..])[i]
      {
        StepSliceShift(s, i, n);
      }
      assert Heads(cols) == s[..n];
      assert Tails(cols) == Columns(n, s[n..]);
      GroupByNIsChunks(n, s[n..]);
    }
  }

  /** There are len // n blocks, and block k is s[k n .. k n + n]. */
  lemma GroupByNShape<T>(n: int, s: seq<T>)
    requires n > 0
    ensures |GroupByN(n, s)| == |s| / n
    ensures forall k :: 0 <= k < |s| / n ==> k * n + n <= |s| && GroupByN(n, s)[k] == s[k * n .. k * n + n]
  {
    GroupByNIsChunks(n, s);
    ChunksShape(n, s);
  }

  /** `list(group_by_even_odd(s))`: zip(s[0::2], s[1::2]). */
  function GroupByEvenOdd<T>(s: seq<T>): seq<(T, T)>
  {
    Zip(StepSlice(s, 0, 2), StepSlice(s, 1, 2))
  }

  function PairToSeq<T>(p: (T, T)): seq<T>
  {
    [p.0, p.1]
  }

  /** Pairing even and odd positions is grouping by two. */
  lemma GroupByEvenOddIsGroupByTwo<T>(s: seq<T>)
    ensures Map(PairToSeq, GroupByEvenOdd(s)) == GroupByN(2, s)
  {
    EvenOddIsChunksOfTwo(s);
    GroupByNIsChunks(2, s);
  }

  lemma {:induction false} EvenOddIsChunksOfTwo<T>(s: seq<T>)
    ensures Map(PairToSeq, GroupByEvenOdd(s)) == Chunks(2, s)
    decreases |s|
  {
    if |s| < 2 {
      assert |StepSlice(s, 1, 2)| == 0;
    } else {
      var rest := s[2..];
      StepSliceShift(s, 0, 2);
      StepSliceShift(s, 1, 2);
      EvenOddIsChunksOfTwo(rest);
      assert StepSlice(s, 0, 2) == [s[0]] + StepSlice(rest, 0, 2);
      assert StepSlice(s, 1, 2) == [s[1]] + StepSlice(rest, 1, 2);
      var pairs := GroupByEvenOdd(s);
      assert pairs == [(s[0], s[1])] + GroupByEvenOdd(rest);
      assert PairToSeq(pairs[0]) == s[..2];
      assert Map(PairToSeq, pairs) == [s[..2]] + Map(PairToSeq, GroupByEvenOdd(rest));
    }
  }

  // ---------------------------------------------------------------------------
  // Digits in a base

  /**
   * The digits of a natural number in a base of at least 2, least significant
   * first, nothing for 0: what `calc_digits` yields on such inputs.
   */
  function Digits(number: nat, base: nat): (ds: seq<nat>)
    requires base >= 2
    ensures forall i :: 0 <= i < |ds| ==> ds[i] < base
    ensures |ds| == 0 <==> number == 0
    ensures |ds| > 0 ==> ds[|ds| - 1] != 0
    decreases number
  {
    if number == 0 then [] else [number % base] + Digits(number / base, base)
  }

  /** The value of digits least significant first. */
  function ValueLittle(ds: seq<int>, base: int): int
  {
    if |ds| == 0 then 0 else ds[0] + base * ValueLittle(ds[1..], base)
  }

  /** The value of digits most significant first. */
  function ValueBig(ds: seq<int>, base: int): int
  {
    if |ds| == 0 then 0 else ValueBig(ds[..|ds| - 1], base) * base + ds[|ds| - 1]
  }

  /**
   * `calc_digits(number, base)` as a generator run: it yields `number % base`
   * and then whatever the generator for `number // base` yields, until the
   * number is 0.  A zero base raises ZeroDivisionError at the first `%`, and
   * `depth` is what is left of the interpreter's recursion limit, whose
   * exhaustion raises RecursionError.  Whatever the base, the digits have
   * the base's sign and lie below it in size.
   */
  function CalcDigits(number: int, base: int, depth: nat): (r: Run<int>)
    ensures r.raised == Some(ZeroDivisionError) <==> depth > 0 && number != 0 && base == 0
    ensures base > 0 ==> forall i :: 0 <= i < |r.yielded| ==> 0 <= r.yielded[i] < base
    ensures base < 0 ==> forall i :: 0 <= i < |r.yielded| ==> base < r.yielded[i] <= 0
    decreases depth
  {
    if depth == 0 then Run([], Some(RecursionError))
    else if number == 0 then Run([], None)
    else if base == 0 then Run([], Some(ZeroDivisionError))
    else
      var rest := CalcDigits(FloorDiv(number, base).value, base, depth - 1);
      var r := Run([FloorMod(number, base).value] + rest.yielded, rest.raised);
      assert r.yielded[1..] == rest.yielded;
      r
  }

  /** Whatever the base, a run that ends cleanly has yielded digits whose value is the number. */
  lemma {:induction false} CalcDigitsValue(number: int, base: int, depth: nat)
    ensures CalcDigits(number, base, depth).raised == None ==> ValueLittle(CalcDigits(number, base, depth).yielded, base) == number
    decreases depth
  {
    if depth > 0 && number != 0 && base != 0 {
      var q := FloorDiv(number, base).value;
      var rest := CalcDigits(q, base, depth - 1);
      CalcDigitsValue(q, base, depth - 1);
      var ds := CalcDigits(number, base, depth).yielded;
      assert ds[1..] == rest.yielded;
      assert ValueLittle(ds, base) == FloorMod(number, base).value + base * ValueLittle(rest.yielded, base);
    }
  }

  lemma {:induction false} DigitsValue(number: nat, base: nat)
    requires base >= 2
    ensures ValueLittle(Digits(number, base), base) == number
    decreases number
  {
    if number > 0 {
      var ds := Digits(number, base);
      DigitsValue(number / base, base);
      assert ds[1..] == Digits(number / base, base);
      assert ValueLittle(ds, base) == number % base + base * (number / base);
      DivMod(number, base);
    }
  }

  /** Digits with no negative entry and a non-negative base have a non-negative value. */
  lemma {:induction false} ValueLittleNatural(ds: seq<nat>, base: nat)
    ensures ValueLittle(ds, base) >= 0
  {
    if |ds| > 0 {
      ValueLittleNatural(ds[1..], base);
    }
  }

  /** Reading canonical digits (each below the base, no trailing zero) back off their value gives them again. */
  lemma {:induction false} DigitsOfValue(ds: seq<nat>, base: nat)
    requires base >= 2
    requires forall i :: 0 <= i < |ds| ==> ds[i] < base
    requires |ds| > 0 ==> ds[|ds| - 1] != 0
    ensures ValueLittle(ds, base) >= 0 && Digits(ValueLittle(ds, base), base) == ds
  {
    ValueLittleNatural(ds, base);
    if |ds| > 0 {
      var rest := ds[1..];
      var v := ValueLittle(ds, base);
      ValueLittleNatural(rest, base);
      DigitsOfValue(rest, base);
      DivUnique(v, base, ValueLittle(rest, base), ds[0]);
      if |rest| > 0 {
        ValueLittlePositive(rest, base);
      }
    }
  }

  lemma {:induction false} ValueLittlePositive(ds: seq<nat>, base: nat)
    requires base >= 2 && |ds| > 0 && ds[|ds| - 1] != 0
    ensures ValueLittle(ds, base) > 0
  {
    ValueLittleNatural(ds[1..], base);
    if ds[0] == 0 {
      ValueLittlePositive(ds[1..], base);
    }
  }

  lemma {:induction false} ValueBigReverse(ds: seq<int>, base: int)
    ensures ValueBig(Reverse(ds), base) == ValueLittle(ds, base)
  {
    if |ds| > 0 {
      ValueBigReverse(ds[1..], base);
      var r := Reverse(ds);
      assert r == Reverse(ds[1..]) + [ds[0]];
      assert r[..|r| - 1] == Reverse(ds[1..]);
      calc {
        ValueBig(r, base);
        ValueBig(Reverse(ds[1..]), base) * base + ds[0];
        ValueLittle(ds[1..], base) * base + ds[0];
        ValueLittle(ds, base);
      }
    }
  }

  /**
   * A natural number in a base of at least 2, with more recursion left than
   * it has digits: the run ends cleanly having yielded exactly its digits.
   */
  lemma {:induction false} CalcDigitsNatural(number: nat, base: nat, depth: nat)
    requires base >= 2 && depth > |Digits(number, base)|
    ensures CalcDigits(number, base, depth) == Run(Digits(number, base), None)
    decreases number
  {
    if number > 0 {
      FloorOfPositive(number, base);
      QuotientSmaller(number, base);
      var rest := CalcDigits(number / base, base, depth - 1);
      CalcDigitsNatural(number / base, base, depth - 1);
      assert rest == Run(Digits(number / base, base), None);
      assert CalcDigits(number, base, depth) == Run([number % base] + rest.yielded, rest.raised);
    }
  }

  /**
   * Base 1 never gets anywhere: `number // 1` is the number again, so each
   * level yields a 0 and the nesting goes on until the recursion limit.
   */
  lemma {:induction false} CalcDigitsBaseOne(number: int, depth: nat)
    requires number != 0
    ensures CalcDigits(number, 1, depth).raised == Some(RecursionError)
    ensures |CalcDigits(number, 1, depth).yielded| == depth
    ensures forall i :: 0 <= i < depth ==> CalcDigits(number, 1, depth).yielded[i] == 0
    decreases depth
  {
    if depth > 0 {
      assert FloorDiv(number, 1).value == number;
      CalcDigitsBaseOne(number, depth - 1);
    }
  }

  /**
   * A negative number in a base of at least 2 stays negative under floor
   * division (it settles at -1), so the run ends in RecursionError whatever
   * the depth.
   */
  lemma {:induction false} CalcDigitsNegativeNumber(number: int, base: int, depth: nat)
    requires number < 0 && base >= 2
    ensures CalcDigits(number, base, depth).raised == Some(RecursionError)
    decreases depth
  {
    if depth > 0 {
      var q := FloorDiv(number, base).value;
      MulPositiveSign(q, base);
      CalcDigitsNegativeNumber(q, base, depth - 1);
    }
  }

  /** A size that floor division by a base of -2 or less strictly shrinks. */
  function NegativeBaseSize(x: int): nat
  {
    if x > 0 then 2 * x + 1 else -2 * x
  }

  lemma NegativeBaseShrinks(x: int, b: int)
    requires b <= -2 && x != 0
    ensures NegativeBaseSize(FloorDiv(x, b).value) < NegativeBaseSize(x)
  {
    var q := FloorDiv(x, b).value;
    var m := -b;
    if x > 0 {
      assert (-q) * m == q * b;
      PositiveOverNegativeBase(x, -q, m);
    } else {
      assert q * m == -(q * b);
      NegativeOverNegativeBase(-x, q, m);
    }
  }

  /** A positive x over a base -m: the quotient is -p with 1 <= p <= x. */
  lemma PositiveOverNegativeBase(x: int, p: int, m: int)
    requires m >= 2 && x > 0 && p * m >= x > p * m - m
    ensures 1 <= p <= x
  {
    MulPositiveSign(p, m);
    assert (p - 1) * m == p * m - m;
    MulPositiveSign(p - 1, m);
  }

  /** A negative -y over a base -m: the quotient q has 0 <= 2q <= y. */
  lemma NegativeOverNegativeBase(y: int, q: int, m: int)
    requires m >= 2 && y > 0 && q * m <= y < q * m + m
    ensures q >= 0 && 2 * q <= y
  {
    assert (q + 1) * m == q * m + m;
    MulPositiveSign(q + 1, m);
    MulLe(q, 2, m);
  }

  /**
   * A base of -2 or less always gets to 0: with recursion to spare the run
   * ends cleanly, its digits lie between the base and 0, and their value is
   * the number.
   */
  lemma {:induction false} CalcDigitsNegativeBase(number: int, base: int, depth: nat)
    requires base <= -2 && depth > NegativeBaseSize(number)
    ensures CalcDigits(number, base, depth).raised == None
    ensures ValueLittle(CalcDigits(number, base, depth).yielded, base) == number
    decreases depth
  {
    CalcDigitsValue(number, base, depth);
    if number != 0 {
      NegativeBaseShrinks(number, base);
      CalcDigitsNegativeBase(FloorDiv(number, base).value, base, depth - 1);
    }
  }

  /** `calc_digits(8, -2)` yields 0, 0, 0, -1: 8 = 0 - 2·(0 - 2·(0 - 2·(-1))). */
  lemma CalcDigitsNegativeBaseExample()
    ensures CalcDigits(8, -2, 5) == Run([0, 0, 0, -1], None)
  {
    assert CalcDigits(0, -2, 1) == Run([], None);
    assert CalcDigits(-1, -2, 2) == Run([-1], None);
    assert CalcDigits(2, -2, 3) == Run([0, -1], None);
    assert CalcDigits(-4, -2, 4) == Run([0, 0, -1], None);
  }

  /**
   * `convert_to_base(number, base)`: the generator's digits, materialised by
   * `tuple` and reversed, so most significant first; an exception from the
   * generator comes through.  Digits it returns read back to the number.
   */
  function ConvertToBase(number: int, base: int, depth: nat): (r: Outcome<seq<int>>)
    ensures r.Ok? ==> ValueBig(r.value, base) == number
    ensures r.Raised? ==> Some(r.exc) == CalcDigits(number, base, depth).raised
  {
    match ListOf(CalcDigits(number, base, depth))
    case Ok(ds) => CalcDigitsValue(number, base, depth); ValueBigReverse(ds, base); Ok(Reverse(ds))
    case Raised(e) => Raised(e)
  }

  /**
   * For a natural number in a base of at least 2, with recursion to spare, the
   * digits are below the base, lead with a non-zero digit, and read back,
   * most significant first, to the number.
   */
  lemma ConvertToBaseValue(number: nat, base: nat, depth: nat)
    requires base >= 2 && depth > |Digits(number, base)|
    ensures ConvertToBase(number, base, depth) == Ok(Reverse(Digits(number, base)))
    ensures forall i :: 0 <= i < |ConvertToBase(number, base, depth).value| ==> 0 <= ConvertToBase(number, base, depth).value[i] < base
    ensures |ConvertToBase(number, base, depth).value| > 0 ==> ConvertToBase(number, base, depth).value[0] != 0
    ensures ValueBig(ConvertToBase(number, base, depth).value, base) == number
  {
    var ds := Digits(number, base);
    CalcDigitsNatural(number, base, depth);
    assert ListOf(CalcDigits(number, base, depth)) == Ok(ds);
    ValueBigReverse(ds, base);
    DigitsValue(number, base);
    var r := Reverse(ds);
    assert ConvertToBase(number, base, depth).value == r;
    assert |r| > 0 ==> r[0] == ds[|ds| - 1];
  }

  /**
   * The failing inputs: base 0 raises ZeroDivisionError, and base 1 or a
   * negative number in a positive base ends in RecursionError, for every
   * non-zero number.
   */
  lemma ConvertToBaseFailures(number: int, depth: nat)
    requires number != 0
    ensures depth > 0 ==> ConvertToBase(number, 0, depth) == Raised(ZeroDivisionError)
    ensures ConvertToBase(number, 1, depth) == Raised(RecursionError)
    ensures number < 0 ==> ConvertToBase(number, 2, depth) == Raised(RecursionError)
  {
    CalcDigitsBaseOne(number, depth);
    if number < 0 {
      CalcDigitsNegativeNumber(number, 2, depth);
    }
  }

  /** `tuple(convert_to_base(8, 2))` is (1, 0, 0, 0). */
  lemma ConvertToBaseDoctest(depth: nat)
    requires depth > 4
    ensures ConvertToBase(8, 2, depth) == Ok([1, 0, 0, 0])
  {
    assert Digits(8, 2) == [0, 0, 0, 1];
    ConvertToBaseValue(8, 2, depth);
    assert Reverse([0, 0, 0, 1]) == [1, 0, 0, 0];
  }

  // ---------------------------------------------------------------------------
  // enumerate

  /** `enumerate(xs, start)`. */
  function EnumerateFrom<T>(xs: seq<T>, start: int): seq<(int, T)>
  {
    if |xs| == 0 then [] else [(start, xs[0])] + EnumerateFrom(xs[1..], start + 1)
  }

  lemma {:induction false} EnumerateFromIndex<T>(xs: seq<T>, start: int)
    ensures |EnumerateFrom(xs, start)| == |xs|
    ensures forall i :: 0 <= i < |xs| ==> EnumerateFrom(xs, start)[i] == (start + i, xs[i])
  {
    if |xs| > 0 {
      EnumerateFromIndex(xs[1..], start + 1);
    }
  }

  /** `list(enumerate(xs))` equals `list(zip(range(len(xs)), xs))`. */
  lemma EnumerateIsZipRange<T>(xs: seq<T>)
    ensures EnumerateFrom(xs, 0) == Zip(Range(0, |xs|), xs)
  {
    EnumerateFromIndex(xs, 0);
  }
}
