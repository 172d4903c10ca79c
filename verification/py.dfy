/**
 * Python-level vocabulary shared by every chapter module: the exceptions the
 * scripts can raise, an `Outcome` for a computation that either returns a value
 * or raises, negative indexing, `range`, the sequence folds the book rewrites
 * again and again (sum, product, map, filter, reduce), and the string
 * operations the scripts lean on (`str.split`, `str.join`, `int()` and `str()`
 * on integers, `str.strip`).
 */
module Py {

  /** The exceptions the modelled code raises or lets escape. */
  datatype Exc =
    | ValueError
    | TypeError
    | IndexError
    | KeyError
    | ZeroDivisionError
    | StopIteration
    | AssertionError
    | AttributeError
    | RuntimeError
    | RecursionError
    | InvalidOperation

  /** Python's `None`-or-value. */
  datatype Option<+T> = None | Some(value: T)

  /** A Python call either returns a value or raises an exception. */
  datatype Outcome<+T> = Ok(value: T) | Raised(exc: Exc)
  {
    predicate IsFailure() { Raised? }

    function PropagateFailure<U>(): Outcome<U>
      requires Raised?
    {
      Raised(exc)
    }

    function Extract(): T
      requires Ok?
    {
      value
    }
  }

  /**
   * What a consumer of a generator sees: the values it yielded, in order, and
   * the exception it ended with, if any.  Since PEP 479 a `StopIteration`
   * escaping a generator's body ends it with `RuntimeError`.
   */
  datatype Run<+T> = Run(yielded: seq<T>, raised: Option<Exc>)

  /** `list(generator)`: all the values, or the exception that ended it. */
  function ListOf<T>(r: Run<T>): Outcome<seq<T>>
  {
    if r.raised.Some? then Raised(r.raised.value) else Ok(r.yielded)
  }

  // ---------------------------------------------------------------------------
  // Floor division

  /** `a // d`: rounds toward minus infinity; a zero divisor raises. */
  function FloorDiv(a: int, d: int): (r: Outcome<int>)
    ensures r.Raised? <==> d == 0
    ensures r.Raised? ==> r.exc == ZeroDivisionError
    ensures d > 0 && r.Ok? ==> r.value * d <= a < r.value * d + d
    ensures d < 0 && r.Ok? ==> r.value * d >= a > r.value * d + d
  {
    if d == 0 then Raised(ZeroDivisionError)
    else if d > 0 then Ok(a / d)
    else Ok((-a) / (-d))
  }

  /**
   * `a % d`: what `a // d` leaves over, so it takes the sign of the divisor
   * (never negative for d > 0, never positive for d < 0).
   */
  function FloorMod(a: int, d: int): (r: Outcome<int>)
    ensures r.Raised? <==> d == 0
    ensures r.Raised? ==> r.exc == ZeroDivisionError
    ensures r.Ok? ==> a == FloorDiv(a, d).value * d + r.value
    ensures d > 0 && r.Ok? ==> 0 <= r.value < d
    ensures d < 0 && r.Ok? ==> d < r.value <= 0
  {
    if d == 0 then Raised(ZeroDivisionError)
    else Ok(a - FloorDiv(a, d).value * d)
  }

  // ---------------------------------------------------------------------------
  // Indexing and ranges

  /** `s[i]` with Python's negative indices; out of range raises IndexError. */
  function PyIndex<T>(s: seq<T>, i: int): Outcome<T>
  {
    if 0 <= i < |s| then Ok(s[i])
    else if -|s| <= i < 0 then Ok(s[|s| + i])
    else Raised(IndexError)
  }

  /** `range(lo, hi)`. */
  function Range(lo: int, hi: int): (r: seq<int>)
    ensures |r| == if lo <= hi then hi - lo else 0
    ensures forall i :: 0 <= i < |r| ==> r[i] == lo + i
    decreases hi - lo
  {
    if lo >= hi then [] else [lo] + Range(lo + 1, hi)
  }

  /** `range(start, stop, step)` for a positive step. */
  function RangeStep(start: int, stop: int, step: int): (r: seq<int>)
    requires step > 0
    ensures |r| == 0 <==> start >= stop
    ensures forall i :: 0 <= i < |r| ==> r[i] == start + step * i
    ensures forall i :: 0 <= i < |r| ==> start <= r[i] < stop
    decreases stop - start
  {
    if start >= stop then [] else [start] + RangeStep(start + step, stop, step)
  }

  /** The members of `range(start, stop, 2)`: every other integer from `start`. */
  lemma {:induction false} RangeStep2Members(start: int, stop: int, x: int)
    ensures x in RangeStep(start, stop, 2) <==> start <= x < stop && (x - start) % 2 == 0
    decreases stop - start
  {
    if start < stop {
      RangeStep2Members(start + 2, stop, x);
    }
  }

  // ---------------------------------------------------------------------------
  // Folds over sequences

  /** `sum(s)`, defined from the back so head-first recursions need a proof. */
  function Sum(s: seq<int>): int
  {
    if |s| == 0 then 0 else Sum(s[..|s| - 1]) + s[|s| - 1]
  }

  /** `sum(s)` over floats, which the model takes as exact reals. */
  function SumR(s: seq<real>): real
  {
    if |s| == 0 then 0.0 else SumR(s[..|s| - 1]) + s[|s| - 1]
  }

  /** `math.prod(s)`, also from the back. */
  function Product(s: seq<int>): int
  {
    if |s| == 0 then 1 else Product(s[..|s| - 1]) * s[|s| - 1]
  }

  lemma {:induction false} SumAppend(a: seq<int>, b: seq<int>)
    ensures Sum(a + b) == Sum(a) + Sum(b)
    decreases |b|
  {
    if |b| == 0 {
      assert a + b == a;
    } else {
      assert (a + b)[..|a + b| - 1] == a + b[..|b| - 1];
      SumAppend(a, b[..|b| - 1]);
    }
  }

  lemma {:induction false} SumRAppend(a: seq<real>, b: seq<real>)
    ensures SumR(a + b) == SumR(a) + SumR(b)
    decreases |b|
  {
    if |b| == 0 {
      assert a + b == a;
    } else {
      assert (a + b)[..|a + b| - 1] == a + b[..|b| - 1];
      SumRAppend(a, b[..|b| - 1]);
    }
  }

  lemma {:induction false} ProductAppend(a: seq<int>, b: seq<int>)
    ensures Product(a + b) == Product(a) * Product(b)
    decreases |b|
  {
    if |b| == 0 {
      assert a + b == a;
    } else {
      assert (a + b)[..|a + b| - 1] == a + b[..|b| - 1];
      ProductAppend(a, b[..|b| - 1]);
    }
  }

  /** Head-first view of `Sum`. */
  lemma SumCons(s: seq<int>)
    requires |s| > 0
    ensures Sum(s) == s[0] + Sum(s[1..])
  {
    assert s == [s[0]] + s[1..];
    SumAppend([s[0]], s[1..]);
  }

  lemma SumRCons(s: seq<real>)
    requires |s| > 0
    ensures SumR(s) == s[0] + SumR(s[1..])
  {
    assert s == [s[0]] + s[1..];
    SumRAppend([s[0]], s[1..]);
  }

  lemma ProductCons(s: seq<int>)
    requires |s| > 0
    ensures Product(s) == s[0] * Product(s[1..])
  {
    assert s == [s[0]] + s[1..];
    ProductAppend([s[0]], s[1..]);
  }

  /** `[f(x) for x in s]`. */
  function Map<T, U>(f: T -> U, s: seq<T>): (r: seq<U>)
    ensures |r| == |s|
    ensures forall i :: 0 <= i < |s| ==> r[i] == f(s[i])
  {
    seq(|s|, i requires 0 <= i < |s| => f(s[i]))
  }

  /** `[x for x in s if p(x)]`. */
  function Filter<T>(p: T -> bool, s: seq<T>): (r: seq<T>)
  {
    if |s| == 0 then []
    else if p(s[0]) then [s[0]] + Filter(p, s[1..])
    else Filter(p, s[1..])
  }

  /** What the filter keeps: only elements of `s` that pass `p`. */
  lemma {:induction false} FilterSound<T>(p: T -> bool, s: seq<T>)
    ensures |Filter(p, s)| <= |s|
    ensures forall i :: 0 <= i < |Filter(p, s)| ==> p(Filter(p, s)[i]) && Filter(p, s)[i] in s
  {
    if |s| > 0 {
      FilterSound(p, s[1..]);
    }
  }

  lemma FilterSingle<T>(p: T -> bool, x: T)
    ensures Filter(p, [x]) == if p(x) then [x] else []
  {
    assert [x][1..] == [];
  }

  /** Every element of `s` that passes `p` survives the filter. */
  lemma {:induction false} FilterKeeps<T>(p: T -> bool, s: seq<T>, x: T)
    requires x in s && p(x)
    ensures x in Filter(p, s)
  {
    if s[0] != x {
      FilterKeeps(p, s[1..], x);
    }
  }

  lemma {:induction false} FilterAppend<T>(p: T -> bool, a: seq<T>, b: seq<T>)
    ensures Filter(p, a + b) == Filter(p, a) + Filter(p, b)
    decreases |a|
  {
    if |a| == 0 {
      assert a + b == b;
    } else {
      assert (a + b)[1..] == a[1..] + b;
      FilterAppend(p, a[1..], b);
    }
  }

  lemma RangeSnoc(lo: int, hi: int)
    requires lo <= hi
    ensures Range(lo, hi + 1) == Range(lo, hi) + [hi]
    decreases hi - lo
  {
    if lo < hi {
      RangeSnoc(lo + 1, hi);
    }
  }

  lemma {:induction false} RangeSplit(a: int, b: int, c: int)
    requires a <= b <= c
    ensures Range(a, c) == Range(a, b) + Range(b, c)
    decreases b - a
  {
    if a < b {
      RangeSplit(a + 1, b, c);
    }
  }

  /** Filtering a range one more value to the right. */
  lemma FilterRangeSnoc(p: int -> bool, lo: int, hi: int)
    requires lo <= hi
    ensures Filter(p, Range(lo, hi + 1)) == Filter(p, Range(lo, hi)) + (if p(hi) then [hi] else [])
  {
    RangeSnoc(lo, hi);
    FilterAppend(p, Range(lo, hi), [hi]);
    FilterSingle(p, hi);
  }

  /** Filtering a range one value from the left. */
  lemma FilterRangeCons(p: int -> bool, lo: int, hi: int)
    requires lo < hi
    ensures Filter(p, Range(lo, hi)) == (if p(lo) then [lo] else []) + Filter(p, Range(lo + 1, hi))
  {
    assert Range(lo, hi)[1..] == Range(lo + 1, hi);
  }

  /** `any(p(x) for x in s)`: scans from the front and stops at the first hit. */
  predicate Any<T>(p: T -> bool, s: seq<T>)
  {
    |s| > 0 && (p(s[0]) || Any(p, s[1..]))
  }

  /** `all(p(x) for x in s)`. */
  predicate All<T>(p: T -> bool, s: seq<T>)
  {
    forall i :: 0 <= i < |s| ==> p(s[i])
  }

  /** The short-circuit scan finds a hit exactly when one exists. */
  lemma {:induction false} AnyExists<T>(p: T -> bool, s: seq<T>)
    ensures Any(p, s) <==> exists i :: 0 <= i < |s| && p(s[i])
  {
    if |s| > 0 {
      AnyExists(p, s[1..]);
      if !p(s[0]) && (exists i :: 0 <= i < |s| && p(s[i])) {
        var i :| 0 <= i < |s| && p(s[i]);
        assert s[1..][i - 1] == s[i];
      }
    }
  }

  /** `zip(a, b)`: pairs up to the shorter length. */
  function Zip<A, B>(a: seq<A>, b: seq<B>): (r: seq<(A, B)>)
    ensures |r| == if |a| <= |b| then |a| else |b|
  {
    var n := if |a| <= |b| then |a| else |b|;
    seq(n, i requires 0 <= i < n => (a[i], b[i]))
  }

  /** `reversed(s)`. */
  function Reverse<T>(s: seq<T>): (r: seq<T>)
    ensures |r| == |s|
    ensures forall i :: 0 <= i < |s| ==> r[i] == s[|s| - 1 - i]
  {
    if |s| == 0 then [] else Reverse(s[1..]) + [s[0]]
  }

  /** Concatenation of the rows, `[x for row in rows for x in row]`. */
  function Flatten<T>(rows: seq<seq<T>>): seq<T>
  {
    if |rows| == 0 then [] else rows[0] + Flatten(rows[1..])
  }

  lemma FlattenCons<T>(x: seq<T>, rest: seq<seq<T>>)
    ensures Flatten([x] + rest) == x + Flatten(rest)
  {
    assert ([x] + rest)[1..] == rest;
  }

  lemma {:induction false} FlattenAppend<T>(a: seq<seq<T>>, b: seq<seq<T>>)
    ensures Flatten(a + b) == Flatten(a) + Flatten(b)
    decreases |a|
  {
    if |a| == 0 {
      assert a + b == b;
    } else {
      assert (a + b)[1..] == a[1..] + b;
      FlattenAppend(a[1..], b);
    }
  }

  /** `functools.reduce(f, s, init)`: a left fold. */
  function FoldLeft<A, T>(f: (A, T) -> A, init: A, s: seq<T>): A
    decreases |s|
  {
    if |s| == 0 then init else FoldLeft(f, f(init, s[0]), s[1..])
  }

  /** `functools.reduce(f, s)` without an initial value: empty input raises TypeError. */
  function Reduce<T>(f: (T, T) -> T, s: seq<T>): Outcome<T>
  {
    if |s| == 0 then Raised(TypeError) else Ok(FoldLeft(f, s[0], s[1..]))
  }

  lemma {:induction false} FoldLeftAppend<A, T>(f: (A, T) -> A, init: A, a: seq<T>, b: seq<T>)
    ensures FoldLeft(f, init, a + b) == FoldLeft(f, FoldLeft(f, init, a), b)
    decreases |a|
  {
    if |a| == 0 {
      assert a + b == b;
    } else {
      assert (a + b)[1..] == a[1..] + b;
      FoldLeftAppend(f, f(init, a[0]), a[1..], b);
    }
  }

  /** Folding with `+` from any start adds the sum of the sequence. */
  lemma {:induction false} FoldAddIsSum(init: int, s: seq<int>)
    ensures FoldLeft((a: int, b: int) => a + b, init, s) == init + Sum(s)
    decreases |s|
  {
    if |s| > 0 {
      SumCons(s);
      FoldAddIsSum(init + s[0], s[1..]);
    }
  }

  /** Folding with `*` from any start multiplies by the product of the sequence. */
  lemma {:induction false} FoldMulIsProduct(init: int, s: seq<int>)
    ensures FoldLeft((a: int, b: int) => a * b, init, s) == init * Product(s)
    decreases |s|
  {
    if |s| > 0 {
      ProductCons(s);
      FoldMulIsProduct(init * s[0], s[1..]);
    }
  }

  // ---------------------------------------------------------------------------
  // Strings

  /**
   * The characters `str.isspace()` accepts, which `str.split()`, `str.strip()`
   * and `int()` skip: the ASCII controls and space, and the Unicode spaces and
   * line and paragraph separators.
   */
  predicate IsSpace(c: char)
  {
    c == ' ' || c == '\t' || c == '\n' || c == '\r' || c == '\U{B}' || c == '\U{C}'
    || ('\U{1C}' <= c <= '\U{1F}')
    || c == '\U{85}' || c == '\U{A0}' || c == '\U{1680}'
    || ('\U{2000}' <= c <= '\U{200A}')
    || c == '\U{2028}' || c == '\U{2029}' || c == '\U{202F}' || c == '\U{205F}' || c == '\U{3000}'
  }

  /** `s.split(sep)` for a one-character separator. */
  function Split(s: string, sep: char): (parts: seq<string>)
    ensures |parts| >= 1
  {
    if |s| == 0 then [""]
    else
      var rest := Split(s[1..], sep);
      if s[0] == sep then [""] + rest
      else [[s[0]] + rest[0]] + rest[1..]
  }

  /** No part of a split contains the separator. */
  lemma {:induction false} SplitPartsFree(s: string, sep: char)
    ensures forall i :: 0 <= i < |Split(s, sep)| ==> sep !in Split(s, sep)[i]
  {
    if |s| > 0 {
      SplitPartsFree(s[1..], sep);
    }
  }

  /** The lines of a text: split at '\n', without an empty piece after a final newline. */
  function Lines(s: string): seq<string>
  {
    if |s| == 0 then []
    else
      var parts := Split(s, '\n');
      if s[|s| - 1] == '\n' then parts[..|parts| - 1] else parts
  }

  /** `sep.join(parts)`. */
  function Join(parts: seq<string>, sep: string): string
  {
    if |parts| == 0 then ""
    else if |parts| == 1 then parts[0]
    else parts[0] + sep + Join(parts[1..], sep)
  }

  /** Splitting and re-joining on the same separator gives the text back. */
  lemma {:induction false} JoinSplit(s: string, sep: char)
    ensures Join(Split(s, sep), [sep]) == s
  {
    if |s| > 0 {
      JoinSplit(s[1..], sep);
      var rest := Split(s[1..], sep);
      if s[0] == sep {
        assert s == [sep] + s[1..];
      } else if |rest| == 1 {
        assert s == [s[0]] + s[1..];
      } else {
        assert Join(rest, [sep]) == rest[0] + [sep] + Join(rest[1..], [sep]);
        assert s == [s[0]] + s[1..];
      }
    }
  }

  /** Joining separator-free parts and splitting again gives the parts back. */
  lemma {:induction false} SplitJoin(parts: seq<string>, sep: char)
    requires |parts| >= 1
    requires forall i :: 0 <= i < |parts| ==> sep !in parts[i]
    ensures Split(Join(parts, [sep]), sep) == parts
    decreases |parts|, |parts[0]|, 1
  {
    if |parts[0]| == 0 {
      if |parts| > 1 {
        var rest := parts[1..];
        SplitJoin(rest, sep);
        assert Join(parts, [sep]) == [sep] + Join(rest, [sep]);
        assert Join(parts, [sep])[1..] == Join(rest, [sep]);
        assert parts == [""] + rest;
      }
    } else {
      SplitJoinFirstChar(parts, sep);
    }
  }

  /** The case of a non-empty first part: its first character starts the first piece. */
  lemma {:induction false} SplitJoinFirstChar(parts: seq<string>, sep: char)
    requires |parts| >= 1 && |parts[0]| > 0
    requires forall i :: 0 <= i < |parts| ==> sep !in parts[i]
    ensures Split(Join(parts, [sep]), sep) == parts
    decreases |parts|, |parts[0]|, 0
  {
    var c := parts[0][0];
    var shorter := [parts[0][1..]] + parts[1..];
    assert sep !in shorter[0];
    assert forall i :: 1 <= i < |shorter| ==> shorter[i] == parts[i];
    SplitJoin(shorter, sep);
    var t := Join(parts, [sep]);
    assert t == [c] + Join(shorter, [sep]) by {
      if |parts| > 1 {
        assert t == parts[0] + [sep] + Join(parts[1..], [sep]);
      }
    }
    assert t[1..] == Join(shorter, [sep]);
    assert c != sep;
    assert Split(t, sep) == [[c] + shorter[0]] + shorter[1..];
    assert [c] + shorter[0] == parts[0];
    assert parts == [parts[0]] + parts[1..];
  }

  /** `s.split()`: the maximal runs of non-whitespace characters. */
  function Words(s: string): seq<string>
  {
    if |s| == 0 then []
    else
      var rest := Words(s[1..]);
      if IsSpace(s[0]) then rest
      else if |s| > 1 && !IsSpace(s[1]) && |rest| > 0 then [[s[0]] + rest[0]] + rest[1..]
      else [[s[0]]] + rest
  }

  /** A text starting with a non-blank character has a first word, starting with that character. */
  lemma WordsFirst(s: string)
    requires |s| > 0 && !IsSpace(s[0])
    ensures |Words(s)| > 0 && |Words(s)[0]| > 0 && Words(s)[0][0] == s[0]
  {
    if |s| > 1 && !IsSpace(s[1]) {
      WordsFirst(s[1..]);
    }
  }

  /** The words are non-empty and hold no whitespace; an all-blank text has none. */
  lemma {:induction false} WordsShape(s: string)
    ensures forall i :: 0 <= i < |Words(s)| ==> |Words(s)[i]| > 0
    ensures forall i, j :: 0 <= i < |Words(s)| && 0 <= j < |Words(s)[i]| ==> !IsSpace(Words(s)[i][j])
    ensures (forall k :: 0 <= k < |s| ==> IsSpace(s[k])) ==> Words(s) == []
  {
    if |s| > 0 {
      WordsShape(s[1..]);
    }
  }

  lemma WordsAfterSpace(c: char, t: string)
    requires IsSpace(c)
    ensures Words([c] + t) == Words(t)
  {
    assert ([c] + t)[1..] == t;
  }

  lemma WordsExtend(c: char, t: string)
    requires !IsSpace(c) && |t| > 0 && !IsSpace(t[0])
    ensures |Words(t)| > 0
    ensures Words([c] + t) == [[c] + Words(t)[0]] + Words(t)[1..]
  {
    assert ([c] + t)[1..] == t;
    WordsFirst(t);
  }

  lemma WordsStart(c: char, t: string)
    requires !IsSpace(c) && (|t| == 0 || IsSpace(t[0]))
    ensures Words([c] + t) == [[c]] + Words(t)
  {
    assert ([c] + t)[1..] == t;
  }

  lemma ConsAssoc<T>(h: T, wu: seq<T>, wv: seq<T>, wb: seq<T>)
    requires wu == wv + wb
    ensures [h] + wu == ([h] + wv) + wb
  {
  }

  lemma ExtendAssoc<T>(h: seq<T>, wu: seq<seq<T>>, wv: seq<seq<T>>, wb: seq<seq<T>>)
    requires |wv| > 0 && wu == wv + wb
    ensures [h + wu[0]] + wu[1..] == ([h + wv[0]] + wv[1..]) + wb
  {
    assert wu[1..] == wv[1..] + wb;
  }

  /** A whitespace character between two texts separates their words. */
  lemma {:induction false} WordsSep(a: string, c: char, b: string)
    requires IsSpace(c)
    ensures Words(a + [c] + b) == Words(a) + Words(b)
    decreases |a|
  {
    if |a| == 0 {
      assert a + [c] + b == [c] + b;
      WordsAfterSpace(c, b);
    } else {
      var x := a[0];
      var rest := a[1..];
      var u := rest + [c] + b;
      assert a + [c] + b == [x] + u;
      assert a == [x] + rest;
      WordsSep(rest, c, b);
      if IsSpace(x) {
        WordsAfterSpace(x, u);
        WordsAfterSpace(x, rest);
      } else if |rest| > 0 && !IsSpace(rest[0]) {
        WordsExtend(x, u);
        WordsExtend(x, rest);
        ExtendAssoc([x], Words(u), Words(rest), Words(b));
      } else {
        WordsStart(x, u);
        WordsStart(x, rest);
        ConsAssoc([x], Words(u), Words(rest), Words(b));
      }
    }
  }

  /** The words of lines joined by a whitespace character are the words of each line, in order. */
  lemma {:induction false} WordsOfJoin(parts: seq<string>, c: char)
    requires IsSpace(c)
    ensures Words(Join(parts, [c])) == Flatten(Map(Words, parts))
    decreases |parts|
  {
    if |parts| == 1 {
      assert Flatten(Map(Words, parts)) == Words(parts[0]) + Flatten(Map(Words, parts)[1..]);
      assert Map(Words, parts)[1..] == [];
    } else if |parts| > 1 {
      WordsOfJoin(parts[1..], c);
      assert Join(parts, [c]) == parts[0] + [c] + Join(parts[1..], [c]);
      WordsSep(parts[0], c, Join(parts[1..], [c]));
      assert Map(Words, parts)[1..] == Map(Words, parts[1..]);
    }
  }

  /** A non-empty text without whitespace is a single word. */
  lemma {:induction false} WordsOfWord(w: string)
    requires |w| > 0 && forall j :: 0 <= j < |w| ==> !IsSpace(w[j])
    ensures Words(w) == [w]
    decreases |w|
  {
    assert w == [w[0]] + w[1..];
    if |w| == 1 {
      WordsStart(w[0], "");
      assert [w[0]] + "" == w;
      assert [w[0]] == w;
      assert Words("") == [];
    } else {
      WordsOfWord(w[1..]);
      WordsExtend(w[0], w[1..]);
    }
  }

  lemma {:induction false} FlattenWords(ws: seq<string>)
    requires forall i :: 0 <= i < |ws| ==> |ws[i]| > 0
    requires forall i, j :: 0 <= i < |ws| && 0 <= j < |ws[i]| ==> !IsSpace(ws[i][j])
    ensures Flatten(Map(Words, ws)) == ws
  {
    if |ws| > 0 {
      WordsOfWord(ws[0]);
      FlattenWords(ws[1..]);
      assert Map(Words, ws)[1..] == Map(Words, ws[1..]);
      assert ws == [ws[0]] + ws[1..];
    }
  }

  /** Single-space-joined words split back into the same words. */
  lemma WordsJoin(ws: seq<string>)
    requires forall i :: 0 <= i < |ws| ==> |ws[i]| > 0
    requires forall i, j :: 0 <= i < |ws| && 0 <= j < |ws[i]| ==> !IsSpace(ws[i][j])
    ensures Words(Join(ws, " ")) == ws
  {
    WordsOfJoin(ws, ' ');
    FlattenWords(ws);
  }

  /** A text ending in the separator splits into at least two parts, the last one empty. */
  lemma {:induction false} SplitEndsEmpty(s: string, sep: char)
    requires |s| > 0 && s[|s| - 1] == sep
    ensures |Split(s, sep)| >= 2 && Split(s, sep)[|Split(s, sep)| - 1] == ""
  {
    if |s| > 1 {
      SplitEndsEmpty(s[1..], sep);
    }
  }

  /** A final empty line has no words. */
  lemma WordsDropEmptyLast(parts: seq<string>)
    requires |parts| >= 1 && parts[|parts| - 1] == ""
    ensures Flatten(Map(Words, parts[..|parts| - 1])) == Flatten(Map(Words, parts))
  {
    var front := parts[..|parts| - 1];
    assert parts == front + [""];
    assert Map(Words, parts) == Map(Words, front) + [Words("")];
    FlattenAppend(Map(Words, front), [Words("")]);
    assert Flatten([Words("")]) == [] + Flatten([Words("")][1..]);
  }

  /** Splitting a text into lines loses no words. */
  lemma WordsOfLines(s: string)
    ensures Flatten(Map(Words, Lines(s))) == Words(s)
  {
    if |s| > 0 {
      var parts := Split(s, '\n');
      assert Words(s) == Flatten(Map(Words, parts)) by {
        JoinSplit(s, '\n');
        WordsOfJoin(parts, '\n');
      }
      if s[|s| - 1] == '\n' {
        SplitEndsEmpty(s, '\n');
        WordsDropEmptyLast(parts);
      }
    }
  }

  /** `s.strip()`: drops leading and trailing whitespace. */
  function Strip(s: string): (r: string)
    ensures |r| > 0 ==> !IsSpace(r[0]) && !IsSpace(r[|r| - 1])
  {
    StripRight(StripLeft(s))
  }

  function StripLeft(s: string): (r: string)
    ensures |r| > 0 ==> !IsSpace(r[0])
    ensures |r| <= |s| && r == s[|s| - |r|..]
  {
    if |s| > 0 && IsSpace(s[0]) then StripLeft(s[1..]) else s
  }

  function StripRight(s: string): (r: string)
    ensures |r| > 0 ==> !IsSpace(r[|r| - 1])
    ensures |s| > 0 && !IsSpace(s[0]) ==> |r| > 0 && r[0] == s[0]
    ensures |r| <= |s| && r == s[..|r|]
  {
    if |s| > 0 && IsSpace(s[|s| - 1]) then StripRight(s[..|s| - 1]) else s
  }

  /** ASCII lower-casing, as `str.lower()` does on ASCII text. */
  function LowerChar(c: char): char
  {
    if 'A' <= c <= 'Z' then (c as int + 32) as char else c
  }

  /** ASCII upper-casing, as `str.upper()` does on ASCII text. */
  function UpperChar(c: char): char
  {
    if 'a' <= c <= 'z' then (c as int - 32) as char else c
  }

  function Lower(s: string): (r: string)
    ensures |r| == |s|
  {
    seq(|s|, i requires 0 <= i < |s| => LowerChar(s[i]))
  }

  function Upper(s: string): (r: string)
    ensures |r| == |s|
  {
    seq(|s|, i requires 0 <= i < |s| => UpperChar(s[i]))
  }

  // ---------------------------------------------------------------------------
  // Integers and their decimal text

  predicate IsDigit(c: char) { '0' <= c <= '9' }

  function DigitChar(d: int): char
    requires 0 <= d < 10
  {
    ('0' as int + d) as char
  }

  /** The value of a string of ASCII digits, most significant first. */
  function DigitsValue(s: string): nat
    requires forall i :: 0 <= i < |s| ==> IsDigit(s[i])
  {
    if |s| == 0 then 0
    else
      assert IsDigit(s[|s| - 1]);
      10 * DigitsValue(s[..|s| - 1]) + (s[|s| - 1] as int - '0' as int)
  }

  /** `str(n)` for a natural number. */
  function NatToString(n: nat): (r: string)
    ensures |r| > 0
    ensures forall i :: 0 <= i < |r| ==> IsDigit(r[i])
    ensures DigitsValue(r) == n
    ensures r[0] == '0' ==> n == 0
  {
    if n < 10 then [DigitChar(n)]
    else
      var front := NatToString(n / 10);
      var r := front + [DigitChar(n % 10)];
      assert r[..|r| - 1] == front;
      r
  }

  /** `str(i)`. */
  function IntToString(i: int): (r: string)
    ensures |r| > 0
  {
    if i < 0 then "-" + NatToString(-i) else NatToString(i)
  }

  /** `int(s)` on plain decimal text: optional sign, ASCII digits, surrounding whitespace. */
  function ParseInt(s: string): Option<int>
  {
    var t := Strip(s);
    if |t| > 0 && (t[0] == '-' || t[0] == '+') then
      var ds := t[1..];
      if |ds| > 0 && forall i :: 0 <= i < |ds| ==> IsDigit(ds[i]) then
        var n: int := DigitsValue(ds);
        Some(if t[0] == '-' then -n else n)
      else None
    else if |t| > 0 && forall i :: 0 <= i < |t| ==> IsDigit(t[i]) then
      Some(DigitsValue(t))
    else None
  }

  lemma StripNoSpace(s: string)
    requires |s| > 0 && !IsSpace(s[0]) && !IsSpace(s[|s| - 1])
    ensures Strip(s) == s
  {
  }

  /** `int(str(i)) == i`. */
  lemma ParseIntToString(i: int)
    ensures ParseInt(IntToString(i)) == Some(i)
  {
    var r := IntToString(i);
    StripNoSpace(r);
    if i < 0 {
      assert r[1..] == NatToString(-i);
    }
  }
}
