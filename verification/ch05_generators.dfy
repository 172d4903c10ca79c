/**
 * Chapter 5, higher-order functions: `map` and `filter` written as generator
 * functions, flattening a text into numbers, `first`, a primality test built
 * on it, a map that skips failures, and two callable classes (`NullAware`,
 * `Sum_Filter`).
 */
module Ch05Generators {
  import opened Py
  import opened Arith
  import Ch04Structure

  /** `mymap(f, C)`: the generator function that yields f(x) for every x. */
  method MyMap<T, U>(f: T -> U, c: seq<T>) returns (r: seq<U>)
    ensures r == Map(f, c)
  {
    r := [];
    for i := 0 to |c|
      invariant |r| == i
      invariant forall k :: 0 <= k < i ==> r[k] == f(c[k])
    {
      r := r + [f(c[i])];
    }
  }

  /** `myfilter(f, C)`: the generator function that yields the x with f(x), in order. */
  method MyFilter<T>(f: T -> bool, c: seq<T>) returns (r: seq<T>)
    ensures r == Filter(f, c)
  {
    r := [];
    for i := 0 to |c|
      invariant r == Filter(f, c[..i])
    {
      assert c[..i + 1] == c[..i] + [c[i]];
      FilterAppend(f, c[..i], [c[i]]);
      FilterSingle(f, c[i]);
      if f(c[i]) {
        r := r + [c[i]];
      }
    }
    assert c[..|c|] == c;
  }

  // ---------------------------------------------------------------------------
  // Flattening a text into numbers

  /**
   * `list(map(conversion, tokens))`: every token converted, or the exception of
   * the first one the conversion rejects.
   */
  function ConvertAll<T>(conversion: string -> Outcome<T>, tokens: seq<string>): Outcome<seq<T>>
  {
    if |tokens| == 0 then Ok([])
    else
      var x :- conversion(tokens[0]);
      var rest :- ConvertAll(conversion, tokens[1..]);
      Ok([x] + rest)
  }

  /**
   * The conversion succeeds exactly when every token converts, and then holds
   * each token's value in order; otherwise it raises what some token raised.
   */
  lemma {:induction false} ConvertAllSpec<T>(conversion: string -> Outcome<T>, tokens: seq<string>)
    ensures ConvertAll(conversion, tokens).Ok? <==> forall i :: 0 <= i < |tokens| ==> conversion(tokens[i]).Ok?
    ensures ConvertAll(conversion, tokens).Ok? ==>
      |ConvertAll(conversion, tokens).value| == |tokens|
      && forall i :: 0 <= i < |tokens| ==> ConvertAll(conversion, tokens).value[i] == conversion(tokens[i]).value
    ensures ConvertAll(conversion, tokens).Raised? ==>
      exists i :: 0 <= i < |tokens| && conversion(tokens[i]) == Raised(ConvertAll(conversion, tokens).exc)
  {
    if |tokens| > 0 {
      ConvertAllSpec(conversion, tokens[1..]);
      assert forall i :: 1 <= i < |tokens| ==> tokens[i] == tokens[1..][i - 1];
      if conversion(tokens[0]).Ok? && ConvertAll(conversion, tokens[1..]).Raised? {
        var i :| 0 <= i < |tokens[1..]| && conversion(tokens[1..][i]) == Raised(ConvertAll(conversion, tokens[1..]).exc);
        assert conversion(tokens[i + 1]) == Raised(ConvertAll(conversion, tokens).exc);
      }
    }
  }

  /** Converting two runs of tokens one after the other. */
  lemma {:induction false} ConvertAllAppend<T>(conversion: string -> Outcome<T>, a: seq<string>, b: seq<string>)
    ensures ConvertAll(conversion, a + b)
         == match ConvertAll(conversion, a)
            case Raised(e) => Raised(e)
            case Ok(xs) =>
              match ConvertAll(conversion, b)
              case Raised(e) => Raised(e)
              case Ok(ys) => Ok(xs + ys)
    decreases |a|
  {
    if |a| == 0 {
      assert a + b == b;
      assert ConvertAll(conversion, a) == Ok([]);
      if ConvertAll(conversion, b).Ok? {
        assert [] + ConvertAll(conversion, b).value == ConvertAll(conversion, b).value;
      }
    } else {
      assert (a + b)[0] == a[0];
      assert (a + b)[1..] == a[1..] + b;
      ConvertAllAppend(conversion, a[1..], b);
      var head := conversion(a[0]);
      if head.Ok? {
        var tail := ConvertAll(conversion, a[1..]);
        if tail.Ok? {
          assert ConvertAll(conversion, a) == Ok([head.value] + tail.value);
          var rest := ConvertAll(conversion, b);
          if rest.Ok? {
            assert ConvertAll(conversion, a + b) == Ok([head.value] + (tail.value + rest.value));
            assert [head.value] + (tail.value + rest.value) == ([head.value] + tail.value) + rest.value;
          }
        }
      }
    }
  }

  /** The tokens of the lines, line after line: `for line in lines for char in line.split()`. */
  function NumbersFromLines<T>(conversion: string -> Outcome<T>, lines: seq<string>): Outcome<seq<T>>
  {
    if |lines| == 0 then Ok([])
    else
      var first :- ConvertAll(conversion, Words(lines[0]));
      var rest :- NumbersFromLines(conversion, lines[1..]);
      Ok(first + rest)
  }

  /** `list(numbers_from_rows(conversion, text))`, with `splitlines` taken at '\n'. */
  function NumbersFromRows<T>(conversion: string -> Outcome<T>, text: string): Outcome<seq<T>>
  {
    NumbersFromLines(conversion, Lines(text))
  }

  /** The nested comprehension converts the flattened tokens, as the `map` over the flat token stream does. */
  lemma {:induction false} NumbersFromLinesFlat<T>(conversion: string -> Outcome<T>, lines: seq<string>)
    ensures NumbersFromLines(conversion, lines) == ConvertAll(conversion, Flatten(Map(Words, lines)))
    decreases |lines|
  {
    if |lines| > 0 {
      NumbersFromLinesFlat(conversion, lines[1..]);
      assert Map(Words, lines)[1..] == Map(Words, lines[1..]);
      assert Flatten(Map(Words, lines)) == Words(lines[0]) + Flatten(Map(Words, lines[1..]));
      ConvertAllAppend(conversion, Words(lines[0]), Flatten(Map(Words, lines[1..])));
    }
  }

  /**
   * `numbers_from_rows` converts exactly the whitespace-separated tokens of the
   * whole text, in order: line breaks separate tokens like any other blank.
   */
  lemma NumbersFromRowsIsMapOverTokens<T>(conversion: string -> Outcome<T>, text: string)
    ensures NumbersFromRows(conversion, text) == ConvertAll(conversion, Words(text))
  {
    NumbersFromLinesFlat(conversion, Lines(text));
    WordsOfLines(text);
  }

  // ---------------------------------------------------------------------------
  // Structuring data while filtering

  /** `list(groupby_iterative(n, iterator))`: the same loop as chapter 4's `group_by_v2`. */
  function GroupbyIterative<T>(n: int, s: seq<T>): Run<seq<T>>
  {
    Ch04Structure.GroupByV2(n, s)
  }

  /** `list(groupby_and_filter(n, predicate, iterable))`: the rows are taken from `filter(predicate, iterable)`; `keep` is the predicate. */
  function GroupbyAndFilter<T>(n: int, keep: T -> bool, s: seq<T>): Run<seq<T>>
  {
    var data := Filter(keep, s);
    Ch04Structure.GroupByV2(n, data)
  }

  /**
   * As written, for n > 0 merging the filter into the grouping changes
   * nothing: both yield the full rows of n kept items, every item passing the
   * predicate, and then end in `RuntimeError` when the filter runs dry.
   */
  lemma GroupbyAndFilterAsWritten<T>(n: int, keep: T -> bool, s: seq<T>)
    requires n > 0
    ensures GroupbyAndFilter(n, keep, s) == GroupbyIterative(n, Filter(keep, s))
    ensures GroupbyAndFilter(n, keep, s) == Run(Ch04Structure.Chunks(n, Filter(keep, s)), Some(RuntimeError))
    ensures forall k, j :: 0 <= k < |GroupbyAndFilter(n, keep, s).yielded| && 0 <= j < |GroupbyAndFilter(n, keep, s).yielded[k]| ==>
      |GroupbyAndFilter(n, keep, s).yielded[k]| == n && keep(GroupbyAndFilter(n, keep, s).yielded[k][j])
  {
    var data := Filter(keep, s);
    Ch04Structure.GroupByV2AsWritten(n, data);
    Ch04Structure.ChunksShape(n, data);
    FilterSound(keep, s);
    var rows := Ch04Structure.Chunks(n, data);
    forall k, j | 0 <= k < |rows| && 0 <= j < |rows[k]|
      ensures |rows[k]| == n && keep(rows[k][j])
    {
      assert rows[k] == data[k * n .. k * n + n];
      assert rows[k][j] == data[k * n + j];
    }
  }

  /**
   * The evidently intended grouping of the filtered items ends normally and
   * its rows, the last possibly short, hold exactly the kept items in order.
   */
  lemma GroupbyAndFilterIntended<T>(n: int, keep: T -> bool, s: seq<T>)
    requires n > 0
    ensures Ch04Structure.GroupByV2Intended(n, Filter(keep, s)).raised == None
    ensures Flatten(Ch04Structure.GroupByV2Intended(n, Filter(keep, s)).yielded) == Filter(keep, s)
  {
    Ch04Structure.GroupByV2IntendedIsChunks(n, Filter(keep, s));
  }

  // ---------------------------------------------------------------------------
  // first and isprime

  /** `first(predicate, collection)`: the first x with predicate(x), or None. */
  function First<T>(p: T -> bool, s: seq<T>): Option<T>
  {
    if |s| == 0 then None
    else if p(s[0]) then Some(s[0])
    else First(p, s[1..])
  }

  /** `first` finds nothing exactly when nothing passes, and otherwise the earliest item that passes. */
  lemma {:induction false} FirstSpec<T>(p: T -> bool, s: seq<T>)
    ensures First(p, s).None? <==> forall i :: 0 <= i < |s| ==> !p(s[i])
    ensures First(p, s).Some? ==>
      exists i :: 0 <= i < |s| && s[i] == First(p, s).value && p(s[i]) && forall j :: 0 <= j < i ==> !p(s[j])
  {
    if |s| > 0 && !p(s[0]) {
      FirstSpec(p, s[1..]);
      assert forall i :: 1 <= i < |s| ==> s[i] == s[1..][i - 1];
      if First(p, s).Some? {
        var k :| 0 <= k < |s[1..]| && s[1..][k] == First(p, s).value && p(s[1..][k])
          && forall j :: 0 <= j < k ==> !p(s[1..][j]);
        assert s[k + 1] == First(p, s).value;
      }
    }
  }

  /** `first` is the head of the filtered sequence. */
  lemma {:induction false} FirstIsHeadOfFilter<T>(p: T -> bool, s: seq<T>)
    ensures First(p, s) == if |Filter(p, s)| == 0 then None else Some(Filter(p, s)[0])
  {
    if |s| > 0 && !p(s[0]) {
      FirstIsHeadOfFilter(p, s[1..]);
    }
  }

  /** `lambda n: x % n == 0`; the candidates are never 0. */
  function DividedBy(x: int): int -> bool
  {
    n => Divides(n, x)
  }

  /**
   * `isprime(x)`: 2 is prime, other even numbers are not, and an odd x is
   * prime when `first` finds no divisor among the odd numbers 3 ..
   * int(sqrt(x) + 0.5).  `math.sqrt` rejects a negative x with ValueError;
   * for 1 the candidate range is empty, so 1 is reported prime.
   */
  function IsPrimeFirst(x: int): (r: Outcome<bool>)
    ensures r.Raised? <==> x < 0 && x % 2 == 1
    ensures r.Raised? ==> r.exc == ValueError
  {
    if x == 2 then Ok(true)
    else if x % 2 == 0 then Ok(false)
    else if x < 0 then Raised(ValueError)
    else Ok(First(DividedBy(x), RangeStep(3, RoundSqrt(x) + 1, 2)).None?)
  }

  lemma NoCandidateDivides(x: int, bound: int, p: int)
    requires First(DividedBy(x), RangeStep(3, bound + 1, 2)).None?
    requires 3 <= p <= bound && p % 2 == 1
    ensures !Divides(p, x)
  {
    var cs := RangeStep(3, bound + 1, 2);
    assert p in cs by {
      OddMinusThree(p);
      RangeStep2Members(3, bound + 1, p);
    }
    var i :| 0 <= i < |cs| && cs[i] == p;
    assert !DividedBy(x)(cs[i]) by {
      FirstSpec(DividedBy(x), cs);
    }
  }

  lemma FoundCandidateDivides(x: int, bound: int)
    requires First(DividedBy(x), RangeStep(3, bound + 1, 2)).Some?
    ensures !NoOddDivisor(x, 3, bound)
  {
    var cs := RangeStep(3, bound + 1, 2);
    var p := First(DividedBy(x), cs).value;
    assert p in cs && Divides(p, x) by {
      FirstSpec(DividedBy(x), cs);
      var i :| 0 <= i < |cs| && cs[i] == p && DividedBy(x)(cs[i]) && forall j :: 0 <= j < i ==> !DividedBy(x)(cs[j]);
    }
    assert 3 <= p <= bound && p % 2 == 1 by {
      RangeStep2Members(3, bound + 1, p);
      OddOffset(p);
    }
    WitnessOddDivisor(x, 3, bound, p);
  }

  lemma WitnessOddDivisor(x: int, lo: int, hi: int, p: int)
    requires lo <= p <= hi && p % 2 == 1 && Divides(p, x)
    ensures !NoOddDivisor(x, lo, hi)
  {
  }

  /** `first` finds no divisor among the odd candidates exactly when there is no odd divisor up to the bound. */
  lemma FirstFindsOddDivisor(x: int, bound: int)
    ensures First(DividedBy(x), RangeStep(3, bound + 1, 2)).None? <==> NoOddDivisor(x, 3, bound)
  {
    if First(DividedBy(x), RangeStep(3, bound + 1, 2)).None? {
      forall p | 3 <= p <= bound && p % 2 == 1
        ensures !Divides(p, x)
      {
        NoCandidateDivides(x, bound, p);
      }
    } else {
      FoundCandidateDivides(x, bound);
    }
  }

  /** For x >= 2 the test is exact: it reports x prime iff x is prime. */
  lemma IsPrimeFirstFromTwo(x: int)
    requires x >= 2
    ensures IsPrimeFirst(x) == Ok(IsPrime(x))
  {
    if x % 2 == 0 && x != 2 {
      assert Divides(2, x);
    } else if x >= 3 {
      ISqrtBelowRoundSqrt(x);
      RoundSqrtBelow(x);
      OddTrialDivision(x, RoundSqrt(x));
      FirstFindsOddDivisor(x, RoundSqrt(x));
    }
  }

  /** The quirk: 1 is reported prime. */
  lemma IsPrimeFirstOfOne()
    ensures IsPrimeFirst(1) == Ok(true)
    ensures !IsPrime(1)
  {
    assert RoundSqrt(1) == 1;
    assert RangeStep(3, 2, 2) == [];
  }

  /** The evident intent: numbers below 2 are not prime. */
  function IsPrimeFirstIntended(x: int): (r: Outcome<bool>)
    ensures r == Ok(IsPrime(x))
  {
    if x < 2 then Ok(false)
    else
      IsPrimeFirstFromTwo(x);
      IsPrimeFirst(x)
  }

  // ---------------------------------------------------------------------------
  // map_not_none

  /** `list(map_not_none(function, iterable))`: the results of the calls that did not raise. */
  function MapNotNone<T, U>(f: T -> Outcome<U>, s: seq<T>): seq<U>
  {
    if |s| == 0 then []
    else (if f(s[0]).Ok? then [f(s[0]).value] else []) + MapNotNone(f, s[1..])
  }

  function Succeeds<T, U>(f: T -> Outcome<U>): T -> bool
  {
    x => f(x).Ok?
  }

  /** The results are, in order, f applied to exactly the items on which it does not raise. */
  lemma {:induction false} MapNotNoneIsFilteredMap<T, U>(f: T -> Outcome<U>, s: seq<T>)
    ensures |MapNotNone(f, s)| == |Filter(Succeeds(f), s)|
    ensures forall k :: 0 <= k < |MapNotNone(f, s)| ==>
      f(Filter(Succeeds(f), s)[k]).Ok? && MapNotNone(f, s)[k] == f(Filter(Succeeds(f), s)[k]).value
  {
    if |s| > 0 {
      MapNotNoneIsFilteredMap(f, s[1..]);
      FilterSound(Succeeds(f), s);
    }
  }

  /** The values of the example list: ints, a string and None. */
  datatype Value = IntValue(i: int) | StrValue(s: string) | NoneValue

  /** `int(v)`: ints pass, strings go through the text parser, None is a TypeError. */
  function ToInt(parse: string -> Option<int>, v: Value): (r: Outcome<int>)
    ensures v.IntValue? ==> r == Ok(v.i)
    ensures v.NoneValue? ==> r == Raised(TypeError)
    ensures v.StrValue? ==> (r.Ok? <==> parse(v.s).Some?)
  {
    match v
    case IntValue(i) => Ok(i)
    case StrValue(s) => if parse(s).Some? then Ok(parse(s).value) else Raised(ValueError)
    case NoneValue => Raised(TypeError)
  }

  function IntOf(parse: string -> Option<int>): Value -> Outcome<int>
  {
    v => ToInt(parse, v)
  }

  lemma MapNotNoneExampleTail(parse: string -> Option<int>)
    ensures MapNotNone(IntOf(parse), [NoneValue, IntValue(3), IntValue(6), IntValue(8)]) == [3, 6, 8]
  {
    var s := [NoneValue, IntValue(3), IntValue(6), IntValue(8)];
    var f := IntOf(parse);
    assert s[3..][1..] == [];
    assert MapNotNone(f, s[3..]) == [8];
    assert s[2..][1..] == s[3..];
    assert MapNotNone(f, s[2..]) == [6, 8];
    assert s[1..][1..] == s[2..];
    assert MapNotNone(f, s[1..]) == [3, 6, 8];
  }

  lemma MapNotNoneExampleMiddle(parse: string -> Option<int>)
    requires parse("e").None?
    ensures MapNotNone(IntOf(parse), [StrValue("e"), IntValue(7), NoneValue, IntValue(3), IntValue(6), IntValue(8)])
         == [7, 3, 6, 8]
  {
    var s := [StrValue("e"), IntValue(7), NoneValue, IntValue(3), IntValue(6), IntValue(8)];
    var f := IntOf(parse);
    MapNotNoneExampleTail(parse);
    assert s[2..] == [NoneValue, IntValue(3), IntValue(6), IntValue(8)];
    assert s[1..][1..] == s[2..];
    assert MapNotNone(f, s[1..]) == [7, 3, 6, 8];
  }

  /** The example: `map_not_none(int, [2, 5, 'e', 7, None, 3, 6, 8])` gives 2, 5, 7, 3, 6, 8. */
  lemma MapNotNoneExample(parse: string -> Option<int>)
    requires parse("e").None?
    ensures MapNotNone(IntOf(parse), [IntValue(2), IntValue(5), StrValue("e"), IntValue(7), NoneValue, IntValue(3), IntValue(6), IntValue(8)])
         == [2, 5, 7, 3, 6, 8]
  {
    var s := [IntValue(2), IntValue(5), StrValue("e"), IntValue(7), NoneValue, IntValue(3), IntValue(6), IntValue(8)];
    var f := IntOf(parse);
    MapNotNoneExampleMiddle(parse);
    assert s[2..] == [StrValue("e"), IntValue(7), NoneValue, IntValue(3), IntValue(6), IntValue(8)];
    assert s[1..][1..] == s[2..];
    assert MapNotNone(f, s[1..]) == [5, 7, 3, 6, 8];
  }

  // ---------------------------------------------------------------------------
  // Callable classes

  /** `NullAware(f)(arg)`: None stays None, anything else goes through f. */
  function NullAware<T, U>(f: T -> U, arg: Option<T>): (r: Option<U>)
    ensures r.None? <==> arg.None?
  {
    if arg.None? then None else Some(f(arg.value))
  }

  /** Wrapping two functions one after the other is wrapping their composition. */
  lemma NullAwareCompose<T, U, V>(f: T -> U, g: U -> V, arg: Option<T>)
    ensures NullAware(g, NullAware(f, arg)) == NullAware(x => g(f(x)), arg)
  {
  }

  /** Mapping a null-aware function keeps every None where it was and transforms every other value. */
  lemma NullAwareMap<T, U>(f: T -> U, s: seq<Option<T>>)
    ensures |Map(o => NullAware(f, o), s)| == |s|
    ensures forall i :: 0 <= i < |s| ==>
      (Map(o => NullAware(f, o), s)[i].None? <==> s[i].None?)
      && (s[i].Some? ==> Map(o => NullAware(f, o), s)[i] == Some(f(s[i].value)))
  {
  }

  /** `Sum_Filter(filter, function)(iterable)`: adds function(x) over the x that pass the filter. */
  function SumFilter<T>(keep: T -> bool, f: T -> int, s: seq<T>): int
  {
    if |s| == 0 then 0
    else (if keep(s[0]) then f(s[0]) else 0) + SumFilter(keep, f, s[1..])
  }

  /** The sum runs over the filtered items, as the generator expression says. */
  lemma {:induction false} SumFilterIsSumOfFiltered<T>(keep: T -> bool, f: T -> int, s: seq<T>)
    ensures SumFilter(keep, f, s) == Sum(Map(f, Filter(keep, s)))
  {
    if |s| > 0 {
      SumFilterIsSumOfFiltered(keep, f, s[1..]);
      var rest := Filter(keep, s[1..]);
      if keep(s[0]) {
        assert Map(f, [s[0]] + rest) == [f(s[0])] + Map(f, rest);
        SumCons(Map(f, [s[0]] + rest));
        assert Map(f, [s[0]] + rest)[1..] == Map(f, rest);
      }
    }
  }

  function IsSome<T>(o: Option<T>): bool
  {
    o.Some?
  }

  function One<T>(o: Option<T>): int
  {
    1
  }

  /** `count_not_none`: a `Sum_Filter` adding 1 for every item that is not None. */
  function CountNotNone<T>(s: seq<Option<T>>): int
  {
    SumFilter(IsSome, One, s)
  }

  /** `count_not_none` counts exactly the items that are not None. */
  lemma {:induction false} CountNotNoneCounts<T>(s: seq<Option<T>>)
    ensures CountNotNone(s) == |Filter(IsSome, s)|
    ensures 0 <= CountNotNone(s) <= |s|
  {
    if |s| > 0 {
      CountNotNoneCounts(s[1..]);
    }
  }

  /** `count_not_none(logScale)` for the scale 10, 100, None, 50, 60 is 4. */
  lemma CountNotNoneExample(f: int -> real)
    ensures CountNotNone(Map(o => NullAware(f, o), [Some(10), Some(100), None, Some(50), Some(60)])) == 4
  {
    var s := Map(o => NullAware(f, o), [Some(10), Some(100), None, Some(50), Some(60)]);
    assert s == [Some(f(10)), Some(f(100)), None, Some(f(50)), Some(f(60))];
    assert s[1..][1..] == s[2..];
    assert s[2..][1..] == s[3..];
    assert s[3..][1..] == s[4..];
    assert s[4..][1..] == [];
  }
}
