/**
 * Chapter 16: memoisation and the chi-squared case study.  The `Binomial`
 * callable object keeps two caches, one of factorials and one of binomial
 * coefficients, and only ever adds to them; the recursive and loop-based
 * factorials, the `lru_cache` factorial and the integer branch of the complete
 * gamma function are measured against `Arith.Fact`; the defect counter is a
 * `collections.Counter` over the (shift, defect type) pairs of the rows that
 * name a defect; `calc_diff` is one cell's contribution to chi-squared.
 */
module Ch16Memo {
  import opened Py
  import opened Arith
  import opened Ch13Conditional
  import opened Ch14Currying

  // ---------------------------------------------------------------------------
  // Binomial coefficients, the reference definition

  /** Pascal's triangle: the number of ways to pick m things out of n. */
  function Choose(n: nat, m: nat): (c: nat)
    requires m <= n
    decreases n
  {
    if m == 0 || m == n then 1 else Choose(n - 1, m - 1) + Choose(n - 1, m)
  }

  /** The arithmetic of one step of Pascal's rule, with the factorials as plain numbers. */
  lemma PascalArith(n: int, m: int, a: int, b: int, f: int, fm: int, fm1: int, fk: int, fk1: int)
    requires fm == m * fm1 && fk == (n - m) * fk1
    requires a * (fm1 * fk) == f && b * (fm * fk1) == f
    ensures (a + b) * (fm * fk) == n * f
  {
    assert a * (fm * fk) == m * f by {
      assert a * (fm * fk) == m * (a * (fm1 * fk));
    }
    assert b * (fm * fk) == (n - m) * f by {
      assert b * (fm * fk) == (n - m) * (b * (fm * fk1));
    }
  }

  /** Pascal's triangle times m! (n - m)! is n!. */
  lemma {:induction false} ChooseFactorials(n: nat, m: nat)
    requires m <= n
    ensures Choose(n, m) * (Fact(m) * Fact(n - m)) == Fact(n)
    decreases n
  {
    if m == 0 || m == n {
      assert Fact(0) == 1;
    } else {
      ChooseFactorials(n - 1, m - 1);
      ChooseFactorials(n - 1, m);
      FactStep(m);
      FactStep(n - m);
      FactStep(n);
      PascalArith(n, m, Choose(n - 1, m - 1), Choose(n - 1, m), Fact(n - 1),
                  Fact(m), Fact(m - 1), Fact(n - m), Fact(n - 1 - m));
    }
  }

  /** So n! // (m! (n - m)!) divides exactly and gives the count of Pascal's triangle. */
  lemma FactorialQuotient(n: nat, m: nat)
    requires m <= n
    ensures (Fact(m) * Fact(n - m)) > 0
    ensures Fact(n) / (Fact(m) * Fact(n - m)) == Choose(n, m)
    ensures Fact(n) % (Fact(m) * Fact(n - m)) == 0
  {
    MulAtLeastOne(Fact(m), Fact(n - m));
    ChooseFactorials(n, m);
    DivUnique(Fact(n), Fact(m) * Fact(n - m), Choose(n, m), 0);
  }

  // ---------------------------------------------------------------------------
  // Python's floor division

  /** An exact quotient is found by floor division. */
  lemma FloorDivExact(a: int, d: int, q: int)
    requires d > 0 && q * d == a
    ensures FloorDiv(a, d) == Ok(q)
  {
    DivUnique(a, d, q, 0);
  }

  // ---------------------------------------------------------------------------
  // The Binomial callable and its two caches

  /** The state of a `Binomial` object: its factorial cache and its binomial cache. */
  datatype Binomial = Binomial(factorialCache: map<int, int>, binomialCache: map<(int, int), int>)

  /** `Binomial()`: both caches empty. */
  const Fresh := Binomial(map[], map[])

  /** Every entry of `b` is still in `c`, with the same value: caches only grow. */
  predicate Grows(b: Binomial, c: Binomial)
  {
    (forall n | n in b.factorialCache ::
       n in c.factorialCache && c.factorialCache[n] == b.factorialCache[n]) &&
    (forall p | p in b.binomialCache ::
       p in c.binomialCache && c.binomialCache[p] == b.binomialCache[p])
  }

  /** Every cached value is the true one: n! for n >= 1, the count of Pascal's triangle. */
  predicate Sound(b: Binomial)
  {
    (forall n | n in b.factorialCache :: n >= 1) &&
    (forall n | n in b.factorialCache :: n >= 1 && b.factorialCache[n] == Fact(n)) &&
    (forall p | p in b.binomialCache :: 1 <= p.1 < p.0) &&
    (forall p | p in b.binomialCache :: 1 <= p.1 < p.0 && b.binomialCache[p] == Choose(p.0, p.1))
  }

  /**
   * `Binomial.factorial(n)`: the cached value, or `product(range(1, n + 1))`
   * stored and returned.  The product is a `reduce` without an initial value,
   * so an empty range raises TypeError and nothing is stored.
   */
  function Factorial(b: Binomial, n: int): (r: (Outcome<int>, Binomial))
    ensures Grows(b, r.1)
    ensures r.0.Ok? ==> n in r.1.factorialCache && r.1.factorialCache[n] == r.0.value
    ensures r.0.Raised? ==> r.1 == b
  {
    if n in b.factorialCache then (Ok(b.factorialCache[n]), b)
    else match ProdReduce(Range(1, n + 1))
      case Raised(e) => (Raised(e), b)
      case Ok(v) => (Ok(v), b.(factorialCache := b.factorialCache[n := v]))
  }

  /**
   * The right-hand side of `__call__`'s assignment,
   * `factorial(n) // (factorial(m) * factorial(n - m))`, evaluated left to
   * right.  A factorial that raises leaves behind the entries the earlier
   * factorials stored.
   */
  function Quotient(b: Binomial, n: int, m: int): (r: (Outcome<int>, Binomial))
    ensures Grows(b, r.1)
    ensures r.1.binomialCache == b.binomialCache
  {
    var (fn, b1) := Factorial(b, n);
    if fn.Raised? then (Raised(fn.exc), b1)
    else
      var (fm, b2) := Factorial(b1, m);
      if fm.Raised? then (Raised(fm.exc), b2)
      else
        var (fk, b3) := Factorial(b2, n - m);
        if fk.Raised? then (Raised(fk.exc), b3)
        else (FloorDiv(fn.value, fm.value * fk.value), b3)
  }

  /** `Binomial.__call__(n, m)`: the cached value, or the quotient stored and returned. */
  function Call(b: Binomial, n: int, m: int): (r: (Outcome<int>, Binomial))
    ensures Grows(b, r.1)
    ensures r.0.Ok? ==> (n, m) in r.1.binomialCache && r.1.binomialCache[(n, m)] == r.0.value
  {
    if (n, m) in b.binomialCache then (Ok(b.binomialCache[(n, m)]), b)
    else
      var (q, b3) := Quotient(b, n, m);
      if q.Raised? then (q, b3)
      else (q, b3.(binomialCache := b3.binomialCache[(n, m) := q.value]))
  }

  /** The product of the integers lo..hi, taken as a list, is their product. */
  lemma {:induction false} ProductRange(lo: int, hi: int)
    requires lo <= hi + 1
    ensures Product(Range(lo, hi + 1)) == ProdRange(lo, hi)
    decreases hi - lo
  {
    if lo <= hi {
      RangeSnoc(lo, hi);
      ProductRange(lo, hi - 1);
      ProductAppend(Range(lo, hi), [hi]);
      assert Product([hi]) == hi;
    }
  }

  /** Storing a true factorial keeps an object sound. */
  lemma FactorialStoreSound(b: Binomial, n: int)
    requires Sound(b) && n >= 1
    ensures Sound(b.(factorialCache := b.factorialCache[n := Fact(n)]))
  {
  }

  /** On a sound object, `factorial(n)` is n! for n >= 1 and raises TypeError otherwise; the object stays sound. */
  lemma FactorialSpec(b: Binomial, n: int)
    requires Sound(b)
    ensures Sound(Factorial(b, n).1)
    ensures Factorial(b, n).0 == if n >= 1 then Ok(Fact(n)) else Raised(TypeError)
  {
    if n in b.factorialCache {
      assert n >= 1;
      assert Factorial(b, n) == (Ok(Fact(n)), b);
    } else if n >= 1 {
      assert ProdReduce(Range(1, n + 1)) == Ok(Fact(n)) by {
        ProdReduceSpec(Range(1, n + 1));
        ProductUpTo(n);
      }
      FactorialStoreSound(b, n);
      assert Factorial(b, n) == (Ok(Fact(n)), b.(factorialCache := b.factorialCache[n := Fact(n)]));
    } else {
      assert ProdReduce(Range(1, n + 1)) == Raised(TypeError) by {
        ProdReduceSpec(Range(1, n + 1));
      }
      assert Factorial(b, n) == (Raised(TypeError), b);
    }
  }

  /** Storing a true binomial coefficient keeps an object sound. */
  lemma StoreSound(b: Binomial, n: int, m: int)
    requires Sound(b) && 1 <= m < n
    ensures Sound(b.(binomialCache := b.binomialCache[(n, m) := Choose(n, m)]))
  {
  }

  /** On a sound object the quotient is the count of Pascal's triangle for 1 <= m <= n - 1, and TypeError otherwise. */
  lemma QuotientSpec(b: Binomial, n: int, m: int)
    requires Sound(b)
    ensures Sound(Quotient(b, n, m).1)
    ensures Quotient(b, n, m).0 == if 1 <= m < n then Ok(Choose(n, m)) else Raised(TypeError)
  {
    var r1 := Factorial(b, n);
    FactorialSpec(b, n);
    if n < 1 {
      assert Quotient(b, n, m) == (Raised(TypeError), r1.1);
    } else {
      var r2 := Factorial(r1.1, m);
      FactorialSpec(r1.1, m);
      if m < 1 {
        assert Quotient(b, n, m) == (Raised(TypeError), r2.1);
      } else {
        var r3 := Factorial(r2.1, n - m);
        FactorialSpec(r2.1, n - m);
        if n - m < 1 {
          assert Quotient(b, n, m) == (Raised(TypeError), r3.1);
        } else {
          assert Quotient(b, n, m) == (FloorDiv(r1.0.value, r2.0.value * r3.0.value), r3.1);
          assert FloorDiv(Fact(n), Fact(m) * Fact(n - m)) == Ok(Choose(n, m)) by {
            ChooseFactorials(n, m);
            MulAtLeastOne(Fact(m), Fact(n - m));
            FloorDivExact(Fact(n), Fact(m) * Fact(n - m), Choose(n, m));
          }
        }
      }
    }
  }

  /**
   * On a sound object, `binomial(n, m)` succeeds exactly for 1 <= m <= n - 1
   * (otherwise one of the factorials has an empty range) and then is the
   * count of Pascal's triangle; the object stays sound.
   */
  lemma CallSpec(b: Binomial, n: int, m: int)
    requires Sound(b)
    ensures Sound(Call(b, n, m).1)
    ensures Call(b, n, m).0 == if 1 <= m < n then Ok(Choose(n, m)) else Raised(TypeError)
  {
    if (n, m) !in b.binomialCache {
      QuotientSpec(b, n, m);
      if 1 <= m < n {
        StoreSound(Quotient(b, n, m).1, n, m);
      }
    }
  }

  /** The value stored for (n, m) is n! // (m! (n - m)!), and that division is exact. */
  lemma CallIsFactorialQuotient(b: Binomial, n: int, m: int)
    requires Sound(b) && 1 <= m < n
    ensures Call(b, n, m).0.Ok?
    ensures Fact(m) * Fact(n - m) > 0
    ensures Call(b, n, m).0.value == Fact(n) / (Fact(m) * Fact(n - m))
    ensures Call(b, n, m).0.value * (Fact(m) * Fact(n - m)) == Fact(n)
  {
    CallSpec(b, n, m);
    FactorialQuotient(n, m);
    ChooseFactorials(n, m);
  }

  /** A repeated call finds its value in the cache: same result, state unchanged. */
  lemma CallRepeats(b: Binomial, n: int, m: int)
    requires Call(b, n, m).0.Ok?
    ensures Call(Call(b, n, m).1, n, m) == Call(b, n, m)
  {
  }

  /** A repeated factorial finds its value in the cache: same result, state unchanged. */
  lemma FactorialRepeats(b: Binomial, n: int)
    requires Factorial(b, n).0.Ok?
    ensures Factorial(Factorial(b, n).1, n) == Factorial(b, n)
  {
  }

  lemma GrowsTransitive(a: Binomial, b: Binomial, c: Binomial)
    requires Grows(a, b) && Grows(b, c)
    ensures Grows(a, c)
  {
  }

  /** The object after a sequence of `binomial(n, m)` calls, exceptions included. */
  function RunCalls(b: Binomial, calls: seq<(int, int)>): Binomial
    decreases |calls|
  {
    if |calls| == 0 then b else RunCalls(Call(b, calls[0].0, calls[0].1).1, calls[1..])
  }

  /** However many calls are made, and whether or not they raise, no entry is lost or changed and every entry is true. */
  lemma {:induction false} RunCallsGrowSound(b: Binomial, calls: seq<(int, int)>)
    requires Sound(b)
    ensures Grows(b, RunCalls(b, calls))
    ensures Sound(RunCalls(b, calls))
    decreases |calls|
  {
    if |calls| > 0 {
      var b1 := Call(b, calls[0].0, calls[0].1).1;
      CallSpec(b, calls[0].0, calls[0].1);
      RunCallsGrowSound(b1, calls[1..]);
      GrowsTransitive(b, b1, RunCalls(b1, calls[1..]));
    }
  }

  /** The fresh object is sound. */
  lemma FreshSound()
    ensures Sound(Fresh) && Fresh.factorialCache == map[] && Fresh.binomialCache == map[]
  {
  }

  /** n! splits at k into the product of k + 1..n and k!. */
  lemma {:induction false} FactSplit(k: nat, n: nat)
    requires k <= n
    ensures Fact(n) == ProdRange(k + 1, n) * Fact(k)
    decreases n
  {
    if n > k {
      FactSplit(k, n - 1);
      FactStep(n);
      var p := ProdRange(k + 1, n - 1);
      assert ProdRange(k + 1, n) == p * n;
      Rotate(n, p, Fact(k));
    }
  }

  lemma Rotate(x: int, y: int, z: int)
    ensures x * (y * z) == (y * x) * z
  {
  }

  /** The numbers of the poker-hand count: 48 * 49 * 50 * 51 * 52 and 5!. */
  lemma PokerProducts()
    ensures ProdRange(48, 52) == 311875200 && Fact(5) == 120
  {
  }

  /** c * (a * f) == p * f with f positive leaves c * a == p. */
  lemma CancelFactor(c: int, a: int, f: int, p: int, total: int)
    requires f > 0 && c * (a * f) == total && total == p * f
    ensures c * a == p
  {
    assert (c * a - p) * f == 0;
  }

  /** Pascal's triangle times m! is the product of the m numbers n - m + 1..n. */
  lemma ChooseTimesFact(n: nat, m: nat)
    requires m <= n
    ensures Choose(n, m) * Fact(m) == ProdRange(n - m + 1, n)
  {
    ChooseFactorials(n, m);
    FactSplit(n - m, n);
    CancelFactor(Choose(n, m), Fact(m), Fact(n - m), ProdRange(n - m + 1, n), Fact(n));
  }

  /** 52 choose 5: the number of five-card poker hands. */
  lemma ChoosePokerHands(n: nat, m: nat)
    requires n == 52 && m == 5
    ensures Choose(n, m) == 2598960
  {
    ChooseTimesFact(n, m);
    PokerProducts();
    assert Fact(m) == 120;
    assert ProdRange(n - m + 1, n) == 311875200;
  }

  /** A fresh object answers every call with the count of Pascal's triangle, or TypeError. */
  lemma FreshCall(n: int, m: int)
    ensures Call(Fresh, n, m).0 == if 1 <= m < n then Ok(Choose(n, m)) else Raised(TypeError)
  {
    FreshSound();
    CallSpec(Fresh, n, m);
  }

  /** `binomial = Binomial(); binomial(52, 5)` gives 2,598,960. */
  lemma BinomialPokerHands(n: int, m: int)
    requires n == 52 && m == 5
    ensures Call(Fresh, n, m).0 == Ok(2598960)
  {
    ChoosePokerHands(n, m);
    FreshCall(n, m);
  }

  // ---------------------------------------------------------------------------
  // Factorials without a cache

  /**
   * `factorial(n)`: n * factorial(n - 1) down to 0.  A negative n never
   * reaches 0, so the recursion runs until Python's stack limit raises
   * RecursionError.
   */
  function FactorialRec(n: int): (r: Outcome<int>)
    ensures r == if n >= 0 then Ok(Fact(n)) else Raised(RecursionError)
    decreases if n < 0 then 0 else n
  {
    if n < 0 then Raised(RecursionError)
    else if n == 0 then Ok(1)
    else match FactorialRec(n - 1)
      case Ok(v) => Ok(n * v)
      case Raised(e) => Raised(e)
  }

  /** The `lru_cache` `factorial(k)`: 1 below 2, otherwise `reduce(mul, range(2, k + 1))`. */
  function LruFactorial(k: int): Outcome<int>
  {
    if k < 2 then Ok(1) else ProdReduce(Range(2, k + 1))
  }

  /** It never raises: k! for k >= 0, and 1 for every negative k. */
  lemma LruFactorialIsFact(k: int)
    ensures LruFactorial(k) == Ok(if k >= 0 then Fact(k) else 1)
  {
    if k >= 2 {
      ProdReduceSpec(Range(2, k + 1));
      ProductRange(2, k);
      ProdRangeFromTwo(k);
    } else if k >= 0 {
      assert Fact(k) == 1;
    }
  }

  /** `calc_gamma_complete(k)` for an integer k: `factorial(k - 1)`. */
  function GammaComplete(k: int): Outcome<int>
  {
    LruFactorial(k - 1)
  }

  /** Gamma(k) = (k - 1)! on the positive integers; the formula gives 1 at 0 and below. */
  lemma GammaCompleteOfInt(k: int)
    ensures GammaComplete(k) == Ok(if k >= 1 then Fact(k - 1) else 1)
  {
    LruFactorialIsFact(k - 1);
  }

  /** The functional equation Gamma(k + 1) = k Gamma(k) on the positive integers. */
  lemma GammaRecurrence(k: int)
    requires k >= 1
    ensures GammaComplete(k + 1).Ok? && GammaComplete(k).Ok?
    ensures GammaComplete(k + 1).value == k * GammaComplete(k).value
  {
    GammaCompleteOfInt(k + 1);
    GammaCompleteOfInt(k);
    FactStep(k);
  }

  // ---------------------------------------------------------------------------
  // Counting defects by shift and type

  /** One row of the QA file, with its three columns. */
  datatype DefectRow = DefectRow(serialNumber: string, defectType: string, shift: string)

  /** The columns the file must have, in sorted order. */
  const ExpectedFieldNames: seq<string> := ["defect_type", "serial_number", "shift"]

  /** `if row.defect_type`: an empty string is false. */
  function HasDefect(row: DefectRow): bool
  {
    row.defectType != ""
  }

  /** `(row.shift, row.defect_type)`. */
  function ShiftAndType(row: DefectRow): (string, string)
  {
    (row.shift, row.defectType)
  }

  /** `Counter(keys)`: each key seen, mapped to how often, built one key at a time. */
  function Tally<K>(keys: seq<K>): map<K, nat>
    decreases |keys|
  {
    if |keys| == 0 then map[]
    else
      var c := Tally(keys[..|keys| - 1]);
      var k := keys[|keys| - 1];
      c[k := (if k in c then c[k] else 0) + 1]
  }

  /** A Counter holds exactly the keys that occur, each with its number of occurrences. */
  lemma {:induction false} TallyCounts<K>(keys: seq<K>, k: K)
    ensures k in Tally(keys) <==> k in keys
    ensures k in Tally(keys) ==> Tally(keys)[k] == multiset(keys)[k]
    decreases |keys|
  {
    if |keys| > 0 {
      var front := keys[..|keys| - 1];
      var last := keys[|keys| - 1];
      TallyCounts(front, k);
      assert keys == front + [last];
      assert multiset(keys) == multiset(front) + multiset{last};
      assert k in keys <==> k in front || k == last;
    }
  }

  /**
   * `read_defects_dataset`: the sorted field names must be exactly the three
   * expected ones (an `assert`), which is to say the field names are a
   * rearrangement of them; then the rows naming a defect are counted by
   * (shift, defect type).
   */
  function ReadDefectsDataset(fieldNames: seq<string>, rows: seq<DefectRow>): Outcome<map<(string, string), nat>>
  {
    if multiset(fieldNames) != multiset(ExpectedFieldNames) then Raised(AssertionError)
    else Ok(Tally(Map(ShiftAndType, Filter(HasDefect, rows))))
  }

  /** The rows with the given shift and defect type. */
  function CountRows(rows: seq<DefectRow>, shift: string, defect: string): nat
  {
    |Filter((row: DefectRow) => row.shift == shift && row.defectType == defect, rows)|
  }

  lemma MapConsHead<T, U>(f: T -> U, x: T, s: seq<T>)
    ensures Map(f, [x] + s) == [f(x)] + Map(f, s)
  {
  }

  /** How often a pair occurs among the kept rows' keys: the matching rows, none for an empty type. */
  lemma {:induction false} KeptPairs(rows: seq<DefectRow>, shift: string, defect: string)
    ensures multiset(Map(ShiftAndType, Filter(HasDefect, rows)))[(shift, defect)]
         == if defect == "" then 0 else CountRows(rows, shift, defect)
    decreases |rows|
  {
    if |rows| > 0 {
      var x := rows[0];
      var rest := rows[1..];
      KeptPairs(rest, shift, defect);
      var p := (row: DefectRow) => row.shift == shift && row.defectType == defect;
      assert Filter(p, rows) == if p(x) then [x] + Filter(p, rest) else Filter(p, rest);
      if HasDefect(x) {
        assert Filter(HasDefect, rows) == [x] + Filter(HasDefect, rest);
        MapConsHead(ShiftAndType, x, Filter(HasDefect, rest));
        assert multiset(Map(ShiftAndType, Filter(HasDefect, rows)))
            == multiset{ShiftAndType(x)} + multiset(Map(ShiftAndType, Filter(HasDefect, rest)));
      } else {
        assert Filter(HasDefect, rows) == Filter(HasDefect, rest);
      }
    }
  }

  /**
   * The counter has a (shift, defect type) key exactly when the type is
   * non-empty and some row has both, and then it holds the number of such
   * rows; a file whose columns differ fails the assertion.
   */
  lemma ReadDefectsDatasetCounts(fieldNames: seq<string>, rows: seq<DefectRow>, shift: string, defect: string)
    ensures multiset(fieldNames) != multiset(ExpectedFieldNames) ==>
              ReadDefectsDataset(fieldNames, rows) == Raised(AssertionError)
    ensures multiset(fieldNames) == multiset(ExpectedFieldNames) ==>
              var r := ReadDefectsDataset(fieldNames, rows);
              r.Ok? &&
              ((shift, defect) in r.value <==> defect != "" && CountRows(rows, shift, defect) > 0) &&
              ((shift, defect) in r.value ==> r.value[(shift, defect)] == CountRows(rows, shift, defect))
  {
    var keys := Map(ShiftAndType, Filter(HasDefect, rows));
    TallyCounts(keys, (shift, defect));
    KeptPairs(rows, shift, defect);
  }

  // ---------------------------------------------------------------------------
  // One cell of chi-squared, in exact fractions

  /** A `fractions.Fraction`, kept with a positive denominator as Python keeps it. */
  datatype Fraction = Fraction(num: int, den: int)

  predicate ValidFraction(f: Fraction)
  {
    f.den > 0
  }

  /** `f - o` for an integer o. */
  function SubInt(f: Fraction, o: int): (r: Fraction)
  {
    Fraction(f.num - o * f.den, f.den)
  }

  /** `f ** 2`. */
  function Square(f: Fraction): (r: Fraction)
  {
    Fraction(f.num * f.num, f.den * f.den)
  }

  /** `f / g`: the sign moves to the numerator; a zero divisor raises. */
  function Div(f: Fraction, g: Fraction): (r: Outcome<Fraction>)
  {
    if g.num == 0 then Raised(ZeroDivisionError)
    else if g.num > 0 then Ok(Fraction(f.num * g.den, f.den * g.num))
    else Ok(Fraction(-(f.num * g.den), -(f.den * g.num)))
  }

  /** `calc_diff(expected, observed)`: `((expected - observed) ** 2) / expected`. */
  function CalcDiff(expected: Fraction, observed: int): Outcome<Fraction>
  {
    Div(Square(SubInt(expected, observed)), expected)
  }

  lemma SquarePositive(d: int)
    requires d != 0
    ensures d * d > 0
  {
    if d < 0 {
      assert d * d == (-d) * (-d);
    }
  }

  lemma ProductSign(a: int, b: int)
    requires a >= 0 && b > 0
    ensures a * b >= 0
    ensures a * b == 0 <==> a == 0
  {
    if a > 0 {
      MulAtLeastOne(a, b);
    }
  }

  /**
   * For a positive expectation the cell is a valid non-negative fraction, and
   * it is zero exactly when the observation equals the expectation; a zero
   * expectation divides by zero.
   */
  lemma CalcDiffSign(expected: Fraction, observed: int)
    requires ValidFraction(expected)
    ensures expected.num == 0 <==> CalcDiff(expected, observed) == Raised(ZeroDivisionError)
    ensures expected.num > 0 ==>
              var r := CalcDiff(expected, observed);
              r.Ok? && ValidFraction(r.value) && r.value.num >= 0 &&
              (r.value.num == 0 <==> expected.num == observed * expected.den)
  {
    var d := expected.num - observed * expected.den;
    var ed := expected.den;
    if expected.num > 0 {
      assert d * d >= 0 && (d * d == 0 <==> d == 0) by {
        if d != 0 {
          SquarePositive(d);
        }
      }
      ProductSign(d * d, ed);
      SquarePositive(ed);
      MulAtLeastOne(ed * ed, expected.num);
    }
  }
}
