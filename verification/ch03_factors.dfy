/**
 * Chapter 3, generator expressions: prime factors by a loop with recursion and
 * by pure recursion, and `calc_extreme_values`, which reads one iterable twice
 * through `itertools.tee`.
 */
module Ch03Factors {
  import opened Py
  import opened Arith

  /**
   * `list(calc_factors_iterative(x))`: even x yields 2 and recurses on x // 2
   * while that exceeds 1; odd x scans i = 3, 5, ... up to int(sqrt(x) + 0.5),
   * yields the first divisor and recurses on x // i, or yields x itself when
   * no candidate divides.  `math.sqrt` of a negative odd x raises ValueError.
   */
  function FactorsIterative(x: int): Outcome<seq<int>>
    decreases if x > 0 then x else 0, 1, 0
  {
    if x % 2 == 0 then
      if x / 2 > 1 then
        var rest :- FactorsIterative(x / 2);
        Ok([2] + rest)
      else Ok([2])
    else if x < 0 then Raised(ValueError)
    else OddScan(x, 3, RoundSqrt(x))
  }

  /** The `for i in range(3, bound + 1, 2)` loop of `calc_factors_iterative`. */
  function OddScan(x: nat, i: int, bound: int): Outcome<seq<int>>
    requires i >= 3
    decreases x, 0, bound - i + 2
  {
    if i > bound then Ok([x])
    else if x % i == 0 then
      if x / i > 1 then
        QuotientSmaller(x, i);
        var rest :- FactorsIterative(x / i);
        Ok([i] + rest)
      else Ok([i])
    else OddScan(x, i + 2, bound)
  }

  /** The inner `factor_n(x, n)` of `calc_factors_recursive`. */
  function FactorN(x: int, n: int): seq<int>
    requires n >= 3
    decreases if x > 0 then x else 0, x - n
  {
    if n * n > x then [x]
    else
      MulLe(n, 1, n);
      if x % n == 0 then
        if x / n > 1 then
          QuotientSmaller(x, n);
          [n] + FactorN(x / n, n)
        else [n]
      else FactorN(x, n + 2)
  }

  /** `list(calc_factors_recursive(x))`. */
  function FactorsRecursive(x: int): seq<int>
    decreases if x > 0 then x else 0
  {
    if x % 2 == 0 then
      if x / 2 > 1 then [2] + FactorsRecursive(x / 2) else [2]
    else FactorN(x, 3)
  }

  /** No integer in [2, n) divides x. */
  predicate NoDivisorBelow(x: int, n: int)
  {
    forall j :: 2 <= j < n ==> !Divides(j, x)
  }

  /** The first divisor found by either scan is the smallest one. */
  lemma FirstDivisorIsSmallest(x: int, n: int)
    requires x >= 2 && 2 <= n <= x && NoDivisorBelow(x, n) && Divides(n, x)
    ensures SmallestDivisor(x) == n
    ensures PrimeFactors(x) == if n == x then [x] else [n] + PrimeFactors(x / n)
  {
  }

  /** Skipping an even candidate is safe for an odd x. */
  lemma SkipEven(x: int, n: int)
    requires x % 2 == 1 && n >= 2 && n % 2 == 1 && NoDivisorBelow(x, n) && !Divides(n, x)
    ensures NoDivisorBelow(x, n + 2)
  {
    if Divides(n + 1, x) {
      EvenDivisor(n + 1, x);
    }
  }

  /** A quotient has no divisor the original number lacked. */
  lemma QuotientKeepsBound(x: int, n: int, m: int)
    requires x >= 2 && n >= 2 && Divides(n, x) && NoDivisorBelow(x, m)
    ensures NoDivisorBelow(x / n, m)
  {
    var q := x / n;
    DividesQuotient(n, x);
    QuotientSmaller(x, n);
    assert q != 0;
    FactorDivides(q, n, x);
    forall j | 2 <= j < m
      ensures !Divides(j, q)
    {
      if Divides(j, q) {
        DividesTrans(j, q, x);
      }
    }
  }

  lemma OddQuotient(x: int, n: int)
    requires x >= 1 && x % 2 == 1 && n >= 1 && Divides(n, x)
    ensures (x / n) % 2 == 1
  {
    DividesQuotient(n, x);
    var q := x / n;
    if q % 2 == 0 {
      var k := q / 2;
      assert x == 2 * (n * k);
      MulMod(2, n * k);
      assert false;
    }
  }

  /** With every candidate below n ruled out and n² > x, x is prime. */
  lemma PrimeBelowSquare(x: int, n: int)
    requires x >= 2 && n >= 2 && n * n > x && NoDivisorBelow(x, n)
    ensures IsPrime(x) && PrimeFactors(x) == [x]
  {
    if !IsPrime(x) {
      SmallestDivisorOfComposite(x);
      SquareMono(n, SmallestDivisor(x));
      assert false;
    }
    PrimeIffSmallestDivisor(x);
  }

  /** When no candidate up to the bound divides an odd x, x is prime. */
  lemma ScanExhausted(x: int, i: int)
    requires x >= 3 && x % 2 == 1 && i > RoundSqrt(x) && NoDivisorBelow(x, i)
    ensures IsPrime(x) && PrimeFactors(x) == [x]
  {
    ISqrtBelowRoundSqrt(x);
    RoundSqrtBelow(x);
    OddTrialDivision(x, RoundSqrt(x));
    PrimeIffSmallestDivisor(x);
  }

  lemma {:induction false} IterativeIsFactorisation(x: int)
    requires x >= 2
    ensures FactorsIterative(x) == Ok(PrimeFactors(x))
    decreases x, 1, 0
  {
    if x % 2 == 0 {
      assert Divides(2, x);
      FirstDivisorIsSmallest(x, 2);
      if x / 2 > 1 {
        IterativeIsFactorisation(x / 2);
      }
    } else {
      OddScanIsFactorisation(x, 3);
    }
  }

  lemma {:induction false} OddScanIsFactorisation(x: int, i: int)
    requires x >= 3 && x % 2 == 1 && i >= 3 && i % 2 == 1 && NoDivisorBelow(x, i)
    ensures OddScan(x, i, RoundSqrt(x)) == Ok(PrimeFactors(x))
    decreases x, 0, RoundSqrt(x) - i + 2
  {
    if i > RoundSqrt(x) {
      ScanExhausted(x, i);
    } else if x % i == 0 {
      OddScanDivides(x, i);
    } else {
      SkipEven(x, i);
      OddScanIsFactorisation(x, i + 2);
    }
  }

  /** The scan stops at its first divisor i, which is below x, so x // i is at least 2. */
  lemma {:induction false} OddScanDivides(x: int, i: int)
    requires x >= 3 && x % 2 == 1 && 3 <= i <= RoundSqrt(x) && NoDivisorBelow(x, i) && x % i == 0
    ensures OddScan(x, i, RoundSqrt(x)) == Ok(PrimeFactors(x))
    decreases x, 0, 0
  {
    var q := x / i;
    RoundSqrtBelow(x);
    DividesQuotient(i, x);
    assert q >= 2 by {
      if q <= 1 {
        MulLe(i, q, 1);
        assert false;
      }
    }
    QuotientSmaller(x, i);
    FirstDivisorIsSmallest(x, i);
    assert PrimeFactors(x) == [i] + PrimeFactors(q);
    IterativeIsFactorisation(q);
  }

  lemma {:induction false} FactorNIsFactorisation(x: int, n: int)
    requires x >= 2 && x % 2 == 1 && n >= 3 && n % 2 == 1 && NoDivisorBelow(x, n)
    ensures FactorN(x, n) == PrimeFactors(x)
    decreases x, x - n
  {
    if n * n > x {
      PrimeBelowSquare(x, n);
    } else if x % n == 0 {
      FactorNDivides(x, n);
    } else {
      MulLe(n, 1, n);
      SkipEven(x, n);
      FactorNIsFactorisation(x, n + 2);
    }
  }

  /** Here n * n <= x, so x // n is at least n and the recursion goes on with it. */
  lemma {:induction false} FactorNDivides(x: int, n: int)
    requires x >= 2 && x % 2 == 1 && n >= 3 && n % 2 == 1 && NoDivisorBelow(x, n)
    requires n * n <= x && x % n == 0
    ensures FactorN(x, n) == PrimeFactors(x)
    decreases x, 0
  {
    var q := x / n;
    MulLe(n, 1, n);
    DividesQuotient(n, x);
    DivLower(x, n, n);
    QuotientSmaller(x, n);
    FirstDivisorIsSmallest(x, n);
    assert PrimeFactors(x) == [n] + PrimeFactors(q);
    QuotientKeepsBound(x, n, n);
    OddQuotient(x, n);
    FactorNIsFactorisation(q, n);
  }

  lemma {:induction false} RecursiveIsFactorisation(x: int)
    requires x >= 2
    ensures FactorsRecursive(x) == PrimeFactors(x)
    decreases x
  {
    if x % 2 == 0 {
      assert Divides(2, x);
      FirstDivisorIsSmallest(x, 2);
      if x / 2 > 1 {
        RecursiveIsFactorisation(x / 2);
      }
    } else {
      FactorNIsFactorisation(x, 3);
    }
  }

  /**
   * For x >= 2 both functions yield the ascending prime factorisation: the
   * factors multiply back to x and each is prime.  For x = 1 both yield [1].
   */
  lemma FactorsAgree(x: int)
    requires x >= 1
    ensures FactorsIterative(x).Ok?
    ensures FactorsIterative(x).value == FactorsRecursive(x)
    ensures x == 1 ==> FactorsRecursive(x) == [1]
    ensures x >= 2 ==> Product(FactorsRecursive(x)) == x
    ensures x >= 2 ==> forall i :: 0 <= i < |FactorsRecursive(x)| ==> IsPrime(FactorsRecursive(x)[i])
    ensures Ascending(FactorsRecursive(x))
  {
    if x >= 2 {
      IterativeIsFactorisation(x);
      RecursiveIsFactorisation(x);
    } else {
      assert RoundSqrt(1) == 1;
    }
  }

  /** Off the positive integers the two disagree: an odd negative x. */
  lemma NegativeOddDiffers()
    ensures FactorsIterative(-3) == Raised(ValueError)
    ensures FactorsRecursive(-3) == [-3]
  {
  }

  lemma OddPartDoctest()
    ensures FactorN(195, 3) == [3, 5, 13]
  {
    assert FactorN(13, 5) == [13];
    assert FactorN(65, 5) == [5, 13];
    assert FactorN(65, 3) == [5, 13];
  }

  /** The doctests: 1560, 2 and 3. */
  lemma FactorsDoctest()
    ensures FactorsRecursive(1560) == [2, 2, 2, 3, 5, 13]
    ensures FactorsIterative(1560) == Ok([2, 2, 2, 3, 5, 13])
    ensures FactorsRecursive(2) == [2] && FactorsIterative(2) == Ok([2])
    ensures FactorsRecursive(3) == [3] && FactorsIterative(3) == Ok([3])
  {
    OddPartDoctest();
    assert FactorsRecursive(195) == [3, 5, 13];
    assert FactorsRecursive(390) == [2, 3, 5, 13];
    assert FactorsRecursive(780) == [2, 2, 3, 5, 13];
    FactorsAgree(1560);
    FactorsAgree(3);
    FactorsAgree(2);
  }

  // ---------------------------------------------------------------------------

  function MaxOf(s: seq<int>): int
    requires |s| > 0
  {
    if |s| == 1 then s[0]
    else
      var m := MaxOf(s[1..]);
      if s[0] >= m then s[0] else m
  }

  function MinOf(s: seq<int>): int
    requires |s| > 0
  {
    if |s| == 1 then s[0]
    else
      var m := MinOf(s[1..]);
      if s[0] <= m then s[0] else m
  }

  lemma {:induction false} MaxMinBounds(s: seq<int>)
    requires |s| > 0
    ensures MaxOf(s) in s && MinOf(s) in s
    ensures forall i :: 0 <= i < |s| ==> MinOf(s) <= s[i] <= MaxOf(s)
  {
    if |s| > 1 {
      MaxMinBounds(s[1..]);
      assert forall i :: 1 <= i < |s| ==> s[i] == s[1..][i - 1];
    }
  }

  /**
   * `calc_extreme_values(iterable)`: `(max(...), min(...))` over two copies of
   * the iterable; `max` of an empty iterable raises ValueError.
   */
  function CalcExtremeValues(s: seq<int>): (r: Outcome<(int, int)>)
    ensures r.Ok? <==> |s| > 0
    ensures r.Raised? ==> r.exc == ValueError
    ensures r.Ok? ==> r.value.0 in s && r.value.1 in s
    ensures r.Ok? ==> forall i :: 0 <= i < |s| ==> r.value.1 <= s[i] <= r.value.0
  {
    if |s| == 0 then Raised(ValueError)
    else
      MaxMinBounds(s);
      Ok((MaxOf(s), MinOf(s)))
  }

  /** The doctest: [1, 2, 3, 4, 5] gives (5, 1). */
  lemma ExtremeValuesDoctest()
    ensures CalcExtremeValues([1, 2, 3, 4, 5]) == Ok((5, 1))
  {
    var s := [1, 2, 3, 4, 5];
    var r := CalcExtremeValues(s);
    assert s[4] == 5 && s[0] == 1;
  }
}
