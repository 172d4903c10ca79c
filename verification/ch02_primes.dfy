/**
 * Chapter 2: four primality tests that are meant to agree (an imperative loop,
 * a tail-recursive helper, and lazy and strict generator expressions), plus
 * `sum_to`, which stops consuming a 1024-element generator at a sentinel.
 */
module Ch02Primes {
  import opened Py
  import opened Arith

  /**
   * `sum_to(number)`: adds the values 0, 1, ... produced by `numbers()` until
   * one equals `number`; the generator stops after 1023.  Its printing is left
   * out.
   */
  method SumTo(number: int) returns (results: int)
    ensures 0 <= number < 1024 ==> results == Sum(Range(0, number))
    ensures !(0 <= number < 1024) ==> results == Sum(Range(0, 1024))
  {
    results := 0;
    var i := 0;
    while i < 1024
      invariant 0 <= i <= 1024
      invariant results == Sum(Range(0, i))
      invariant 0 <= number < 1024 ==> i <= number
    {
      if i == number {
        break;
      }
      RangeSnoc(0, i);
      SumAppend(Range(0, i), [i]);
      results := results + i;
      i := i + 1;
    }
  }

  /** Gauss: 0 + 1 + ... + (m - 1) = m(m - 1)/2. */
  lemma SumRangeClosedForm(m: nat)
    ensures Sum(Range(0, m)) == m * (m - 1) / 2
  {
    SumRangeDouble(m);
    DivUnique(m * (m - 1), 2, Sum(Range(0, m)), 0);
  }

  lemma {:induction false} SumRangeDouble(m: nat)
    ensures 2 * Sum(Range(0, m)) == m * (m - 1)
  {
    if m > 0 {
      SumRangeDouble(m - 1);
      RangeSnoc(0, m - 1);
      SumAppend(Range(0, m - 1), [m - 1]);
      assert Sum([m - 1]) == m - 1;
      assert (m - 1) * (m - 2) + 2 * (m - 1) == m * (m - 1);
    }
  }

  /** `isprime_imperative`: trial division by odd i with i <= int(sqrt(number)). */
  method IsPrimeImperative(number: int) returns (r: bool)
    ensures r == IsPrime(number)
  {
    if number < 2 {
      return false;
    }
    if number == 2 {
      return true;
    }
    if number % 2 == 0 {
      assert Divides(2, number);
      return false;
    }
    var limit := 1 + ISqrt(number);
    ISqrtBelow(number);
    var i := 3;
    while i < limit
      invariant 3 <= i <= limit + 1 && i % 2 == 1
      invariant NoOddDivisor(number, 3, i - 1)
    {
      if number % i == 0 {
        DivisorRefutes(number, i);
        return false;
      }
      NextOddCandidate(number, i);
      i := i + 2;
    }
    OddTrialDivision(number, ISqrt(number));
    return true;
  }

  /** A divisor strictly between 1 and n shows that n is not prime. */
  lemma DivisorRefutes(n: int, d: int)
    requires 2 <= d < n && n % d == 0
    ensures !IsPrime(n)
  {
    assert Divides(d, n);
  }

  /** An odd candidate that does not divide extends the checked range past the next even number. */
  lemma NextOddCandidate(n: int, i: int)
    requires i >= 3 && i % 2 == 1 && n % i != 0 && NoOddDivisor(n, 3, i - 1)
    ensures NoOddDivisor(n, 3, i + 1)
  {
    assert (i + 1) % 2 == 0;
  }

  /**
   * The inner `isprime(k, coprime)` of `isprime_recursive`: true once
   * k < coprime², false at the first divisor, otherwise it tries coprime + 2.
   */
  function Coprime(k: nat, coprime: int): (r: bool)
    requires coprime >= 1 && coprime % 2 == 1
    ensures r <==> NoOddDivisor(k, coprime, ISqrt(k))
    decreases k - coprime * coprime
  {
    if k < coprime * coprime then
      NotAboveRoot(k, coprime);
      true
    else if k % coprime == 0 then
      SquareBelow(coprime, k);
      assert Divides(coprime, k);
      false
    else
      assert (coprime + 2) * (coprime + 2) > coprime * coprime;
      Coprime(k, coprime + 2)
  }

  lemma NotAboveRoot(k: nat, c: int)
    requires c >= 1 && k < c * c
    ensures ISqrt(k) < c
  {
    if ISqrt(k) >= c {
      SquareMono(c, ISqrt(k));
    }
  }

  /** `isprime_recursive`. */
  function IsPrimeRecursive(number: int): (r: bool)
  {
    if number < 2 then false
    else if number == 2 then true
    else if number % 2 == 0 then false
    else Coprime(number, 3)
  }

  /** `isprime_generator_lazy`: `not any(...)` over the odd candidates. */
  function IsPrimeGeneratorLazy(number: int): (r: bool)
  {
    if number < 2 then false
    else if number == 2 then true
    else if number % 2 == 0 then false
    else !Any(p => Divides(p, number), RangeStep(3, ISqrt(number) + 1, 2))
  }

  /** `isprime_generator_strict`: `all(...)` over the odd candidates. */
  function IsPrimeGeneratorStrict(number: int): (r: bool)
  {
    if number < 2 then false
    else if number == 2 then true
    else if number % 2 == 0 then false
    else All(p => !Divides(p, number), RangeStep(3, ISqrt(number) + 1, 2))
  }

  /** The candidates `range(3, int(sqrt(n)) + 1, 2)` are the odd numbers 3..isqrt(n). */
  lemma OddCandidates(n: nat, p: int)
    ensures p in RangeStep(3, ISqrt(n) + 1, 2) <==> 3 <= p <= ISqrt(n) && p % 2 == 1
  {
    RangeStep2Members(3, ISqrt(n) + 1, p);
    if p % 2 == 1 {
      OddMinusThree(p);
    }
    if (p - 3) % 2 == 0 {
      OddOffset(p);
    }
  }

  /** None of the candidates divides n exactly when n has no odd divisor in 3..isqrt(n). */
  lemma CandidatesCover(n: int)
    requires n >= 3
    ensures All(p => !Divides(p, n), RangeStep(3, ISqrt(n) + 1, 2)) <==> NoOddDivisor(n, 3, ISqrt(n))
  {
    var cs := RangeStep(3, ISqrt(n) + 1, 2);
    if All(p => !Divides(p, n), cs) {
      forall p | 3 <= p <= ISqrt(n) && p % 2 == 1
        ensures !Divides(p, n)
      {
        OddCandidates(n, p);
        var i :| 0 <= i < |cs| && cs[i] == p;
      }
    } else {
      var i :| 0 <= i < |cs| && Divides(cs[i], n);
      OddCandidates(n, cs[i]);
    }
  }

  lemma RecursiveIsPrimality(number: int)
    ensures IsPrimeRecursive(number) == IsPrime(number)
  {
    if number >= 3 && number % 2 == 1 {
      ISqrtBelow(number);
      OddTrialDivision(number, ISqrt(number));
    } else if number > 2 && number % 2 == 0 {
      assert Divides(2, number);
    }
  }

  lemma LazyIsPrimality(number: int)
    ensures IsPrimeGeneratorLazy(number) == IsPrime(number)
  {
    if number >= 3 && number % 2 == 1 {
      ISqrtBelow(number);
      OddTrialDivision(number, ISqrt(number));
      var cs := RangeStep(3, ISqrt(number) + 1, 2);
      CandidatesCover(number);
      AnyExists(p => Divides(p, number), cs);
    } else if number > 2 && number % 2 == 0 {
      assert Divides(2, number);
    }
  }

  lemma StrictIsPrimality(number: int)
    ensures IsPrimeGeneratorStrict(number) == IsPrime(number)
  {
    if number >= 3 && number % 2 == 1 {
      ISqrtBelow(number);
      OddTrialDivision(number, ISqrt(number));
      CandidatesCover(number);
    } else if number > 2 && number % 2 == 0 {
      assert Divides(2, number);
    }
  }

  /** Numbers below 2 and even numbers other than 2 are rejected by every test. */
  lemma SmallAndEvenRejected(number: int)
    requires number < 2 || (number % 2 == 0 && number != 2)
    ensures !IsPrime(number)
    ensures !IsPrimeRecursive(number) && !IsPrimeGeneratorLazy(number) && !IsPrimeGeneratorStrict(number)
  {
    if number >= 2 {
      assert Divides(2, number);
    }
  }

  /** The doctests: 2 is prime, and 3..10 give T, F, T, F, T, F, F, F. */
  lemma PrimalityDoctest()
    ensures IsPrime(2)
    ensures IsPrime(3) && !IsPrime(4) && IsPrime(5) && !IsPrime(6)
    ensures IsPrime(7) && !IsPrime(8) && !IsPrime(9) && !IsPrime(10)
  {
    assert Divides(2, 4) && Divides(2, 6) && Divides(2, 8) && Divides(3, 9) && Divides(2, 10);
  }
}
