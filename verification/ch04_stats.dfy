/**
 * Chapter 4, second example set: `any`/`all` as reductions, and the
 * power sums s0, s1, s2 from which the mean, the variance behind the
 * standard deviation and the normalised score are computed.  Arithmetic is on
 * exact reals; `math.sqrt` is represented by the predicate `IsSqrt`.
 */
module Ch04Stats {
  import opened Py
  import opened Arith
  import Ch02Primes

  /** `not all(p(x) for x in s)` equals `any(not p(x) for x in s)`. */
  lemma {:induction false} NotAllIsAnyNot<T>(p: T -> bool, s: seq<T>)
    ensures !All(p, s) == Any(x => !p(x), s)
  {
    AnyExists(x => !p(x), s);
  }

  /**
   * `areThereNonprimes`, both ways: with the chapter's `isprime` (the lazy
   * generator test of chapter 2), `not all(...)` and `any(not ...)` agree, and
   * are true exactly when some value is not prime.
   */
  lemma AreThereNonprimes(xs: seq<int>)
    ensures Any(x => !Ch02Primes.IsPrimeGeneratorLazy(x), xs) == !All(Ch02Primes.IsPrimeGeneratorLazy, xs)
    ensures !All(Ch02Primes.IsPrimeGeneratorLazy, xs) <==> exists i :: 0 <= i < |xs| && !IsPrime(xs[i])
  {
    NotAllIsAnyNot(Ch02Primes.IsPrimeGeneratorLazy, xs);
    forall i | 0 <= i < |xs|
      ensures Ch02Primes.IsPrimeGeneratorLazy(xs[i]) == IsPrime(xs[i])
    {
      Ch02Primes.LazyIsPrimality(xs[i]);
    }
  }

  /** `s0`: the number of samples. */
  function S0(samples: seq<real>): real
  {
    |samples| as real
  }

  /** `s1`: the sum of the samples. */
  function S1(samples: seq<real>): real
  {
    SumR(samples)
  }

  function Square(x: real): real
  {
    x * x
  }

  /** `s2`: the sum of the squares. */
  function S2(samples: seq<real>): real
  {
    SumR(Map(Square, samples))
  }

  /** `calc_mean`: s1 / s0, which divides by zero on no samples. */
  function CalcMean(samples: seq<real>): (r: Outcome<real>)
    ensures r.Raised? <==> |samples| == 0
    ensures r.Raised? ==> r.exc == ZeroDivisionError
    ensures r.Ok? ==> r.value * (|samples| as real) == SumR(samples)
  {
    if S0(samples) == 0.0 then Raised(ZeroDivisionError) else Ok(S1(samples) / S0(samples))
  }

  /** The quantity under the square root in `calc_stdev`: s2 / N - (s1 / N) ** 2. */
  function CalcVariance(samples: seq<real>): (r: Outcome<real>)
    ensures r.Raised? <==> |samples| == 0
    ensures r.Raised? ==> r.exc == ZeroDivisionError
  {
    var n := S0(samples);
    if n == 0.0 then Raised(ZeroDivisionError)
    else Ok(S2(samples) / n - (S1(samples) / n) * (S1(samples) / n))
  }

  /** r is the non-negative square root of x, what `math.sqrt(x)` returns. */
  predicate IsSqrt(r: real, x: real)
  {
    r >= 0.0 && r * r == x
  }

  /** `calc_normalized_score`: (x - mean) / stdev, which divides by zero on a zero deviation. */
  function CalcNormalizedScore(x: real, mean: real, stdev: real): (r: Outcome<real>)
    ensures r.Raised? <==> stdev == 0.0
    ensures r.Ok? ==> r.value * stdev + mean == x
  {
    if stdev == 0.0 then Raised(ZeroDivisionError) else Ok((x - mean) / stdev)
  }

  // ---------------------------------------------------------------------------
  // The variance is the mean squared deviation

  /** (x - m) ** 2, the squared deviation of one sample from m. */
  function Deviation2(m: real, x: real): real
  {
    (x - m) * (x - m)
  }

  function SquaredDeviation(m: real): real -> real
  {
    x => Deviation2(m, x)
  }

  /** Sum of squared deviations from m, expanded: s2 - 2 m s1 + n m^2. */
  function Expanded(s2: real, s1: real, n: real, m: real): real
  {
    s2 - 2.0 * m * s1 + n * m * m
  }

  lemma DeviationStep(a: real, b: real, c: real, k: real, x: real, m: real)
    requires a == Expanded(b, c, k, m)
    ensures a + Deviation2(m, x) == Expanded(b + Square(x), c + x, k + 1.0, m)
  {
    assert (x - m) * (x - m) == x * x - 2.0 * m * x + m * m;
    assert 2.0 * m * (c + x) == 2.0 * m * c + 2.0 * m * x;
    assert (k + 1.0) * m * m == k * m * m + m * m;
  }

  lemma {:induction false} SumSquaredDeviation(s: seq<real>, m: real)
    ensures SumR(Map(SquaredDeviation(m), s)) == Expanded(S2(s), SumR(s), |s| as real, m)
    decreases |s|
  {
    if |s| == 0 {
      assert Map(SquaredDeviation(m), s) == [];
      assert Map(Square, s) == [];
    } else {
      var front := s[..|s| - 1];
      var x := s[|s| - 1];
      var dev := Map(SquaredDeviation(m), s);
      var sq := Map(Square, s);
      SumSquaredDeviation(front, m);
      assert dev[..|s| - 1] == Map(SquaredDeviation(m), front);
      assert sq[..|s| - 1] == Map(Square, front);
      var a, b, c, k := SumR(Map(SquaredDeviation(m), front)), S2(front), SumR(front), |front| as real;
      assert SumR(dev) == a + Deviation2(m, x);
      assert S2(s) == b + Square(x);
      assert SumR(s) == c + x;
      assert |s| as real == k + 1.0;
      DeviationStep(a, b, c, k, x, m);
    }
  }

  lemma {:induction false} SumNonNegative(s: seq<real>)
    requires forall i :: 0 <= i < |s| ==> s[i] >= 0.0
    ensures SumR(s) >= 0.0
    decreases |s|
  {
    if |s| > 0 {
      SumNonNegative(s[..|s| - 1]);
    }
  }

  lemma VarianceAlgebra(s2: real, s1: real, n: real, m: real, d: real)
    requires n > 0.0 && m == s1 / n && d == Expanded(s2, s1, n, m)
    ensures s2 / n - (s1 / n) * (s1 / n) == d / n
  {
    assert s1 == m * n;
    assert d == s2 - m * m * n;
    assert d / n == s2 / n - m * m;
  }

  lemma Deviation2NonNegative(m: real, x: real)
    ensures Deviation2(m, x) >= 0.0
  {
  }

  lemma QuotientNonNegative(d: real, n: real)
    requires d >= 0.0 && n > 0.0
    ensures d / n >= 0.0
  {
  }

  /**
   * s2 / N - (s1 / N) ** 2 is the mean of the squared deviations from the
   * mean, so it is never negative and `calc_stdev` always has a root to take.
   */
  lemma VarianceIsMeanSquaredDeviation(samples: seq<real>)
    requires |samples| > 0
    ensures CalcVariance(samples).value
         == SumR(Map(SquaredDeviation(CalcMean(samples).value), samples)) / (|samples| as real)
    ensures CalcVariance(samples).value >= 0.0
  {
    var n, s1, s2 := |samples| as real, S1(samples), S2(samples);
    var m := CalcMean(samples).value;
    assert m == s1 / n;
    var d := SumR(Map(SquaredDeviation(m), samples));
    assert CalcVariance(samples).value == s2 / n - (s1 / n) * (s1 / n);
    SumSquaredDeviation(samples, m);
    VarianceAlgebra(s2, s1, n, m, d);
    SquaredDeviationsNonNegative(samples, m);
    QuotientNonNegative(d, n);
  }

  lemma SquaredDeviationsNonNegative(samples: seq<real>, m: real)
    ensures SumR(Map(SquaredDeviation(m), samples)) >= 0.0
  {
    var dev := Map(SquaredDeviation(m), samples);
    forall i | 0 <= i < |dev|
      ensures dev[i] >= 0.0
    {
      Deviation2NonNegative(m, samples[i]);
    }
    SumNonNegative(dev);
  }

  lemma SumRFour(a: real, b: real, c: real, d: real)
    ensures SumR([a, b, c, d]) == a + b + c + d
  {
    assert [a][..0] == [];
    assert SumR([a]) == a;
    assert [a, b][..1] == [a];
    assert SumR([a, b]) == a + b;
    assert [a, b, c][..2] == [a, b];
    assert SumR([a, b, c]) == a + b + c;
    assert [a, b, c, d][..3] == [a, b, c];
  }

  /** The `calc_mean` doctest: the mean of 4, 36, 45, 50, 75 is 42. */
  lemma CalcMeanDoctest()
    ensures CalcMean([4.0, 36.0, 45.0, 50.0, 75.0]) == Ok(42.0)
  {
    SumRFour(4.0, 36.0, 45.0, 50.0);
    assert [4.0, 36.0, 45.0, 50.0, 75.0][..4] == [4.0, 36.0, 45.0, 50.0];
  }

  /** The `calc_stdev` doctest: for 2, 4, 4, 4, 5, 5, 7, 9 the mean is 5 and the deviation 2. */
  lemma CalcStdevDoctest()
    ensures CalcMean([2.0, 4.0, 4.0, 4.0, 5.0, 5.0, 7.0, 9.0]) == Ok(5.0)
    ensures CalcVariance([2.0, 4.0, 4.0, 4.0, 5.0, 5.0, 7.0, 9.0]) == Ok(4.0)
    ensures IsSqrt(2.0, CalcVariance([2.0, 4.0, 4.0, 4.0, 5.0, 5.0, 7.0, 9.0]).value)
  {
    var d := [2.0, 4.0, 4.0, 4.0, 5.0, 5.0, 7.0, 9.0];
    SumRAppend([2.0, 4.0, 4.0, 4.0], [5.0, 5.0, 7.0, 9.0]);
    SumRFour(2.0, 4.0, 4.0, 4.0);
    SumRFour(5.0, 5.0, 7.0, 9.0);
    assert d == [2.0, 4.0, 4.0, 4.0] + [5.0, 5.0, 7.0, 9.0];
    assert SumR(d) == 40.0;
    var sq := Map(Square, d);
    assert sq == [4.0, 16.0, 16.0, 16.0] + [25.0, 25.0, 49.0, 81.0];
    SumRAppend([4.0, 16.0, 16.0, 16.0], [25.0, 25.0, 49.0, 81.0]);
    SumRFour(4.0, 16.0, 16.0, 16.0);
    SumRFour(25.0, 25.0, 49.0, 81.0);
    assert S2(d) == 232.0;
  }

  /** The `calc_normalized_score` doctest, with mean 5 and deviation 2. */
  lemma CalcNormalizedScoreDoctest()
    ensures Map((x: real) => CalcNormalizedScore(x, 5.0, 2.0).value, [2.0, 4.0, 4.0, 4.0, 5.0, 5.0, 7.0, 9.0])
         == [-1.5, -0.5, -0.5, -0.5, 0.0, 0.0, 1.0, 2.0]
  {
  }
}
