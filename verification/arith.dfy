/**
 * Reference mathematics the chapter modules are measured against: products of
 * integer ranges and the factorial, powers, Fibonacci numbers, divisibility and
 * primality, integer square roots, the double factorial and the prime
 * factorisation of an integer.  Each is the textbook definition, written
 * independently of the book's many implementations of the same quantity.
 */
module Arith {
  import opened Py

  // ---------------------------------------------------------------------------
  // Products, factorials, powers, Fibonacci numbers

  /** lo * (lo + 1) * ... * hi, and 1 for an empty range. */
  function ProdRange(lo: int, hi: int): int
    decreases hi - lo
  {
    if hi < lo then 1 else ProdRange(lo, hi - 1) * hi
  }

  lemma {:induction false} ProdRangePositive(lo: int, hi: int)
    requires lo >= 1
    ensures ProdRange(lo, hi) >= 1
    decreases hi - lo
  {
    if hi >= lo {
      ProdRangePositive(lo, hi - 1);
      MulAtLeastOne(ProdRange(lo, hi - 1), hi);
    }
  }

  lemma MulAtLeastOne(a: int, b: int)
    requires a >= 1 && b >= 1
    ensures a * b >= 1 && a * b >= a && a * b >= b
  {
  }

  /** n! = 1 * 2 * ... * n. */
  function Fact(n: nat): (r: nat)
    ensures r >= 1
  {
    ProdRangePositive(1, n);
    ProdRange(1, n)
  }

  /** The step every factorial implementation relies on. */
  lemma FactStep(n: nat)
    requires n >= 1
    ensures Fact(n) == n * Fact(n - 1)
  {
  }

  /** Starting a product at 2 instead of 1 changes nothing. */
  lemma {:induction false} ProdRangeFromTwo(n: int)
    requires n >= 0
    ensures ProdRange(2, n) == Fact(n)
    decreases n
  {
    if n >= 2 {
      ProdRangeFromTwo(n - 1);
    }
  }

  /** b to the power e. */
  function Pow(b: int, e: nat): int
  {
    if e == 0 then 1 else b * Pow(b, e - 1)
  }

  lemma {:induction false} PowPositive(b: int, e: nat)
    requires b >= 1
    ensures Pow(b, e) >= 1
  {
    if e > 0 {
      PowPositive(b, e - 1);
      MulAtLeastOne(b, Pow(b, e - 1));
    }
  }

  lemma {:induction false} PowAdd(b: int, e1: nat, e2: nat)
    ensures Pow(b, e1 + e2) == Pow(b, e1) * Pow(b, e2)
    decreases e1
  {
    if e1 > 0 {
      PowAdd(b, e1 - 1, e2);
    }
  }

  /** The pair of consecutive Fibonacci numbers (F(n), F(n + 1)), from (0, 1). */
  function FibPair(n: nat): (nat, nat)
  {
    if n == 0 then (0, 1) else (FibPair(n - 1).1, FibPair(n - 1).0 + FibPair(n - 1).1)
  }

  /** The Fibonacci numbers 0, 1, 1, 2, 3, 5, ... indexed from zero. */
  function Fib(n: nat): nat
  {
    FibPair(n).0
  }

  /** The defining recurrence, which the pairwise definition leaves implicit. */
  lemma FibStep(n: nat)
    requires n >= 2
    ensures Fib(n) == Fib(n - 1) + Fib(n - 2)
  {
    assert FibPair(n - 1).0 == FibPair(n - 2).1;
  }

  /** n!! = n * (n - 2) * ... down to 1 or 2, and 1 for n < 2. */
  function DoubleFact(n: nat): nat
  {
    if n < 2 then 1 else n * DoubleFact(n - 2)
  }

  /** Euclidean division is determined by its quotient and remainder. */
  lemma DivUnique(a: int, n: int, q: int, r: int)
    requires n > 0 && 0 <= r < n && a == q * n + r
    ensures a / n == q && a % n == r
  {
    var t := q - a / n;
    assert t * n == a % n - r by {
      assert a == (a / n) * n + a % n;
      assert (q - a / n) * n == q * n - (a / n) * n;
    }
    if t >= 1 {
      MulLe(n, 1, t);
      assert false;
    } else if t <= -1 {
      MulLe(n, t, -1);
      assert false;
    }
  }

  /** Taking n away from a takes one away from a / n. */
  lemma DivSub(a: int, n: int)
    requires n > 0
    ensures (a - n) / n == a / n - 1
    ensures (a - n) % n == a % n
  {
    DivUnique(a - n, n, a / n - 1, a % n);
  }

  /** At least m copies of n fit into a when m * n does. */
  lemma DivLower(a: int, n: int, m: int)
    requires n > 0 && m * n <= a
    ensures m <= a / n
  {
    if a / n < m {
      MulLe(n, a / n + 1, m);
      assert false;
    }
  }

  /** A number below n holds no copy of n. */
  lemma DivSmall(a: int, n: int)
    requires 0 <= a < n
    ensures a / n == 0 && a % n == a
  {
    DivUnique(a, n, 0, a);
  }

  /** A number that holds a copy of n is at least n. */
  lemma DivAtLeastOne(a: int, n: int)
    requires n > 0 && a / n >= 1
    ensures a >= n
  {
    if 0 <= a < n {
      DivSmall(a, n);
    }
  }

  /** Dividing a positive number by at least 2 makes it smaller. */
  lemma QuotientSmaller(x: int, n: int)
    requires x >= 1 && n >= 2
    ensures 0 <= x / n < x
  {
    DivMod(x, n);
    var q := x / n;
    if q < 0 {
      MulLe(n, q, -1);
      assert false;
    }
    if q >= x {
      MulLe(n, x, q);
      assert false;
    }
  }

  lemma DivMod(a: int, n: int)
    requires n > 0
    ensures a == n * (a / n) + a % n
  {
  }

  /** For a positive divisor Python's `//` and `%` are the Euclidean ones. */
  lemma FloorOfPositive(a: int, d: int)
    requires d > 0
    ensures FloorDiv(a, d) == Ok(a / d) && FloorMod(a, d) == Ok(a % d)
  {
    DivMod(a, d);
  }

  /** A product with a factor of at least 1 has the other factor's sign, and is no smaller than it when that is non-negative. */
  lemma MulPositiveSign(a: int, m: int)
    requires m >= 1
    ensures a * m > 0 ==> a > 0
    ensures a * m >= a || a < 0
  {
    if a >= 0 {
      MulLe(a, 1, m);
    } else {
      MulLe(-a, 1, m);
      assert (-a) * m == -(a * m);
    }
  }

  // ---------------------------------------------------------------------------
  // Divisibility and primality

  predicate Divides(d: int, n: int)
  {
    d != 0 && n % d == 0
  }

  /** n >= 2 and no integer strictly between 1 and n divides it. */
  predicate IsPrime(n: int)
  {
    n >= 2 && forall d :: 2 <= d < n ==> !Divides(d, n)
  }

  lemma DividesQuotient(d: int, n: int)
    requires d > 0 && Divides(d, n)
    ensures n == d * (n / d)
  {
  }

  lemma MulLe(a: int, b: int, c: int)
    requires a >= 0 && b <= c
    ensures a * b <= a * c
  {
    assert a * c - a * b == a * (c - b);
  }

  lemma MulMod(a: int, m: int)
    requires a > 0
    ensures (a * m) % a == 0
  {
    var q := (a * m) / a;
    var r := (a * m) % a;
    assert a * m == a * q + r;
    var t := m - q;
    assert a * t == r;
    if t >= 1 {
      MulLe(a, 1, t);
      assert false;
    } else if t <= -1 {
      MulLe(a, t, -1);
      assert false;
    }
  }

  /** A factor of a positive product divides it. */
  lemma FactorDivides(q: int, n: int, x: int)
    requires q > 0 && x == n * q
    ensures Divides(q, x)
  {
    MulMod(q, n);
  }

  lemma DividesTrans(a: int, b: int, c: int)
    requires a > 0 && b > 0 && Divides(a, b) && Divides(b, c)
    ensures Divides(a, c)
  {
    DividesQuotient(a, b);
    DividesQuotient(b, c);
    var j := b / a;
    var k := c / b;
    assert c == a * (j * k);
    MulMod(a, j * k);
  }

  /** The smallest divisor of n that is at least k. */
  function SmallestDivisorFrom(n: int, k: int): (d: int)
    requires 2 <= k <= n
    ensures k <= d <= n && Divides(d, n)
    ensures forall j :: k <= j < d ==> !Divides(j, n)
    decreases n - k
  {
    if n % k == 0 then k else SmallestDivisorFrom(n, k + 1)
  }

  /** The smallest divisor of n above 1. */
  function SmallestDivisor(n: int): (d: int)
    requires n >= 2
    ensures 2 <= d <= n && Divides(d, n)
    ensures forall j :: 2 <= j < d ==> !Divides(j, n)
  {
    SmallestDivisorFrom(n, 2)
  }

  lemma SmallestDivisorIsPrime(n: int)
    requires n >= 2
    ensures IsPrime(SmallestDivisor(n))
  {
    var d := SmallestDivisor(n);
    forall j | 2 <= j < d
      ensures !Divides(j, d)
    {
      if Divides(j, d) {
        DividesTrans(j, d, n);
      }
    }
  }

  lemma PrimeIffSmallestDivisor(n: int)
    requires n >= 2
    ensures IsPrime(n) <==> SmallestDivisor(n) == n
  {
  }

  /** A composite number has its smallest divisor at or below its square root. */
  lemma SmallestDivisorOfComposite(n: int)
    requires n >= 2 && !IsPrime(n)
    ensures SmallestDivisor(n) * SmallestDivisor(n) <= n
  {
    var d := SmallestDivisor(n);
    DividesQuotient(d, n);
    var k := n / d;
    assert n == d * k;
    assert k >= 2 by {
      if k <= 1 {
        MulLe(d, k, 1);
      }
    }
    assert k < n by {
      MulLe(k, 2, d);
    }
    MulMod(k, d);
    assert Divides(k, n);
    assert k >= d;
    MulLe(d, d, k);
  }

  /** p is odd exactly when p - 3 is even. */
  lemma OddMinusThree(p: int)
    requires p % 2 == 1
    ensures (p - 3) % 2 == 0
  {
    var k := p / 2;
    assert p == 2 * k + 1;
    assert p - 3 == 2 * (k - 1);
  }

  lemma OddOffset(p: int)
    requires (p - 3) % 2 == 0
    ensures p % 2 == 1
  {
    var k := (p - 3) / 2;
    assert p == 2 * (k + 1) + 1;
  }

  /** Any multiple of an even number is even. */
  lemma EvenDivisor(d: int, n: int)
    requires d > 0 && Divides(d, n) && d % 2 == 0
    ensures n % 2 == 0
  {
    DividesTrans(2, d, n);
  }

  // ---------------------------------------------------------------------------
  // Integer square roots

  /** int(math.sqrt(n)): the floor of the square root. */
  function ISqrt(n: nat): (r: nat)
    ensures r * r <= n < (r + 1) * (r + 1)
  {
    if n == 0 then 0
    else
      var r := ISqrt(n - 1);
      if (r + 1) * (r + 1) <= n then r + 1 else r
  }

  /** int(math.sqrt(n) + 0.5): the square root rounded to the nearest integer. */
  function RoundSqrt(n: nat): (r: nat)
    ensures r == 0 || (2 * r - 1) * (2 * r - 1) <= 4 * n
    ensures 4 * n < (2 * r + 1) * (2 * r + 1)
  {
    if n == 0 then 0
    else
      var r := RoundSqrt(n - 1);
      if (2 * r + 1) * (2 * r + 1) <= 4 * n then r + 1 else r
  }

  lemma SquareMono(a: int, b: int)
    requires 0 <= a <= b
    ensures a * a <= b * b
  {
    assert a * a <= a * b;
    assert a * b <= b * b;
  }

  lemma SquareBelow(d: int, n: nat)
    requires d >= 0 && d * d <= n
    ensures d <= ISqrt(n)
  {
    var r := ISqrt(n);
    if d > r {
      SquareMono(r + 1, d);
    }
  }

  lemma ISqrtBelowRoundSqrt(n: nat)
    ensures ISqrt(n) <= RoundSqrt(n)
  {
    var s := ISqrt(n);
    var r := RoundSqrt(n);
    if s > r {
      SquareMono(2 * r + 1, 2 * s - 1);
      SquareExpand(s);
    }
  }

  lemma SquareExpand(s: int)
    ensures (2 * s - 1) * (2 * s - 1) == 4 * (s * s) - 4 * s + 1
  {
  }

  lemma RoundSqrtBelow(n: nat)
    requires n >= 2
    ensures RoundSqrt(n) < n
  {
    var r := RoundSqrt(n);
    if r >= n {
      SquareMono(2 * n - 1, 2 * r - 1);
      SquareExpand(n);
      MulLe(4 * n, 2, n);
    }
  }

  lemma ISqrtBelow(n: nat)
    requires n >= 2
    ensures ISqrt(n) < n
  {
    ISqrtBelowRoundSqrt(n);
    RoundSqrtBelow(n);
  }

  /** No odd number in [lo, hi] divides n. */
  predicate NoOddDivisor(n: int, lo: int, hi: int)
  {
    forall p :: lo <= p <= hi && p % 2 == 1 ==> !Divides(p, n)
  }

  /**
   * Trial division by odd candidates: an odd n >= 3 is prime exactly when no
   * odd number from 3 up to any bound between its square root and n divides it.
   */
  lemma {:induction false} OddTrialDivision(n: int, bound: int)
    requires n >= 3 && n % 2 == 1
    requires ISqrt(n) <= bound < n
    ensures IsPrime(n) <==> NoOddDivisor(n, 3, bound)
  {
    if !IsPrime(n) {
      var d := SmallestDivisor(n);
      SmallestDivisorOfComposite(n);
      SquareBelow(d, n);
      if d % 2 == 0 {
        EvenDivisor(d, n);
      }
      assert 3 <= d <= bound && d % 2 == 1 && Divides(d, n);
    }
  }

  // ---------------------------------------------------------------------------
  // Prime factorisation

  predicate Ascending(s: seq<int>)
  {
    forall i, j :: 0 <= i < j < |s| ==> s[i] <= s[j]
  }

  /** The prime factors of x >= 2 in ascending order, with multiplicity. */
  function PrimeFactors(x: int): (fs: seq<int>)
    requires x >= 2
    ensures |fs| > 0 && fs[0] == SmallestDivisor(x)
    ensures Product(fs) == x
    ensures forall i :: 0 <= i < |fs| ==> IsPrime(fs[i])
    ensures Ascending(fs)
    decreases x
  {
    var d := SmallestDivisor(x);
    SmallestDivisorIsPrime(x);
    if d == x then
      assert Product([x]) == Product([]) * x;
      [x]
    else
      DividesQuotient(d, x);
      var y := x / d;
      assert y >= 2 && y < x by {
        if y <= 1 {
          MulLe(d, y, 1);
        }
        MulLe(y, 2, d);
      }
      var rest := PrimeFactors(y);
      SmallestDivisorOfQuotient(x, d, y);
      ProductCons([d] + rest);
      assert ([d] + rest)[1..] == rest;
      [d] + rest
  }

  /** Dividing out the smallest divisor cannot expose a smaller one. */
  lemma SmallestDivisorOfQuotient(x: int, d: int, y: int)
    requires x >= 2 && d == SmallestDivisor(x) && y >= 2 && x == d * y
    ensures SmallestDivisor(y) >= d
  {
    var e := SmallestDivisor(y);
    MulMod(y, d);
    assert Divides(y, x);
    DividesTrans(e, y, x);
  }
}
