/**
 * Chapter 3, callable objects: three strategies for 2^b (a left shift, naive
 * recursion, divide and conquer) plugged into a `Mersenne1` callable that
 * subtracts one.  The exponent is any Python int: a negative shift count
 * raises ValueError, and the two recursions never reach their base case on a
 * negative exponent, so they run out of the recursion limit, modelled as the
 * `depth` of frames left.
 */
module Ch03Powers {
  import opened Py
  import opened Arith

  /** `x << b`: each shift position doubles the value; a negative count raises. */
  function ShiftLeft(x: int, b: int): Outcome<int>
    decreases if b < 0 then 0 else b
  {
    if b < 0 then Raised(ValueError)
    else if b == 0 then Ok(x)
    else ShiftLeft(x + x, b - 1)
  }

  /** Shifting left by b bits multiplies by 2^b; a negative count is ValueError. */
  lemma {:induction false} ShiftIsPow(x: int, b: int)
    ensures b < 0 ==> ShiftLeft(x, b) == Raised(ValueError)
    ensures b >= 0 ==> ShiftLeft(x, b) == Ok(x * Pow(2, b))
    decreases if b < 0 then 0 else b
  {
    if b > 0 {
      ShiftIsPow(x + x, b - 1);
      assert (x + x) * Pow(2, b - 1) == x * (2 * Pow(2, b - 1));
    }
  }

  /** `shifty(b)`: `1 << b`. */
  function Shifty(b: int): (r: Outcome<int>)
    ensures r.Raised? <==> b < 0
    ensures r.Raised? ==> r.exc == ValueError
    ensures r.Ok? ==> b >= 0 && r.value == Pow(2, b)
  {
    ShiftIsPow(1, b);
    ShiftLeft(1, b)
  }

  /**
   * `multy(b)`: naive recursion, `multy(0) == 1`.  Each call takes a frame, so
   * it finishes exactly when 0 <= b and there are more than b frames left.
   */
  function Multy(b: int, depth: nat): (r: Outcome<int>)
    ensures r.Ok? <==> 0 <= b < depth
    ensures r.Ok? ==> b >= 0 && r.value == Pow(2, b)
    ensures r.Raised? ==> r.exc == RecursionError
    decreases depth
  {
    if depth == 0 then Raised(RecursionError)
    else if b == 0 then Ok(1)
    else
      match Multy(b - 1, depth - 1)
      case Ok(v) => Ok(2 * v)
      case Raised(e) => Raised(e)
  }

  /**
   * `faster(b)`: odd b doubles faster(b - 1), even b squares faster(b // 2),
   * with Python's `%` and `//`.  A negative b stays negative at every step.
   */
  function Faster(b: int, depth: nat): (r: Outcome<int>)
    ensures r.Ok? ==> b >= 0 && r.value == Pow(2, b)
    ensures r.Raised? ==> r.exc == RecursionError
    decreases depth
  {
    if depth == 0 then Raised(RecursionError)
    else if b == 0 then Ok(1)
    else if FloorMod(b, 2).value == 1 then
      match Faster(b - 1, depth - 1)
      case Ok(v) => Ok(2 * v)
      case Raised(e) => Raised(e)
    else
      var h := FloorDiv(b, 2).value;
      match Faster(h, depth - 1)
      case Ok(t) =>
        FloorOfPositive(b, 2);
        PowAdd(2, h, h);
        Ok(t * t)
      case Raised(e) => Raised(e)
  }

  /**
   * The three strategies agree on every b >= 0 given more than b frames, and
   * fail on every negative b: `shifty` with ValueError, the two recursions
   * with RecursionError whatever the depth.
   */
  lemma {:induction false} StrategiesAgree(b: int, depth: nat)
    ensures b >= 0 && depth > b ==>
      Shifty(b) == Ok(Pow(2, b)) && Multy(b, depth) == Shifty(b) && Faster(b, depth) == Shifty(b)
    ensures b < 0 ==>
      Shifty(b) == Raised(ValueError) && Multy(b, depth) == Raised(RecursionError)
      && Faster(b, depth) == Raised(RecursionError)
    decreases depth
  {
    if b > 0 && depth > b {
      StrategiesAgree(b - 1, depth - 1);
      FloorOfPositive(b, 2);
      if b % 2 == 0 {
        StrategiesAgree(b / 2, depth - 1);
      }
    }
  }

  /** `Mersenne1(algorithm)(arg)`: the plugged-in power of two, minus one. */
  function Mersenne1(algorithm: int -> Outcome<int>, arg: int): Outcome<int>
  {
    match algorithm(arg)
    case Ok(v) => Ok(v - 1)
    case Raised(e) => Raised(e)
  }

  /**
   * Every wired instance yields 2^n - 1 on n >= 0 (the recursions given more
   * than n frames), passes its strategy's exception through on a negative n,
   * and 2^17 - 1 = 131071.
   */
  lemma MersenneInstances(n: int, depth: nat)
    ensures n >= 0 ==> Mersenne1(Shifty, n) == Ok(Pow(2, n) - 1)
    ensures n >= 0 && depth > n ==>
      Mersenne1(b => Multy(b, depth), n) == Ok(Pow(2, n) - 1)
      && Mersenne1(b => Faster(b, depth), n) == Ok(Pow(2, n) - 1)
    ensures n < 0 ==>
      Mersenne1(Shifty, n) == Raised(ValueError)
      && Mersenne1(b => Multy(b, depth), n) == Raised(RecursionError)
      && Mersenne1(b => Faster(b, depth), n) == Raised(RecursionError)
    ensures Mersenne1(Shifty, 17) == Ok(131071)
    ensures depth > 17 ==>
      Mersenne1(b => Multy(b, depth), 17) == Ok(131071)
      && Mersenne1(b => Faster(b, depth), 17) == Ok(131071)
  {
    StrategiesAgree(n, depth);
    StrategiesAgree(17, depth);
    PowAdd(2, 8, 9);
    PowAdd(2, 4, 4);
    PowAdd(2, 4, 5);
    assert Pow(2, 4) == 16;
    assert Pow(2, 5) == 32;
  }
}
