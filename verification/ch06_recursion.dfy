/**
 * Chapter 6, first example set: simple numeric recursions (`add`,
 * `factorial`, `fast_exponentiation`, `fibonacci`) next to their loop-based
 * rewrites, a recursive `map` over a collection, and recursive and
 * imperative sums and products.  Each is measured against the reference
 * definitions of the Arith and Py modules.
 */
module Ch06Recursion {
  import opened Py
  import opened Arith

  /** `add(a, b)`: moves one unit at a time from a to b. */
  function Add(a: nat, b: int): (r: int)
    ensures r == a + b
  {
    if a == 0 then b else Add(a - 1, b + 1)
  }

  /** `factorial(number)`: number * factorial(number - 1), down to 0. */
  function Factorial(number: nat): (r: nat)
    ensures r == Fact(number)
  {
    if number == 0 then 1 else number * Factorial(number - 1)
  }

  /**
   * `factorial_tco` as written: the loop runs over `range(2, number)`, which
   * leaves out `number` itself, so the result is (number - 1)!.  Every input
   * other than 0 takes the loop, including negative ones, whose range is
   * empty.
   */
  method FactorialTco(number: int) returns (fact: int)
    ensures number <= 1 ==> fact == 1
    ensures number >= 1 ==> fact == Fact(number - 1)
    ensures number >= 2 ==> fact != Fact(number)
  {
    if number == 0 {
      return 1;
    }
    fact := 1;
    var i := 2;
    while i < number
      invariant 2 <= i && (number <= 2 ==> i == 2) && (number > 2 ==> i <= number)
      invariant fact == ProdRange(2, i - 1)
      decreases number - i
    {
      fact := fact * i;
      i := i + 1;
    }
    if number <= 2 {
      assert fact == ProdRange(2, 1) == 1;
    }
    if number >= 1 {
      ProdRangeFromTwo(number - 1);
    }
    if number >= 2 {
      FactGrows(number);
    }
  }

  /** n! differs from (n - 1)! from n = 2 on, so the shortfall is visible there. */
  lemma FactGrows(n: nat)
    requires n >= 2
    ensures Fact(n) != Fact(n - 1)
  {
    FactStep(n);
    assert Fact(n) == n * Fact(n - 1);
    assert n * Fact(n - 1) >= 2 * Fact(n - 1);
  }

  /**
   * The smallest input on which the loop version falls short: 2! is 2, the
   * loop over the empty `range(2, 2)` gives 1 = 1!.  On 0 and 1 the two agree.
   */
  lemma FactorialTcoOfTwo()
    ensures Fact(0) == 1 && Fact(1) == 1 && Fact(2) == 2
  {
    FactStep(2);
    FactStep(1);
  }

  /** The loop with `range(2, number + 1)`, which gives number! for every number >= 0. */
  method FactorialTcoIntended(number: nat) returns (fact: nat)
    ensures fact == Fact(number)
  {
    fact := 1;
    var i := 2;
    while i <= number
      invariant 2 <= i <= number + 2 && (number >= 1 ==> i <= number + 1)
      invariant fact == ProdRange(2, i - 1)
      decreases number - i
    {
      fact := fact * i;
      i := i + 1;
    }
    ProdRangeFromTwo(number);
    assert i == number + 1 || (number == 0 && i == 2);
  }

  /** `fast_exponentiation(base, exponent)`: one multiplication for an odd exponent, a squaring for an even one. */
  function FastExponentiation(base: int, exponent: nat): (r: int)
    ensures r == Pow(base, exponent)
  {
    if exponent == 0 then 1
    else if exponent % 2 == 1 then base * FastExponentiation(base, exponent - 1)
    else
      var t := FastExponentiation(base, exponent / 2);
      PowAdd(base, exponent / 2, exponent / 2);
      t * t
  }

  /** `fibonacci(number)`: the naive double recursion. */
  function Fibonacci(number: nat): (r: nat)
    ensures r == Fib(number)
  {
    if number == 0 then 0
    else if number == 1 then 1
    else
      FibStep(number);
      Fibonacci(number - 1) + Fibonacci(number - 2)
  }

  /**
   * `fibonacci_tco(number)`: two running values advanced from (1, 1) for i
   * in 3..number.  A negative number passes both guards, its range is empty,
   * and the starting value 1 comes back.
   */
  method FibonacciTco(number: int) returns (r: nat)
    ensures number >= 0 ==> r == Fibonacci(number)
    ensures number < 0 ==> r == 1
  {
    if number == 0 {
      return 0;
    }
    if number == 1 {
      return 1;
    }
    var factor1, factor2 := 1, 1;
    assert Fib(2) == 1 by { FibStep(2); }
    var i := 3;
    while i <= number
      invariant 3 <= i && (number >= 2 ==> i <= number + 1)
      invariant number >= 2 ==> factor1 == Fib(i - 2) && factor2 == Fib(i - 1)
      invariant number < 2 ==> factor2 == 1
      decreases number - i
    {
      FibStep(i);
      factor1, factor2 := factor2, factor1 + factor2;
      i := i + 1;
    }
    r := factor2;
  }

  // ---------------------------------------------------------------------------
  // Recursion over collections

  /** `map_recursive(function, collection)`: the mapped last item appended to the mapped front. */
  function MapRecursive<T, U>(f: T -> seq<U>, collection: seq<T>): (r: seq<U>)
    ensures r == Flatten(Map(f, collection))
  {
    if |collection| == 0 then []
    else
      var front := collection[..|collection| - 1];
      assert Map(f, collection) == Map(f, front) + [f(collection[|collection| - 1])];
      FlattenAppend(Map(f, front), [f(collection[|collection| - 1])]);
      MapRecursive(f, front) + f(collection[|collection| - 1])
  }

  /** `map_hof(f, C)`: the generator expression `(f(x) for x in C)`. */
  function MapHof<T, U>(f: T -> U, c: seq<T>): (r: seq<U>)
    ensures |r| == |c|
  {
    seq(|c|, i requires 0 <= i < |c| => f(c[i]))
  }

  /** `map_generator(f, C)`: yields f(x) for each x in turn. */
  method MapGenerator<T, U>(f: T -> U, c: seq<T>) returns (r: seq<U>)
    ensures r == MapHof(f, c)
  {
    r := [];
    for i := 0 to |c|
      invariant r == MapHof(f, c[..i])
    {
      r := r + [f(c[i])];
    }
    assert c[..|c|] == c;
  }

  /** `map_hof` is the built-in map. */
  lemma MapHofIsMap<T, U>(f: T -> U, c: seq<T>)
    ensures MapHof(f, c) == Map(f, c)
  {
  }

  /** The `mapped1` example: powers of two of 0..4. */
  lemma MappedExample()
    ensures MapHof(x => Pow(2, x), [0, 1, 2, 3, 4]) == [1, 2, 4, 8, 16]
  {
    assert Pow(2, 4) == 16;
  }

  /** `sum_recursive(collection)`: head plus the sum of the tail, 0 for an empty collection. */
  function SumRecursive(collection: seq<int>): (r: int)
    ensures r == Sum(collection)
  {
    if |collection| == 0 then 0
    else
      SumCons(collection);
      collection[0] + SumRecursive(collection[1..])
  }

  /**
   * `product_recursive(collection)`, and `prodri` on an iterator over the
   * same items: head times the product of the rest, 1 when nothing is left.
   */
  function ProductRecursive(collection: seq<int>): (r: int)
    ensures r == Product(collection)
  {
    if |collection| == 0 then 1
    else
      ProductCons(collection);
      collection[0] * ProductRecursive(collection[1..])
  }

  /** `product_tco(iterable)`: a running product from 1. */
  method ProductTco(iterable: seq<int>) returns (product: int)
    ensures product == ProductRecursive(iterable)
  {
    product := 1;
    for i := 0 to |iterable|
      invariant product == Product(iterable[..i])
    {
      assert iterable[..i + 1][..i] == iterable[..i];
      product := product * iterable[i];
    }
    assert iterable[..|iterable|] == iterable;
  }
}
