/**
 * Chapter 13, conditional expressions without `if` statements: `product` as a
 * reduction, the nested conditional `some_expression`, a dictionary keyed by
 * conditions (`factorial`, `max`), the first true alternative of a list
 * (`semifactorial`), and `sum`/`prod` as `partial(reduce, add/mul)`.
 */
module Ch13Conditional {
  import opened Py
  import opened Arith

  /** `product(iterable)`: `reduce(lambda x, y: x*y, iterable, 1)`. */
  function ProductOf(s: seq<int>): int
  {
    FoldLeft((x: int, y: int) => x * y, 1, s)
  }

  /** The reduction with initial value 1 is the product, and 1 for no factors. */
  lemma ProductOfIsProduct(s: seq<int>)
    ensures ProductOf(s) == Product(s)
    ensures s == [] ==> ProductOf(s) == 1
  {
    FoldMulIsProduct(1, s);
  }

  /** `product((1,2,3)) == 6`. */
  lemma ProductExample()
    ensures ProductOf([1, 2, 3]) == 6
  {
  }

  /** `some_expression(n, x, y, z)`: x for n == 1, y for n == 2, z otherwise. */
  function SomeExpression<T>(n: int, x: T, y: T, z: T): (r: T)
    ensures n == 1 ==> r == x
    ensures n == 2 ==> r == y
    ensures n != 1 && n != 2 ==> r == z
  {
    if n == 1 then x else if n == 2 then y else z
  }

  // ------------------------------------------ dictionaries keyed by conditions

  /** A dictionary display: entries are stored left to right, a later duplicate key overwrites. */
  function DictOf<K(!new), V>(entries: seq<(K, V)>): (m: map<K, V>)
    ensures forall k :: k in m <==> exists i :: 0 <= i < |entries| && entries[i].0 == k
  {
    if |entries| == 0 then map[]
    else
      var m := DictOf(entries[..|entries| - 1]);
      var last := entries[|entries| - 1];
      assert forall i :: 0 <= i < |entries| - 1 ==> entries[..|entries| - 1][i] == entries[i];
      m[last.0 := last.1]
  }

  /** The value stored for a key is the one from its last entry. */
  lemma {:induction false} DictOfLastWins<K(!new), V>(entries: seq<(K, V)>, i: int)
    requires 0 <= i < |entries|
    requires forall j :: i < j < |entries| ==> entries[j].0 != entries[i].0
    ensures entries[i].0 in DictOf(entries) && DictOf(entries)[entries[i].0] == entries[i].1
  {
    if i < |entries| - 1 {
      DictOfLastWins(entries[..|entries| - 1], i);
    }
  }

  /**
   * The nested conditional and a dictionary keyed by its three conditions
   * agree: exactly one key is True, so looking up True finds the branch
   * `some_expression` takes, for every n.
   */
  lemma SomeExpressionIsDictDispatch<T>(n: int, x: T, y: T, z: T)
    ensures Lookup(DictOf([(n == 1, x), (n == 2, y), (n != 1 && n != 2, z)]), true) == Ok(SomeExpression(n, x, y, z))
  {
    var entries := [(n == 1, x), (n == 2, y), (n != 1 && n != 2, z)];
    if n == 1 {
      DictOfLastWins(entries, 0);
    } else if n == 2 {
      DictOfLastWins(entries, 1);
    } else {
      DictOfLastWins(entries, 2);
    }
  }

  /** `d[key]`: a missing key raises `KeyError`. */
  function Lookup<K, V>(d: map<K, V>, key: K): (r: Outcome<V>)
    ensures r.Ok? <==> key in d
    ensures r.Ok? ==> r.value == d[key]
    ensures r.Raised? ==> r.exc == KeyError
  {
    if key in d then Ok(d[key]) else Raised(KeyError)
  }

  /** The lambdas of the factorial table: a constant, or the recursive step. */
  datatype Arm = Constant(value: int) | Recurse

  /** The table of `factorial(n)`, keyed by the four conditions. */
  function FactorialTable(n: int): map<bool, Arm>
  {
    DictOf([(n == 0, Constant(1)), (n == 1, Constant(1)), (n == 2, Constant(2)), (n > 2, Recurse)])
  }

  /**
   * For n >= 0 exactly one condition is true and its lambda is chosen; for
   * n < 0 the table has only the key `False`.
   */
  lemma FactorialTableTrue(n: int)
    ensures n < 0 ==> Lookup(FactorialTable(n), true) == Raised(KeyError)
    ensures 0 <= n <= 1 ==> Lookup(FactorialTable(n), true) == Ok(Constant(1))
    ensures n == 2 ==> Lookup(FactorialTable(n), true) == Ok(Constant(2))
    ensures n > 2 ==> Lookup(FactorialTable(n), true) == Ok(Recurse)
  {
    var e := [(n == 0, Constant(1)), (n == 1, Constant(1)), (n == 2, Constant(2)), (n > 2, Recurse)];
    if n < 0 {
      assert forall i :: 0 <= i < |e| ==> e[i].0 == false;
    } else if n == 0 {
      DictOfLastWins(e, 0);
    } else if n == 1 {
      DictOfLastWins(e, 1);
    } else if n == 2 {
      DictOfLastWins(e, 2);
    } else {
      DictOfLastWins(e, 3);
    }
  }

  /** `factorial(n)` by table lookup; the lookup fails with `KeyError` for n < 0. */
  function Factorial(n: int): Outcome<int>
    decreases if n < 0 then 0 else n
  {
    FactorialTableTrue(n);
    var arm :- Lookup(FactorialTable(n), true);
    match arm
    case Constant(v) => Ok(v)
    case Recurse =>
      var f :- Factorial(n - 1);
      Ok(f * n)
  }

  /** The table-driven factorial is n! for every n >= 0, and a `KeyError` below. */
  lemma {:induction false} FactorialIsFact(n: int)
    ensures n >= 0 ==> Factorial(n) == Ok(Fact(n))
    ensures n < 0 ==> Factorial(n) == Raised(KeyError)
    decreases if n < 0 then 0 else n
  {
    FactorialTableTrue(n);
    if n > 2 {
      FactorialIsFact(n - 1);
      FactStep(n);
    } else if n == 2 {
      FactStep(2);
      FactStep(1);
    } else if n == 1 {
      FactStep(1);
    }
  }

  /**
   * `max(a, b)` by table lookup. When a == b both keys are `True` and the
   * second entry overwrites the first, which returns the same value.
   */
  function Max(a: int, b: int): (r: int)
    ensures r >= a && r >= b
    ensures r == a || r == b
  {
    var e := [(a >= b, a), (b >= a, b)];
    if b >= a then
      DictOfLastWins(e, 1);
      DictOf(e)[true]
    else
      DictOfLastWins(e, 0);
      DictOf(e)[true]
  }

  /** The tie case keeps the second entry. */
  lemma MaxTie(a: int)
    ensures DictOf([(a >= a, a), (a >= a, a)]) == map[true := a]
  {
  }

  // ------------------------------------------------ first true alternative

  /** `next(filter(itemgetter(0), alternatives))`: no true condition raises `StopIteration`. */
  function FirstTrue<V>(alternatives: seq<(bool, V)>): (r: Outcome<V>)
    ensures r.Ok? <==> exists i :: 0 <= i < |alternatives| && alternatives[i].0
    ensures r.Raised? ==> r.exc == StopIteration
  {
    if |alternatives| == 0 then Raised(StopIteration)
    else if alternatives[0].0 then Ok(alternatives[0].1)
    else
      assert forall i :: 1 <= i < |alternatives| ==> alternatives[i] == alternatives[1..][i - 1];
      FirstTrue(alternatives[1..])
  }

  /** The alternatives of `semifactorial(n)`. */
  function SemifactorialAlternatives(n: int): seq<(bool, Arm)>
  {
    [(n == 0, Constant(1)), (n == 1, Constant(1)), (n == 2, Constant(2)), (n > 2, Recurse)]
  }

  lemma SemifactorialChoice(n: int)
    ensures n < 0 ==> FirstTrue(SemifactorialAlternatives(n)) == Raised(StopIteration)
    ensures 0 <= n <= 1 ==> FirstTrue(SemifactorialAlternatives(n)) == Ok(Constant(1))
    ensures n == 2 ==> FirstTrue(SemifactorialAlternatives(n)) == Ok(Constant(2))
    ensures n > 2 ==> FirstTrue(SemifactorialAlternatives(n)) == Ok(Recurse)
  {
    var a := SemifactorialAlternatives(n);
    if n >= 2 {
      assert FirstTrue(a[2..]) == (if n == 2 then Ok(Constant(2)) else FirstTrue(a[3..]));
      assert FirstTrue(a[3..]) == (if n > 2 then Ok(Recurse) else Raised(StopIteration));
      assert FirstTrue(a) == FirstTrue(a[1..]) == FirstTrue(a[2..]);
    }
  }

  /** `semifactorial(n)`: the first alternative whose condition holds; n < 0 has none. */
  function Semifactorial(n: int): Outcome<int>
    decreases if n < 0 then 0 else n
  {
    SemifactorialChoice(n);
    var arm :- FirstTrue(SemifactorialAlternatives(n));
    match arm
    case Constant(v) => Ok(v)
    case Recurse =>
      var f :- Semifactorial(n - 2);
      Ok(f * n)
  }

  /** The numbers 1..n with the parity of n. */
  function SameParity(n: int): seq<int>
  {
    Filter(ParityOf(n), Range(1, n + 1))
  }

  /** Whether a number has the parity of n. */
  function ParityOf(n: int): int -> bool
  {
    k => k % 2 == n % 2
  }

  /**
   * `semifactorial(n)` is the product of the numbers 1..n of the same
   * parity as n; for n < 0 it raises `StopIteration`.
   */
  lemma {:induction false} SemifactorialIsProduct(n: int)
    ensures n >= 0 ==> Semifactorial(n) == Ok(Product(SameParity(n)))
    ensures n < 0 ==> Semifactorial(n) == Raised(StopIteration)
    decreases if n < 0 then 0 else n
  {
    SemifactorialChoice(n);
    if n > 2 {
      SemifactorialIsProduct(n - 2);
      SameParityStep(n);
      ProductAppend(SameParity(n - 2), [n]);
    } else if n >= 0 {
      SameParitySmall(n);
    }
  }

  lemma SameParitySmall(n: int)
    requires 0 <= n <= 2
    ensures Product(SameParity(n)) == (if n == 2 then 2 else 1)
  {
    var p := ParityOf(n);
    if n == 0 {
      assert Range(1, 1) == [];
    } else if n == 1 {
      assert Range(1, 2) == [1];
      FilterSingle(p, 1);
    } else {
      assert Range(1, 3) == [1, 2];
      assert Filter(p, [1, 2]) == [2] by {
        assert [1, 2][1..] == [2];
        FilterSingle(p, 2);
      }
      assert Product([2]) == 2;
    }
  }

  /** Two more steps of the range add n, and n - 1 of the other parity is skipped. */
  lemma SameParityStep(n: int)
    requires n >= 2
    ensures SameParity(n) == SameParity(n - 2) + [n]
  {
    var p := ParityOf(n);
    var front := Range(1, n - 1);
    RangeTwoMore(n);
    FilterAppend(p, front, [n - 1, n]);
    ParityFront(n);
    ParityPair(n);
  }

  lemma RangeTwoMore(n: int)
    requires n >= 2
    ensures Range(1, n + 1) == Range(1, n - 1) + [n - 1, n]
  {
    RangeSnoc(1, n - 1);
    RangeSnoc(1, n);
  }

  lemma ParityFront(n: int)
    requires n >= 2
    ensures Filter(ParityOf(n), Range(1, n - 1)) == SameParity(n - 2)
  {
    assert forall k :: ParityOf(n)(k) == ParityOf(n - 2)(k) by {
      assert (n - 2) % 2 == n % 2;
    }
    FilterSameFunction(ParityOf(n), ParityOf(n - 2), Range(1, n - 1));
  }

  lemma ParityPair(n: int)
    ensures Filter(ParityOf(n), [n - 1, n]) == [n]
  {
    assert [n - 1, n][1..] == [n];
    FilterSingle(ParityOf(n), n);
  }

  lemma {:induction false} FilterSameFunction<T>(p: T -> bool, q: T -> bool, s: seq<T>)
    requires forall x :: p(x) == q(x)
    ensures Filter(p, s) == Filter(q, s)
  {
    if |s| > 0 {
      FilterSameFunction(p, q, s[1..]);
    }
  }

  /** The recursion of `semifactorial` computes the double factorial n!!. */
  lemma {:induction false} SemifactorialIsDoubleFact(n: nat)
    ensures Semifactorial(n) == Ok(DoubleFact(n))
    decreases n
  {
    SemifactorialChoice(n);
    if n > 2 {
      var f := DoubleFact(n - 2);
      assert DoubleFact(n) == f * n;
      assert Semifactorial(n - 2) == Ok(f) by {
        SemifactorialIsDoubleFact(n - 2);
      }
    }
  }

  // ------------------------------------------------ reducing with operators

  /** `sum = partial(reduce, add)`: no initial value. */
  function SumReduce(s: seq<int>): Outcome<int>
  {
    Reduce((a: int, b: int) => a + b, s)
  }

  /** `prod = partial(reduce, mul)`: no initial value. */
  function ProdReduce(s: seq<int>): Outcome<int>
  {
    Reduce((a: int, b: int) => a * b, s)
  }

  /** `sum` needs at least one element; on one or more it is the sum. */
  lemma SumReduceSpec(s: seq<int>)
    ensures |s| == 0 ==> SumReduce(s) == Raised(TypeError)
    ensures |s| > 0 ==> SumReduce(s) == Ok(Sum(s))
  {
    if |s| > 0 {
      FoldAddIsSum(s[0], s[1..]);
      SumCons(s);
    }
  }

  /** `prod` needs at least one element; on one or more it is the product. */
  lemma ProdReduceSpec(s: seq<int>)
    ensures |s| == 0 ==> ProdReduce(s) == Raised(TypeError)
    ensures |s| > 0 ==> ProdReduce(s) == Ok(Product(s))
  {
    if |s| > 0 {
      FoldMulIsProduct(s[0], s[1..]);
      ProductCons(s);
    }
  }
}
