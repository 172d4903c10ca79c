/**
 * Chapter 10: the functools module.  A memoised Fibonacci, a playing card
 * decorated with `total_ordering` over `__eq__` and `__lt__` (whose other
 * comparisons it inherits from `tuple`), the reductions the
 * chapter builds from `reduce` (note that the script rebinds the names `sum`,
 * `min` and `max` to them, so `calc_mean` uses the reduce-based `sum`), a
 * small map-reduce, and a grouping that sorts its keys itself.
 */
module Ch10HigherOrder {
  import opened Py
  import opened Arith
  import Ch04Structure
  import Ch06Recursion
  import Ch06Grouping
  import Ch08Finite

  // ---------------------------------------------------------------------------
  // fibonacci_lru

  /** A cache whose every entry holds the right Fibonacci number. */
  predicate CacheSound(cache: map<nat, nat>)
  {
    forall k :: k in cache ==> cache[k] == Fib(k)
  }

  /**
   * `fibonacci_lru(n)` with its cache made explicit: a hit returns the stored
   * value; a miss computes `n - 1` (filling the cache), then `n - 2`, and
   * stores the sum.  Returns the value and the cache afterwards.
   */
  function FibonacciLru(n: nat, cache: map<nat, nat>): (nat, map<nat, nat>)
    decreases n
  {
    if n in cache then (cache[n], cache)
    else if n == 0 then (0, cache[0 := 0])
    else if n == 1 then (1, cache[1 := 1])
    else
      var first := FibonacciLru(n - 1, cache);
      var second := FibonacciLru(n - 2, first.1);
      (first.0 + second.0, second.1[n := first.0 + second.0])
  }

  /**
   * The cached function computes the same numbers as `fibonacci`, keeps every
   * entry it found, never stores a wrong value, and leaves `n` cached.
   */
  lemma CacheStore(cache: map<nat, nat>, n: nat, v: nat)
    requires CacheSound(cache) && v == Fib(n)
    ensures CacheSound(cache[n := v])
  {
  }

  /** The cache only grows: every entry found stays as it was, and `n` is added. */
  lemma {:induction false} FibonacciLruExtends(n: nat, cache: map<nat, nat>)
    ensures n in FibonacciLru(n, cache).1
    ensures forall k :: k in cache ==> k in FibonacciLru(n, cache).1 && FibonacciLru(n, cache).1[k] == cache[k]
    decreases n
  {
    if n !in cache && n >= 2 {
      FibonacciLruExtends(n - 1, cache);
      FibonacciLruExtends(n - 2, FibonacciLru(n - 1, cache).1);
    }
  }

  /**
   * The cached function computes the same numbers as `fibonacci`, and never
   * stores a wrong value.
   */
  lemma {:induction false} FibonacciLruCorrect(n: nat, cache: map<nat, nat>)
    requires CacheSound(cache)
    ensures FibonacciLru(n, cache).0 == Ch06Recursion.Fibonacci(n)
    ensures CacheSound(FibonacciLru(n, cache).1)
    decreases n
  {
    if n in cache {
    } else if n <= 1 {
      assert Fib(n) == n;
      CacheStore(cache, n, n);
    } else {
      FibonacciLruCorrect(n - 1, cache);
      var first := FibonacciLru(n - 1, cache);
      FibonacciLruCorrect(n - 2, first.1);
      var second := FibonacciLru(n - 2, first.1);
      FibStep(n);
      CacheStore(second.1, n, first.0 + second.0);
    }
  }

  /** A second call with the cache the first one left is a hit: same value, same cache. */
  lemma FibonacciLruHit(n: nat, cache: map<nat, nat>)
    requires CacheSound(cache)
    ensures FibonacciLru(n, FibonacciLru(n, cache).1) == (FibonacciLru(n, cache).0, FibonacciLru(n, cache).1)
  {
    FibonacciLruCorrect(n, cache);
    FibonacciLruExtends(n, cache);
  }

  // ---------------------------------------------------------------------------
  // Card and total_ordering

  /**
   * `Card(rank, suit)`: a tuple subclass.  It defines `__eq__` and `__lt__`
   * on the rank alone; `total_ordering` only fills in comparisons a class
   * lacks, and `tuple` already supplies `<=`, `>`, `>=` and `!=`, so those four
   * stay the tuple's own comparisons of (rank, suit).  A suit is a
   * one-character string, ordered by its code point.
   */
  datatype Card = Card(rank: int, suit: char)

  /**
   * The right-hand side of a comparison: another card, a number, or anything
   * else that is neither a tuple nor a number (a string, None).
   */
  datatype Operand = CardOperand(card: Card) | Number(value: int) | Other

  /**
   * `Card.__eq__`: compares ranks with a card or with a bare number.  Anything
   * else falls off the end of the method, which returns None.
   */
  function CardEq(self: Card, other: Operand): Option<bool>
  {
    match other
    case CardOperand(c) => Some(self.rank == c.rank)
    case Number(v) => Some(self.rank == v)
    case Other => None
  }

  /** `Card.__lt__`, the same shape as `__eq__`. */
  function CardLt(self: Card, other: Operand): Option<bool>
  {
    match other
    case CardOperand(c) => Some(self.rank < c.rank)
    case Number(v) => Some(self.rank < v)
    case Other => None
  }

  /** Python truthiness of a comparison result; None is false. */
  predicate Truthy(r: Option<bool>)
  {
    r == Some(true)
  }

  /**
   * `tuple.__le__` on two cards: the first position where the pairs differ
   * decides, and equal pairs compare as `<=`.
   */
  predicate TupleLe(a: Card, b: Card)
  {
    if a.rank != b.rank then a.rank < b.rank else a.suit <= b.suit
  }

  /**
   * `<=`, `>` and `>=` as the class has them: tuple comparisons against a
   * card.  Against a number or any other non-tuple both sides answer
   * NotImplemented and Python raises TypeError.
   */
  function CardLe(self: Card, other: Operand): Outcome<bool>
  {
    match other
    case CardOperand(c) => Ok(TupleLe(self, c))
    case _ => Raised(TypeError)
  }

  function CardGt(self: Card, other: Operand): Outcome<bool>
  {
    match other
    case CardOperand(c) => Ok(!TupleLe(self, c))
    case _ => Raised(TypeError)
  }

  function CardGe(self: Card, other: Operand): Outcome<bool>
  {
    match other
    case CardOperand(c) => Ok(TupleLe(c, self))
    case _ => Raised(TypeError)
  }

  /**
   * `!=` is `tuple.__ne__`: the pairs differ.  Against a non-tuple both sides
   * answer NotImplemented and Python falls back to identity, which is true.
   */
  predicate CardNe(self: Card, other: Operand)
  {
    match other
    case CardOperand(c) => self != c
    case _ => true
  }

  /** The card's rank, or the number, that a comparison is against. */
  function RankOf(other: Operand): int
    requires !other.Other?
  {
    match other
    case CardOperand(c) => c.rank
    case Number(v) => v
  }

  /** Against a card or a number, the class's own `==` and `<` follow the integer order on ranks. */
  lemma CardOrderIsRankOrder(self: Card, other: Operand)
    requires !other.Other?
    ensures Truthy(CardEq(self, other)) <==> self.rank == RankOf(other)
    ensures Truthy(CardLt(self, other)) <==> self.rank < RankOf(other)
  {
  }

  /** Cards of equal rank are equal whatever their suits, and equal to the bare rank. */
  lemma CardSuitIgnored(rank: int, s1: char, s2: char)
    ensures CardEq(Card(rank, s1), CardOperand(Card(rank, s2))) == Some(true)
    ensures CardEq(Card(rank, s1), Number(rank)) == Some(true)
  {
  }

  /**
   * Between two cards, the inherited `<=` is a total order on (rank, suit)
   * pairs: any two cards compare one way or the other, only identical pairs
   * compare both ways, and `>`, `>=` are its complement and converse.
   */
  lemma CardTupleOrderIsTotal(a: Card, b: Card, c: Card)
    ensures TupleLe(a, b) || TupleLe(b, a)
    ensures TupleLe(a, b) && TupleLe(b, a) ==> a == b
    ensures TupleLe(a, b) && TupleLe(b, c) ==> TupleLe(a, c)
    ensures CardGt(a, CardOperand(b)) == Ok(!TupleLe(a, b))
    ensures CardGe(a, CardOperand(b)) == CardLe(b, CardOperand(a))
  {
  }

  /**
   * Where ranks differ, all six comparisons between two cards follow the
   * rank order, so on such cards the inherited operators and the class's
   * own agree.
   */
  lemma CardDistinctRanksFollowRank(a: Card, b: Card)
    requires a.rank != b.rank
    ensures CardEq(a, CardOperand(b)) == Some(false) && CardNe(a, CardOperand(b))
    ensures CardLt(a, CardOperand(b)) == Some(a.rank < b.rank)
    ensures CardLe(a, CardOperand(b)) == Ok(a.rank < b.rank)
    ensures CardGt(a, CardOperand(b)) == Ok(a.rank > b.rank)
    ensures CardGe(a, CardOperand(b)) == Ok(a.rank > b.rank)
  {
  }

  /**
   * On equal ranks the two families part: `==` is true while `!=` is true as
   * well whenever the suits differ, and `<=` then depends on the suits alone.
   */
  lemma CardEqualRanksSplit(a: Card, b: Card)
    requires a.rank == b.rank
    ensures CardEq(a, CardOperand(b)) == Some(true) && CardLt(a, CardOperand(b)) == Some(false)
    ensures CardNe(a, CardOperand(b)) <==> a.suit != b.suit
    ensures CardLe(a, CardOperand(b)) == Ok(a.suit <= b.suit)
  {
  }

  /**
   * The 2 of hearts and the 2 of spades: `==` says equal and `<` says not
   * less, yet `<=` says False and `!=` says True, because U+2665 follows
   * U+2660.  So `a <= b` is not `a < b or a == b` for this class.
   */
  lemma CardLeNotLtOrEq()
    ensures CardEq(Card(2, '♥'), CardOperand(Card(2, '♠'))) == Some(true)
    ensures CardLt(Card(2, '♥'), CardOperand(Card(2, '♠'))) == Some(false)
    ensures CardLe(Card(2, '♥'), CardOperand(Card(2, '♠'))) == Ok(false)
    ensures CardNe(Card(2, '♥'), CardOperand(Card(2, '♠')))
  {
  }

  /**
   * Against a number, `==` and `<` compare the rank while `<=`, `>`, `>=`
   * raise TypeError and `!=` is true even when the rank equals the number.
   */
  lemma CardAgainstNumber(self: Card, v: int)
    ensures CardEq(self, Number(v)) == Some(self.rank == v) && CardLt(self, Number(v)) == Some(self.rank < v)
    ensures CardLe(self, Number(v)) == Raised(TypeError) && CardGt(self, Number(v)) == Raised(TypeError)
    ensures CardGe(self, Number(v)) == Raised(TypeError)
    ensures CardNe(self, Number(v))
  {
  }

  /**
   * Against anything that is neither a tuple nor a number, `==` and `<` give
   * None, `<=`, `>`, `>=` raise TypeError, and `!=` is true.
   */
  lemma CardAgainstOther(self: Card)
    ensures CardEq(self, Other) == None && CardLt(self, Other) == None
    ensures CardLe(self, Other) == Raised(TypeError) && CardGt(self, Other) == Raised(TypeError)
    ensures CardGe(self, Other) == Raised(TypeError)
    ensures CardNe(self, Other)
  {
  }

  /**
   * The comparisons shown for 2 of spades, 3 of hearts and 4 of clubs; each
   * holds with the inherited tuple operators too, because the ranks differ
   * or the cards are identical.
   */
  lemma CardExamples()
    ensures CardLe(Card(2, '♠'), CardOperand(Card(3, '♥'))) == Ok(true)
    ensures Truthy(CardLt(Card(3, '♥'), CardOperand(Card(4, '♣'))))
    ensures CardGe(Card(3, '♥'), CardOperand(Card(3, '♥'))) == Ok(true)
    ensures CardGt(Card(3, '♥'), CardOperand(Card(2, '♠'))) == Ok(true)
    ensures CardNe(Card(4, '♣'), CardOperand(Card(2, '♠')))
    ensures Truthy(CardEq(Card(2, '♥'), CardOperand(Card(2, '♠'))))
    ensures Truthy(CardEq(Card(2, '♥'), Number(2)))
  {
  }

  // Rank-only comparisons: what `total_ordering` would derive from `__eq__`
  // and `__lt__` for a class that did not inherit tuple's own operators.

  /** `!=` as the inverse of `__eq__`'s truth value, so `not None` makes it true. */
  predicate CardNeByRank(self: Card, other: Operand)
  {
    !Truthy(CardEq(self, other))
  }

  /** `<=` as `a < b or a == b`, keeping the operand that decides. */
  function CardLeByRank(self: Card, other: Operand): Option<bool>
  {
    var lt := CardLt(self, other);
    if Truthy(lt) then lt else CardEq(self, other)
  }

  /** `>` as `not a < b and a != b`. */
  predicate CardGtByRank(self: Card, other: Operand)
  {
    !Truthy(CardLt(self, other)) && CardNeByRank(self, other)
  }

  /** `>=` as `not a < b`. */
  predicate CardGeByRank(self: Card, other: Operand)
  {
    !Truthy(CardLt(self, other))
  }

  /**
   * With the rank-only derivations all six comparisons follow the integer
   * order on ranks against a card or a number; the suit never matters.
   */
  lemma CardByRankIsRankOrder(self: Card, other: Operand)
    requires !other.Other?
    ensures Truthy(CardEq(self, other)) <==> self.rank == RankOf(other)
    ensures CardNeByRank(self, other) <==> self.rank != RankOf(other)
    ensures Truthy(CardLt(self, other)) <==> self.rank < RankOf(other)
    ensures Truthy(CardLeByRank(self, other)) <==> self.rank <= RankOf(other)
    ensures CardGtByRank(self, other) <==> self.rank > RankOf(other)
    ensures CardGeByRank(self, other) <==> self.rank >= RankOf(other)
  {
  }

  /** The rank-only versions agree with the inherited ones wherever the ranks differ. */
  lemma CardByRankAgreesOnDistinctRanks(a: Card, b: Card)
    requires a.rank != b.rank
    ensures CardLe(a, CardOperand(b)) == Ok(Truthy(CardLeByRank(a, CardOperand(b))))
    ensures CardGt(a, CardOperand(b)) == Ok(CardGtByRank(a, CardOperand(b)))
    ensures CardGe(a, CardOperand(b)) == Ok(CardGeByRank(a, CardOperand(b)))
    ensures CardNe(a, CardOperand(b)) == CardNeByRank(a, CardOperand(b))
  {
  }

  // ---------------------------------------------------------------------------
  // Reductions built from reduce

  function Add(x: int, y: int): int { x + y }

  function Square(y: int): int { y * y }

  /** `count`: `reduce(lambda x, y: x+1, iterable, 0)`. */
  function ReduceCount<T>(s: seq<T>): int
  {
    FoldLeft((x: int, y: T) => x + 1, 0, s)
  }

  /** `sum`: `reduce(lambda x, y: x+y, iterable)`, with no initial value. */
  function ReduceSum(s: seq<int>): Outcome<int>
  {
    Reduce((x: int, y: int) => x + y, s)
  }

  /** `sum2`: `reduce(lambda x,y: x+y**2, iterable, 0)`. */
  function ReduceSum2(s: seq<int>): int
  {
    FoldLeft((x: int, y: int) => x + y * y, 0, s)
  }

  /** `reduce(lambda x,y: x+y**2, iterable)` without the 0: the first item is not squared. */
  function ReduceSum2NoInit(s: seq<int>): Outcome<int>
  {
    Reduce((x: int, y: int) => x + y * y, s)
  }

  /** `min`: `reduce(lambda x, y: x if x < y else y, iterable)`. */
  function ReduceMin(s: seq<int>): Outcome<int>
  {
    Reduce((x: int, y: int) => if x < y then x else y, s)
  }

  /** `max`: `reduce(lambda x, y: x if x > y else y, iterable)`. */
  function ReduceMax(s: seq<int>): Outcome<int>
  {
    Reduce((x: int, y: int) => if x > y then x else y, s)
  }

  lemma {:induction false} FoldCount<T>(init: int, s: seq<T>)
    ensures FoldLeft((x: int, y: T) => x + 1, init, s) == init + |s|
    decreases |s|
  {
    if |s| > 0 {
      FoldCount(init + 1, s[1..]);
    }
  }

  lemma {:induction false} FoldSquares(init: int, s: seq<int>)
    ensures FoldLeft((x: int, y: int) => x + y * y, init, s) == init + Sum(Map(Square, s))
    decreases |s|
  {
    if |s| > 0 {
      FoldSquares(init + s[0] * s[0], s[1..]);
      SumCons(Map(Square, s));
      assert Map(Square, s)[1..] == Map(Square, s[1..]);
    }
  }

  lemma {:induction false} FoldMin(init: int, s: seq<int>)
    ensures var m := FoldLeft((x: int, y: int) => if x < y then x else y, init, s);
      (m == init || m in s) && m <= init && forall i :: 0 <= i < |s| ==> m <= s[i]
    decreases |s|
  {
    if |s| > 0 {
      FoldMin(if init < s[0] then init else s[0], s[1..]);
      assert forall i :: 1 <= i < |s| ==> s[i] == s[1..][i - 1];
    }
  }

  lemma {:induction false} FoldMax(init: int, s: seq<int>)
    ensures var m := FoldLeft((x: int, y: int) => if x > y then x else y, init, s);
      (m == init || m in s) && m >= init && forall i :: 0 <= i < |s| ==> m >= s[i]
    decreases |s|
  {
    if |s| > 0 {
      FoldMax(if init > s[0] then init else s[0], s[1..]);
      assert forall i :: 1 <= i < |s| ==> s[i] == s[1..][i - 1];
    }
  }

  /** The reduce-based `count` is the length. */
  lemma ReduceCountIsLength<T>(s: seq<T>)
    ensures ReduceCount(s) == |s|
  {
    FoldCount(0, s);
  }

  /** The reduce-based `sum` is the sum, and raises TypeError on empty input. */
  lemma ReduceSumIsSum(s: seq<int>)
    ensures ReduceSum(s) == if |s| == 0 then Raised(TypeError) else Ok(Sum(s))
  {
    if |s| > 0 {
      FoldAddIsSum(s[0], s[1..]);
      SumCons(s);
    }
  }

  /** With the 0 initialiser every item is squared; without it the first item is added as is. */
  lemma ReduceSum2IsSumOfSquares(s: seq<int>)
    ensures ReduceSum2(s) == Sum(Map(Square, s))
    ensures ReduceSum2NoInit(s) == if |s| == 0 then Raised(TypeError) else Ok(s[0] + Sum(Map(Square, s[1..])))
  {
    FoldSquares(0, s);
    if |s| > 0 {
      FoldSquares(s[0], s[1..]);
    }
  }

  /** The reduce-based `min` and `max` return the least and greatest item. */
  lemma ReduceMinMax(s: seq<int>)
    ensures ReduceMin(s).Ok? <==> |s| > 0
    ensures ReduceMax(s).Ok? <==> |s| > 0
    ensures ReduceMin(s).Raised? ==> ReduceMin(s).exc == TypeError
    ensures |s| > 0 ==> ReduceMin(s).value in s && forall i :: 0 <= i < |s| ==> ReduceMin(s).value <= s[i]
    ensures |s| > 0 ==> ReduceMax(s).value in s && forall i :: 0 <= i < |s| ==> ReduceMax(s).value >= s[i]
  {
    if |s| > 0 {
      FoldMin(s[0], s[1..]);
      FoldMax(s[0], s[1..]);
      assert forall i :: 1 <= i < |s| ==> s[i] == s[1..][i - 1];
    }
  }

  /** `someList` from the chapter. */
  function SomeList(): seq<int>
  {
    [2, 4, 4, 4, 5, 5, 7, 9]
  }

  lemma SumOfEight(s: seq<int>)
    requires |s| == 8
    ensures Sum(s) == s[0] + s[1] + s[2] + s[3] + s[4] + s[5] + s[6] + s[7]
  {
    assert Sum(s[..1]) == s[0] by { assert s[..1][..0] == []; }
    assert Sum(s[..2]) == Sum(s[..1]) + s[1] by { assert s[..2][..1] == s[..1]; }
    assert Sum(s[..3]) == Sum(s[..2]) + s[2] by { assert s[..3][..2] == s[..2]; }
    assert Sum(s[..4]) == Sum(s[..3]) + s[3] by { assert s[..4][..3] == s[..3]; }
    assert Sum(s[..5]) == Sum(s[..4]) + s[4] by { assert s[..5][..4] == s[..4]; }
    assert Sum(s[..6]) == Sum(s[..5]) + s[5] by { assert s[..6][..5] == s[..5]; }
    assert Sum(s[..7]) == Sum(s[..6]) + s[6] by { assert s[..7][..6] == s[..6]; }
    assert s[..8] == s;
  }

  /** The worked sums: 40 plainly, 232 squared with the 0, 230 squared without it. */
  lemma SomeListExamples()
    ensures ReduceSum(SomeList()) == Ok(40)
    ensures ReduceSum2(SomeList()) == 232
    ensures ReduceSum2NoInit(SomeList()) == Ok(230)
  {
    var s := SomeList();
    ReduceSumIsSum(s);
    SumOfEight(s);
    ReduceSum2IsSumOfSquares(s);
    var sq := Map(Square, s);
    SumOfEight(sq);
    SumCons(sq);
    assert sq[1..] == Map(Square, s[1..]);
  }

  // ---------------------------------------------------------------------------
  // map_reduce

  /** `map_reduce(map_function, reduce_function, iterable)`. */
  function MapReduce<T, U>(mapFn: T -> U, reduceFn: (U, U) -> U, iterable: seq<T>): Outcome<U>
  {
    Reduce(reduceFn, Map(mapFn, iterable))
  }

  /** `sum2_mr`: squares with a lambda, added with a lambda. */
  function Sum2Mr(iterable: seq<int>): Outcome<int>
  {
    MapReduce(Square, (x: int, y: int) => x + y, iterable)
  }

  /** `sum2_mr2`: the same with `operator.add`. */
  function Sum2Mr2(iterable: seq<int>): Outcome<int>
  {
    MapReduce(Square, Add, iterable)
  }

  /** `len_mr`: every item maps to 1, then the ones are added. */
  function LenMr<T>(iterable: seq<T>): Outcome<int>
  {
    MapReduce((y: T) => 1, Add, iterable)
  }

  lemma {:induction false} FoldAddNamed(init: int, s: seq<int>)
    ensures FoldLeft(Add, init, s) == init + Sum(s)
    decreases |s|
  {
    if |s| > 0 {
      SumCons(s);
      FoldAddNamed(init + s[0], s[1..]);
    }
  }

  lemma {:induction false} FoldAddOnes<T>(init: int, t: seq<T>)
    ensures FoldLeft(Add, init, Map((y: T) => 1, t)) == init + |t|
    decreases |t|
  {
    if |t| > 0 {
      assert Map((y: T) => 1, t)[1..] == Map((y: T) => 1, t[1..]);
      FoldAddOnes(init + 1, t[1..]);
    }
  }

  /**
   * Both map-reduce sums of squares give the sum of squares, and `len_mr` the
   * length, on non-empty input; on empty input `reduce` raises TypeError.
   */
  lemma MapReduceSpec<T>(s: seq<int>, t: seq<T>)
    ensures Sum2Mr(s) == Sum2Mr2(s)
    ensures Sum2Mr(s) == if |s| == 0 then Raised(TypeError) else Ok(Sum(Map(Square, s)))
    ensures LenMr(t) == if |t| == 0 then Raised(TypeError) else Ok(|t|)
  {
    var sq := Map(Square, s);
    if |s| > 0 {
      SumCons(sq);
      FoldAddIsSum(sq[0], sq[1..]);
      FoldAddNamed(sq[0], sq[1..]);
    }
    if |t| > 0 {
      FoldAddOnes(1, t[1..]);
      assert Map((y: T) => 1, t)[1..] == Map((y: T) => 1, t[1..]);
    }
  }

  /** `reduce(operator.add, ["1", ",", "2", ",", "3"], "")` concatenates the strings. */
  lemma ConcatenateByReduce()
    ensures FoldLeft((acc: string, row: string) => acc + row, "", ["1", ",", "2", ",", "3"]) == "1,2,3"
  {
    Ch04Structure.FoldConcat("", ["1", ",", "2", ",", "3"]);
    assert Flatten(["1", ",", "2", ",", "3"]) == "1,2,3";
  }

  // ---------------------------------------------------------------------------
  // custom_groupby

  /** What `sorted` needs of the keys: a strict total order. */
  ghost predicate StrictTotalOrder<K(!new)>(less: (K, K) -> bool)
  {
    && (forall a :: !less(a, a))
    && (forall a, b, c :: less(a, b) && less(b, c) ==> less(a, c))
    && (forall a, b :: a != b ==> less(a, b) || less(b, a))
  }

  predicate Ascending<K>(s: seq<K>, less: (K, K) -> bool)
  {
    forall i, j :: 0 <= i < j < |s| ==> less(s[i], s[j])
  }

  /** Insert `x` before the first key it is less than. */
  function InsertKey<K(!new)>(x: K, s: seq<K>, less: (K, K) -> bool): (r: seq<K>)
    ensures |r| == |s| + 1
    ensures forall k :: k in r <==> k == x || k in s
  {
    if |s| == 0 then [x]
    else if less(x, s[0]) then [x] + s
    else [s[0]] + InsertKey(x, s[1..], less)
  }

  /** `sorted(keys)` by insertion. */
  function SortKeys<K(!new)>(s: seq<K>, less: (K, K) -> bool): (r: seq<K>)
    ensures |r| == |s|
    ensures forall k :: k in r <==> k in s
  {
    if |s| == 0 then [] else InsertKey(s[0], SortKeys(s[1..], less), less)
  }

  lemma {:induction false} InsertKeyAscending<K(!new)>(x: K, s: seq<K>, less: (K, K) -> bool)
    requires StrictTotalOrder(less)
    requires Ascending(s, less) && x !in s
    ensures Ascending(InsertKey(x, s, less), less)
  {
    if |s| > 0 && !less(x, s[0]) {
      assert less(s[0], x);
      InsertKeyAscending(x, s[1..], less);
      var r := InsertKey(x, s[1..], less);
      forall j | 0 <= j < |r|
        ensures less(s[0], r[j])
      {
        assert r[j] in r;
        if r[j] != x {
          var i :| 0 <= i < |s[1..]| && s[1..][i] == r[j];
          assert s[1..][i] == s[i + 1];
        }
      }
    }
  }

  /** Sorting distinct keys gives them in strictly ascending order. */
  lemma {:induction false} SortKeysAscending<K(!new)>(s: seq<K>, less: (K, K) -> bool)
    requires StrictTotalOrder(less)
    requires forall i, j :: 0 <= i < j < |s| ==> s[i] != s[j]
    ensures Ascending(SortKeys(s, less), less)
  {
    if |s| > 0 {
      SortKeysAscending(s[1..], less);
      assert s[0] !in s[1..];
      InsertKeyAscending(s[0], SortKeys(s[1..], less), less);
    }
  }

  /**
   * `custom_groupby(iterable, key)`: append each row to `pd[key(row)]`, then
   * yield `(k, pd[k])` for `k in sorted(pd)`.
   */
  method CustomGroupBy<T, K(==,!new)>(iterable: seq<T>, key: T -> K, less: (K, K) -> bool)
    returns (r: seq<(K, seq<T>)>)
    ensures |r| == |SortKeys(Ch08Finite.FirstSeen(Map(key, iterable)), less)|
    ensures forall i :: 0 <= i < |r| ==>
      r[i] == (SortKeys(Ch08Finite.FirstSeen(Map(key, iterable)), less)[i],
               Filter(Ch06Grouping.HasKey(key, SortKeys(Ch08Finite.FirstSeen(Map(key, iterable)), less)[i]), iterable))
  {
    var keys: seq<K> := [];
    var pd: map<K, seq<T>> := map[];
    for i := 0 to |iterable|
      invariant Ch08Finite.Buckets(key, iterable[..i], keys, pd)
    {
      Ch08Finite.BucketsStep(key, iterable[..i], iterable[i], keys, pd);
      assert iterable[..i + 1] == iterable[..i] + [iterable[i]];
      var k := key(iterable[i]);
      if k in pd {
        pd := pd[k := pd[k] + [iterable[i]]];
      } else {
        keys := keys + [k];
        pd := pd[k := [iterable[i]]];
      }
    }
    assert iterable[..|iterable|] == iterable;
    var sortedKeys := SortKeys(keys, less);
    r := [];
    for j := 0 to |sortedKeys|
      invariant |r| == j
      invariant forall i :: 0 <= i < j ==>
        r[i] == (sortedKeys[i], Filter(Ch06Grouping.HasKey(key, sortedKeys[i]), iterable))
    {
      assert sortedKeys[j] in keys;
      r := r + [(sortedKeys[j], pd[sortedKeys[j]])];
    }
  }

  /**
   * What `custom_groupby` promises: the keys come out strictly ascending, one
   * per distinct key of the input, whatever the input order; each with its
   * rows in input order, and no group is empty.
   */
  lemma CustomGroupBySpec<T, K(!new)>(iterable: seq<T>, key: T -> K, less: (K, K) -> bool)
    requires StrictTotalOrder(less)
    ensures Ascending(SortKeys(Ch08Finite.FirstSeen(Map(key, iterable)), less), less)
    ensures forall k :: k in SortKeys(Ch08Finite.FirstSeen(Map(key, iterable)), less) <==> k in Map(key, iterable)
    ensures forall k :: k in SortKeys(Ch08Finite.FirstSeen(Map(key, iterable)), less) ==>
      |Filter(Ch06Grouping.HasKey(key, k), iterable)| > 0
  {
    var ks := Ch08Finite.FirstSeen(Map(key, iterable));
    Ch08Finite.FirstSeenSpec(Map(key, iterable));
    SortKeysAscending(ks, less);
    forall k | k in SortKeys(ks, less)
      ensures |Filter(Ch06Grouping.HasKey(key, k), iterable)| > 0
    {
      var j :| 0 <= j < |iterable| && Map(key, iterable)[j] == k;
      FilterKeeps(Ch06Grouping.HasKey(key, k), iterable, iterable[j]);
    }
  }

  /** Python's string order: code point by code point, a proper prefix first. */
  predicate StrLess(a: string, b: string)
  {
    if |a| == 0 then |b| > 0
    else if |b| == 0 then false
    else if a[0] != b[0] then a[0] < b[0]
    else StrLess(a[1..], b[1..])
  }

  lemma {:induction false} StrLessIrreflexive(a: string)
    ensures !StrLess(a, a)
  {
    if |a| > 0 {
      StrLessIrreflexive(a[1..]);
    }
  }

  lemma {:induction false} StrLessTransitive(a: string, b: string, c: string)
    requires StrLess(a, b) && StrLess(b, c)
    ensures StrLess(a, c)
  {
    if |a| > 0 && a[0] == b[0] && b[0] == c[0] {
      StrLessTransitive(a[1..], b[1..], c[1..]);
    }
  }

  lemma {:induction false} StrLessTotal(a: string, b: string)
    requires a != b
    ensures StrLess(a, b) || StrLess(b, a)
  {
    if |a| > 0 && |b| > 0 && a[0] == b[0] {
      assert a == [a[0]] + a[1..] && b == [b[0]] + b[1..];
      StrLessTotal(a[1..], b[1..]);
    }
  }

  /** String keys, as in the chapter's data, can be grouped. */
  lemma StrLessIsStrictTotalOrder()
    ensures StrictTotalOrder(StrLess)
  {
    forall a: string
      ensures !StrLess(a, a)
    {
      StrLessIrreflexive(a);
    }
    forall a: string, b: string, c: string | StrLess(a, b) && StrLess(b, c)
      ensures StrLess(a, c)
    {
      StrLessTransitive(a, b, c);
    }
    forall a: string, b: string | a != b
      ensures StrLess(a, b) || StrLess(b, a)
    {
      StrLessTotal(a, b);
    }
  }

  /** The chapter's keys, first seen as '4', '1', '2', '3', come out as '1' to '4'. */
  lemma SortedKeysExample()
    ensures SortKeys(["4", "1", "2", "3"], StrLess) == ["1", "2", "3", "4"]
  {
    assert SortKeys<string>([], StrLess) == [];
    assert SortKeys(["3"], StrLess) == ["3"];
    assert SortKeys(["2", "3"], StrLess) == ["2", "3"];
    assert SortKeys(["1", "2", "3"], StrLess) == ["1", "2", "3"];
  }

  // ---------------------------------------------------------------------------
  // calc_mean, calc_variance, calc_summaries

  /** The rebound `sum` over floats: `reduce(lambda x, y: x+y, values)`. */
  function ReduceSumR(s: seq<real>): Outcome<real>
  {
    Reduce((x: real, y: real) => x + y, s)
  }

  lemma {:induction false} FoldAddIsSumR(init: real, s: seq<real>)
    ensures FoldLeft((x: real, y: real) => x + y, init, s) == init + SumR(s)
    decreases |s|
  {
    if |s| > 0 {
      SumRCons(s);
      FoldAddIsSumR(init + s[0], s[1..]);
    }
  }

  /**
   * `calc_mean(sequence)`: `sum(sequence)/len(sequence)` with the rebound
   * `sum`, so an empty sequence raises TypeError inside `reduce` before the
   * division is reached.
   */
  function CalcMean(sequence: seq<real>): Outcome<real>
  {
    var total :- ReduceSumR(sequence);
    Ok(total / |sequence| as real)
  }

  /** The rebound `sum` is the sum on non-empty input and raises TypeError on empty input. */
  lemma ReduceSumRIsSum(s: seq<real>)
    ensures ReduceSumR(s) == if |s| == 0 then Raised(TypeError) else Ok(SumR(s))
  {
    if |s| > 0 {
      FoldAddIsSumR(s[0], s[1..]);
      SumRCons(s);
    }
  }

  /**
   * The mean is the sum over the count; only the empty sequence fails, and it
   * fails in `reduce`, not in the division.
   */
  lemma CalcMeanSpec(sequence: seq<real>)
    ensures CalcMean(sequence).Raised? <==> |sequence| == 0
    ensures CalcMean(sequence).Raised? ==> CalcMean(sequence).exc == TypeError
    ensures CalcMean(sequence).Ok? ==> CalcMean(sequence).value == SumR(sequence) / |sequence| as real
  {
    ReduceSumRIsSum(sequence);
  }

  function ScaledSquare(mean: real, x: real): real
    requires mean != 0.0
  {
    (x - mean) * (x - mean) / mean
  }

  lemma ScaledSquareNonNegative(mean: real, x: real)
    requires mean > 0.0
    ensures ScaledSquare(mean, x) >= 0.0
  {
    var d := x - mean;
    assert d * d >= 0.0;
    var q := d * d / mean;
    assert q * mean == d * d;
  }

  /**
   * `calc_variance(mean, sequence)`: the rebound `sum` of `(x - mean)**2 / mean`.
   * A zero mean raises ZeroDivisionError; an empty sequence, TypeError.
   */
  function CalcVariance(mean: real, sequence: seq<real>): Outcome<real>
  {
    if |sequence| == 0 then Raised(TypeError)
    else if mean == 0.0 then Raised(ZeroDivisionError)
    else ReduceSumR(Map((x: real) => ScaledSquare(mean, x), sequence))
  }

  lemma {:induction false} SumRNonNegative(s: seq<real>)
    requires forall i :: 0 <= i < |s| ==> s[i] >= 0.0
    ensures SumR(s) >= 0.0
  {
    if |s| > 0 {
      SumRNonNegative(s[..|s| - 1]);
    }
  }

  /** With a positive mean the result is the sum of the scaled squares, never negative. */
  lemma CalcVarianceNonNegative(mean: real, sequence: seq<real>)
    requires mean > 0.0 && |sequence| > 0
    ensures CalcVariance(mean, sequence).Ok?
    ensures CalcVariance(mean, sequence).value >= 0.0
  {
    var terms := Map((x: real) => ScaledSquare(mean, x), sequence);
    ReduceSumRIsSum(terms);
    forall i | 0 <= i < |terms|
      ensures terms[i] >= 0.0
    {
      ScaledSquareNonNegative(mean, sequence[i]);
    }
    SumRNonNegative(terms);
  }

  /** `calc_summaries((key, rows))`: the key with the mean and variance of the rows' values. */
  function CalcSummaries<K>(key: K, rows: seq<(K, real)>): Outcome<(K, real, real)>
  {
    var values := Map((row: (K, real)) => row.1, rows);
    var mean :- CalcMean(values);
    var variance :- CalcVariance(mean, values);
    Ok((key, mean, variance))
  }

  /** A group of positive values always summarises; an empty group raises TypeError. */
  lemma CalcSummariesSpec<K>(key: K, rows: seq<(K, real)>)
    ensures |rows| == 0 ==> CalcSummaries(key, rows) == Raised(TypeError)
    ensures (|rows| > 0 && forall i :: 0 <= i < |rows| ==> rows[i].1 > 0.0) ==>
      CalcSummaries(key, rows).Ok? && CalcSummaries(key, rows).value.0 == key &&
      CalcSummaries(key, rows).value.2 >= 0.0
  {
    var values := Map((row: (K, real)) => row.1, rows);
    CalcMeanSpec(values);
    if |rows| > 0 && forall i :: 0 <= i < |rows| ==> rows[i].1 > 0.0 {
      var mean := CalcMean(values).value;
      SumRPositive(values);
      assert mean > 0.0;
      CalcVarianceNonNegative(mean, values);
    }
  }

  lemma {:induction false} SumRPositive(s: seq<real>)
    requires |s| > 0 && forall i :: 0 <= i < |s| ==> s[i] > 0.0
    ensures SumR(s) > 0.0
  {
    if |s| > 1 {
      SumRPositive(s[..|s| - 1]);
    }
  }
}
