/**
 * Chapter 14: currying by hand, composition of a range builder with a
 * product, and the monadic craps game.  The dice are a sequence of rolls
 * handed to the model instead of a random number generator.
 */
module Ch14Currying {
  import opened Py
  import opened Arith
  import opened Ch13Conditional

  // ---------------------------------------------------------------- currying

  /**
   * The value of a call of the hand-curried `f`: a function still waiting
   * for `y`, one waiting for `z`, or the final number.
   */
  datatype Curried = AwaitY(x: int) | AwaitZ(x: int, y: int) | Value(v: int)

  /** `f(x, *args)`: with no further arguments it returns `f1`. */
  function F(x: int, args: seq<int>): Outcome<Curried>
  {
    if |args| == 0 then Ok(AwaitY(x)) else F1(x, args[0], args[1..])
  }

  /** `f1(y, *args)`: with no further arguments it returns `f2`. */
  function F1(x: int, y: int, args: seq<int>): Outcome<Curried>
  {
    if |args| == 0 then Ok(AwaitZ(x, y)) else F2(x, y, args)
  }

  /** `f2(z)`: exactly one argument, otherwise Python's arity `TypeError`. */
  function F2(x: int, y: int, args: seq<int>): Outcome<Curried>
  {
    if |args| == 1 then Ok(Value((x + y) * args[0])) else Raised(TypeError)
  }

  /** Calling a curried value; a number is not callable. */
  function Call(c: Curried, args: seq<int>): Outcome<Curried>
  {
    match c
    case AwaitY(x) => if |args| == 0 then Raised(TypeError) else F1(x, args[0], args[1..])
    case AwaitZ(x, y) => F2(x, y, args)
    case Value(_) => Raised(TypeError)
  }

  /** Calling the value of an earlier call, passing its exception on. */
  function Then(o: Outcome<Curried>, args: seq<int>): Outcome<Curried>
  {
    var c :- o;
    Call(c, args)
  }

  /** Every way of splitting y and z over the calls gives (x + y) * z. */
  lemma CurriedForms(x: int, y: int, z: int)
    ensures F(x, [y, z]) == Ok(Value((x + y) * z))
    ensures Then(F(x, [y]), [z]) == Ok(Value((x + y) * z))
    ensures Then(F(x, []), [y, z]) == Ok(Value((x + y) * z))
    ensures Then(Then(F(x, []), [y]), [z]) == Ok(Value((x + y) * z))
  {
    assert [y, z][1..] == [z];
  }

  /**
   * A single call yields a number exactly when it passes the three
   * arguments; it is a partial function with fewer and fails with more.
   */
  lemma FArity(x: int, args: seq<int>)
    ensures |args| == 0 ==> F(x, args) == Ok(AwaitY(x))
    ensures |args| == 1 ==> F(x, args) == Ok(AwaitZ(x, args[0]))
    ensures |args| == 2 ==> F(x, args) == Ok(Value((x + args[0]) * args[1]))
    ensures |args| > 2 ==> F(x, args) == Raised(TypeError)
  {
  }

  // ------------------------------------------------------ composed products

  /** `calc_alternate_range(n)`: 1 alone for 0, else the numbers up to n of n's parity. */
  function AlternateRange(n: int): seq<int>
  {
    if n == 0 then Range(1, 2)
    else if n % 2 == 0 then RangeStep(2, n + 1, 2)
    else RangeStep(1, n + 1, 2)
  }

  /**
   * The members of `calc_alternate_range(n)`: 1 for n = 0, otherwise the
   * numbers 1..n with the parity of n (none for negative n).
   */
  lemma AlternateRangeMembers(n: int, k: int)
    ensures n == 0 ==> AlternateRange(n) == [1]
    ensures n != 0 ==> (k in AlternateRange(n) <==> 1 <= k <= n && k % 2 == n % 2)
  {
    if n == 0 {
      assert Range(1, 2) == [1];
    } else if n % 2 == 0 {
      RangeStep2Members(2, n + 1, k);
    } else {
      RangeStep2Members(1, n + 1, k);
    }
  }

  /** The alternate range ascends by two. */
  lemma AlternateRangeAscends(n: int)
    ensures forall i :: 0 < i < |AlternateRange(n)| ==> AlternateRange(n)[i] == AlternateRange(n)[i - 1] + 2
  {
  }

  /** range(s, n + 1, 2) is range(s, n - 1, 2) followed by n when n is reached. */
  lemma {:induction false} RangeStep2Snoc(s: int, n: int)
    requires s <= n && (n - s) % 2 == 0
    ensures RangeStep(s, n + 1, 2) == RangeStep(s, n - 1, 2) + [n]
    decreases n - s
  {
    if s < n {
      assert (n - (s + 2)) % 2 == 0 by {
        DivSub(n - s, 2);
      }
      RangeStep2Snoc(s + 2, n);
    }
  }

  /** For n >= 1 the alternate range is the `SameParity` list of chapter 13. */
  lemma {:induction false} AlternateRangeIsSameParity(n: int)
    requires n >= 1
    ensures AlternateRange(n) == SameParity(n)
    decreases n
  {
    if n <= 2 {
      SameParitySmallList(n);
    } else {
      assert AlternateRange(n) == AlternateRange(n - 2) + [n] by {
        DivSub(n, 2);
        if n % 2 == 0 {
          DivSub(n - 2, 2);
          RangeStep2Snoc(2, n);
        } else {
          DivSub(n - 1, 2);
          RangeStep2Snoc(1, n);
        }
      }
      AlternateRangeIsSameParity(n - 2);
      SameParityStep(n);
    }
  }

  lemma SameParitySmallList(n: int)
    requires 1 <= n <= 2
    ensures AlternateRange(n) == SameParity(n)
  {
    if n == 1 {
      assert Range(1, 2) == [1];
      FilterSingle(ParityOf(1), 1);
      assert RangeStep(1, 2, 2) == [1];
    } else {
      assert Range(1, 3) == [1, 2];
      assert [1, 2][1..] == [2];
      FilterSingle(ParityOf(2), 2);
      assert RangeStep(2, 3, 2) == [2];
    }
  }

  /** `calc_semifactorial(x)`: the product (a reduce without initial value) of the alternate range. */
  function CalcSemifactorial(n: int): Outcome<int>
  {
    ProdReduce(AlternateRange(n))
  }

  /**
   * `calc_semifactorial(n)` is the double factorial n!! for n >= 0; for a
   * negative n the range is empty and the reduce raises `TypeError`.
   */
  lemma CalcSemifactorialIsDoubleFact(n: int)
    ensures n >= 0 ==> CalcSemifactorial(n) == Ok(DoubleFact(n))
    ensures n < 0 ==> CalcSemifactorial(n) == Raised(TypeError)
  {
    ProdReduceSpec(AlternateRange(n));
    if n == 0 {
      assert Range(1, 2) == [1];
      assert Product([1]) == 1;
    } else if n > 0 {
      assert Product(SameParity(n)) == DoubleFact(n) by {
        SemifactorialIsProduct(n);
        SemifactorialIsDoubleFact(n);
      }
      AlternateRangeIsSameParity(n);
    }
  }

  /** For n >= 0 the composed version agrees with chapter 13's `semifactorial`. */
  lemma CalcSemifactorialAgrees(n: int)
    requires n >= 0
    ensures CalcSemifactorial(n) == Semifactorial(n)
  {
    CalcSemifactorialIsDoubleFact(n);
    SemifactorialIsDoubleFact(n);
  }

  /** `calc_range_nonzero(x)`: 1 alone for 0, else 1..x. */
  function RangeNonzero(x: int): seq<int>
  {
    if x == 0 then Range(1, 2) else Range(1, x + 1)
  }

  /** `calc_factorial(x)`: the product of `calc_range_nonzero(x)`. */
  function CalcFactorial(x: int): Outcome<int>
  {
    ProdReduce(RangeNonzero(x))
  }

  /** The product of 1..n is n!. */
  lemma {:induction false} ProductUpTo(n: nat)
    ensures Product(Range(1, n + 1)) == Fact(n)
  {
    if n > 0 {
      RangeSnoc(1, n);
      ProductUpTo(n - 1);
      ProductAppend(Range(1, n), [n]);
      assert Product([n]) == n;
      FactStep(n);
    }
  }

  /** `calc_factorial(x)` is x! with 0! = 1; a negative x leaves nothing to reduce. */
  lemma CalcFactorialIsFact(x: int)
    ensures x >= 0 ==> CalcFactorial(x) == Ok(Fact(x))
    ensures x < 0 ==> CalcFactorial(x) == Raised(TypeError)
  {
    ProdReduceSpec(RangeNonzero(x));
    if x == 0 {
      assert Range(1, 2) == [1];
      assert Product([1]) == 1;
    } else if x > 0 {
      ProductUpTo(x);
    }
  }

  /** `calc_n21(n)`: 2n + 1, an odd number from which n is recovered. */
  function CalcN21(n: int): (r: int)
    ensures r % 2 == 1 && (r - 1) / 2 == n
  {
    2 * n + 1
  }

  /** `calc_n21_semifactorial(x)`: `calc_semifactorial(2x + 1)`. */
  function CalcN21Semifactorial(x: int): Outcome<int>
  {
    CalcSemifactorial(CalcN21(x))
  }

  /** It is the odd double factorial (2x + 1)!! for x >= 0 and fails below. */
  lemma CalcN21SemifactorialSpec(x: int)
    ensures x >= 0 ==> CalcN21Semifactorial(x) == Ok(DoubleFact(2 * x + 1))
    ensures x < 0 ==> CalcN21Semifactorial(x) == Raised(TypeError)
  {
    CalcSemifactorialIsDoubleFact(CalcN21(x));
  }

  // -------------------------------------------------------------------- craps

  /** One throw of the two dice. */
  type Roll = (int, int)

  function Total(d: Roll): int
  {
    d.0 + d.1
  }

  /** The game state: the last result, the point, and the rolls so far. */
  datatype Status = Status(prev: string, point: int, history: seq<Roll>)

  /**
   * `come_out_roll`: 7 or 11 wins, 2, 3 or 12 loses, anything else makes the
   * total the point.  The incoming status is ignored.
   */
  function ComeOutRoll(d: Roll, status: Status): (r: Status)
    ensures r.point == Total(d) && r.history == [d]
    ensures r.prev == "win" <==> Total(d) in {7, 11}
    ensures r.prev == "lose" <==> Total(d) in {2, 3, 12}
    ensures r.prev == "point" <==> Total(d) !in {2, 3, 7, 11, 12}
  {
    var t := Total(d);
    if t == 7 || t == 11 then Status("win", t, [d])
    else if t == 2 || t == 3 || t == 12 then Status("lose", t, [d])
    else Status("point", t, [d])
  }

  /** A roll that ends the point phase: a seven or the point. */
  predicate Decisive(d: Roll, point: int)
  {
    Total(d) == 7 || Total(d) == point
  }

  /**
   * `point_roll`: a status other than "point" is returned unchanged;
   * otherwise the next roll of `dice` craps out on 7, wins on the point and
   * is otherwise appended before rolling again.  Running out of rolls is
   * `StopIteration`.
   */
  function PointRoll(dice: seq<Roll>, status: Status): Outcome<Status>
    decreases |dice|
  {
    if status.prev != "point" then Ok(status)
    else if |dice| == 0 then Raised(StopIteration)
    else
      var d := dice[0];
      if Total(d) == 7 then Ok(Status("craps", status.point, status.history + [d]))
      else if Total(d) == status.point then Ok(Status("win", status.point, status.history + [d]))
      else PointRoll(dice[1..], Status("point", status.point, status.history + [d]))
  }

  /** A finished status passes through `point_roll` untouched. */
  lemma PointRollKeepsFinished(dice: seq<Roll>, status: Status)
    requires status.prev != "point"
    ensures PointRoll(dice, status) == Ok(status)
  {
  }

  /** A roll that decides nothing is recorded and the phase goes on. */
  lemma PointRollStep(dice: seq<Roll>, p: int, h: seq<Roll>)
    requires |dice| > 0 && !Decisive(dice[0], p)
    ensures PointRoll(dice, Status("point", p, h)) == PointRoll(dice[1..], Status("point", p, h + [dice[0]]))
  {
  }

  /** The point phase ends exactly when some roll is decisive. */
  lemma {:induction false} PointRollEndsIff(dice: seq<Roll>, p: int, h: seq<Roll>)
    ensures PointRoll(dice, Status("point", p, h)).Ok? <==> exists k :: 0 <= k < |dice| && Decisive(dice[k], p)
    decreases |dice|
  {
    if |dice| > 0 && !Decisive(dice[0], p) {
      var rest := dice[1..];
      assert PointRoll(rest, Status("point", p, h + [dice[0]])).Ok? <==> exists k :: 0 <= k < |rest| && Decisive(rest[k], p) by {
        PointRollEndsIff(rest, p, h + [dice[0]]);
      }
      PointRollStep(dice, p, h);
      assert (exists k :: 0 <= k < |dice| && Decisive(dice[k], p)) ==> (exists k :: 0 <= k < |rest| && Decisive(rest[k], p)) by {
        forall k | 0 <= k < |dice| && Decisive(dice[k], p)
          ensures 0 <= k - 1 < |rest| && Decisive(rest[k - 1], p)
        {
        }
      }
    } else if |dice| > 0 {
      assert Decisive(dice[0], p);
    }
  }

  /**
   * In the point phase the game ends at the first decisive roll k: "craps"
   * if it is a seven, "win" if it is the point, with the history extended by
   * exactly the k + 1 rolls made.
   */
  lemma {:induction false} PointRollAtFirstDecisive(dice: seq<Roll>, p: int, h: seq<Roll>, k: int)
    requires 0 <= k < |dice| && Decisive(dice[k], p)
    requires forall j :: 0 <= j < k ==> !Decisive(dice[j], p)
    ensures PointRoll(dice, Status("point", p, h)) ==
      Ok(Status(if Total(dice[k]) == 7 then "craps" else "win", p, h + dice[..k + 1]))
    decreases |dice|
  {
    if k == 0 {
      assert dice[..1] == [dice[0]];
    } else {
      var rest := dice[1..];
      assert !Decisive(dice[0], p);
      PointRollStep(dice, p, h);
      assert forall j :: 0 <= j < k - 1 ==> !Decisive(rest[j], p) by {
        forall j | 0 <= j < k - 1 ensures !Decisive(rest[j], p) {
          assert rest[j] == dice[j + 1];
        }
      }
      assert rest[k - 1] == dice[k];
      PointRollAtFirstDecisive(rest, p, h + [dice[0]], k - 1);
      assert h + [dice[0]] + rest[..k] == h + dice[..k + 1] by {
        assert dice[..k + 1] == [dice[0]] + rest[..k];
      }
    }
  }

  /** `craps()`: a come-out roll followed by the point phase. */
  function Craps(dice: seq<Roll>): Outcome<Status>
  {
    if |dice| == 0 then Raised(StopIteration)
    else PointRoll(dice[1..], ComeOutRoll(dice[0], Status("", 0, [])))
  }

  /** A point phase only ends in "craps" or "win", with its rolls appended to the history. */
  lemma {:induction false} PointRollEnds(dice: seq<Roll>, p: int, h: seq<Roll>)
    ensures PointRoll(dice, Status("point", p, h)).Ok? ==>
      var s := PointRoll(dice, Status("point", p, h)).value;
      (s.prev == "craps" || s.prev == "win") && s.point == p &&
      |h| < |s.history| <= |h| + |dice| && s.history == h + dice[..|s.history| - |h|]
    decreases |dice|
  {
    if |dice| > 0 && !Decisive(dice[0], p) {
      var rest := dice[1..];
      PointRollEnds(rest, p, h + [dice[0]]);
      if PointRoll(dice, Status("point", p, h)).Ok? {
        var s := PointRoll(dice, Status("point", p, h)).value;
        var n := |s.history| - |h|;
        assert s.history == h + [dice[0]] + rest[..n - 1];
        assert dice[..n] == [dice[0]] + rest[..n - 1];
      }
    } else if |dice| > 0 {
      assert dice[..1] == [dice[0]];
    }
  }

  /**
   * A finished game is won, lost or crapped out, and its history is the
   * first rolls of the dice, at least one of them.
   */
  lemma CrapsEnds(dice: seq<Roll>)
    ensures Craps(dice).Ok? ==>
      var s := Craps(dice).value;
      (s.prev == "win" || s.prev == "lose" || s.prev == "craps") &&
      1 <= |s.history| <= |dice| && s.history == dice[..|s.history|]
  {
    if |dice| > 0 {
      var first := ComeOutRoll(dice[0], Status("", 0, []));
      if first.prev == "point" {
        PointRollEnds(dice[1..], first.point, [dice[0]]);
        if Craps(dice).Ok? {
          var s := Craps(dice).value;
          assert s.history == [dice[0]] + dice[1..][..|s.history| - 1];
          assert dice[..|s.history|] == [dice[0]] + dice[1..][..|s.history| - 1];
        }
      } else {
        assert dice[..1] == [dice[0]];
      }
    }
  }
}
