/**
 * Chapter 1: the sum of the multiples of 3 or 5 below 10, written in five
 * paradigms (imperative, hybrid imperative/object, object, functional and
 * hybrid functional), together with the recursive `filter_list` and
 * `sum_sequence` the functional version is built from.
 */
module Ch01Sums {
  import opened Py

  /** `is_multipleof_3or5`. */
  predicate IsMultipleOf3Or5(x: int)
  {
    x % 3 == 0 || x % 5 == 0
  }

  /**
   * `filter_list(end, f, init)`: the values of [init, end) that pass `f`, in
   * ascending order.  The source recurses forever when init > end.
   */
  function FilterList(endValue: int, f: int -> bool, initValue: int): (r: seq<int>)
    requires initValue <= endValue
    ensures r == Filter(f, Range(initValue, endValue))
    ensures forall i :: 0 <= i < |r| ==> initValue <= r[i] < endValue && f(r[i])
    ensures forall i, j :: 0 <= i < j < |r| ==> r[i] < r[j]
    decreases endValue - initValue
  {
    if initValue == endValue then []
    else if f(initValue) then [initValue] + FilterList(endValue, f, initValue + 1)
    else FilterList(endValue, f, initValue + 1)
  }

  /** `sum_sequence`: head-first recursive sum, 0 for the empty sequence. */
  function SumSequence(s: seq<int>): (r: int)
    ensures r == Sum(s)
  {
    if |s| == 0 then 0
    else
      SumCons(s);
      s[0] + SumSequence(s[1..])
  }

  /** `SummableList.sum`: accumulates its elements in a loop. */
  method SummableListSum(values: seq<int>) returns (result: int)
    ensures result == Sum(values)
  {
    result := 0;
    for i := 0 to |values|
      invariant result == Sum(values[..i])
    {
      assert values[..i + 1] == values[..i] + [values[i]];
      result := result + values[i];
    }
    assert values[..|values|] == values;
  }

  /** The multiples of 3 or 5 in 1..9, the range every variant scans. */
  function Multiples(): seq<int>
  {
    Filter(IsMultipleOf3Or5, Range(1, 10))
  }

  /** `sum_imperative`: one accumulating loop; the printed value is returned. */
  method SumImperative() returns (result: int)
    ensures result == Sum(Multiples())
  {
    result := 0;
    var number := 1;
    while number < 10
      invariant 1 <= number <= 10
      invariant result == Sum(Filter(IsMultipleOf3Or5, Range(1, number)))
    {
      FilterRangeSnoc(IsMultipleOf3Or5, 1, number);
      SumAppend(Filter(IsMultipleOf3Or5, Range(1, number)), if IsMultipleOf3Or5(number) then [number] else []);
      if number % 3 == 0 || number % 5 == 0 {
        result := result + number;
      }
      number := number + 1;
    }
  }

  /** `sum_hybrid_oop`: collects the multiples in a list, then sums the list. */
  method SumHybridOop() returns (result: int, results: seq<int>)
    ensures results == Multiples()
    ensures result == Sum(results)
  {
    results := [];
    var number := 1;
    while number < 10
      invariant 1 <= number <= 10
      invariant results == Filter(IsMultipleOf3Or5, Range(1, number))
    {
      FilterRangeSnoc(IsMultipleOf3Or5, 1, number);
      if number % 3 == 0 || number % 5 == 0 {
        results := results + [number];
      }
      number := number + 1;
    }
    result := Sum(results);
  }

  /** `sum_oop`: the same list, summed by `SummableList.sum`. */
  method SumOop() returns (result: int)
    ensures result == Sum(Multiples())
  {
    var _, results := SumHybridOop();
    result := SummableListSum(results);
  }

  /** `sum_functional(number)`: `sum_sequence` of `filter_list(number, ..., 0)`. */
  function SumFunctional(number: int): (r: int)
    requires number >= 0
    ensures r == Sum(Filter(IsMultipleOf3Or5, Range(0, number)))
  {
    SumSequence(FilterList(number, IsMultipleOf3Or5, 0))
  }

  /**
   * `sum_hybrid_functional(number)`: the generator expression rebinds
   * `number`, so the argument is ignored and the range is always 1..9.
   */
  function SumHybridFunctional(number: int): (r: int)
    ensures r == Sum(Multiples())
  {
    Sum(Filter(IsMultipleOf3Or5, Range(1, 10)))
  }

  lemma MultiplesLow()
    ensures Filter(IsMultipleOf3Or5, Range(0, 5)) == [0, 3]
    ensures Filter(IsMultipleOf3Or5, Range(1, 5)) == [3]
  {
  }

  lemma MultiplesHigh()
    ensures Filter(IsMultipleOf3Or5, Range(5, 10)) == [5, 6, 9]
  {
  }

  /** The multiples of 3 or 5 below 10, with and without 0. */
  lemma MultiplesBelowTen()
    ensures Filter(IsMultipleOf3Or5, Range(1, 10)) == [3, 5, 6, 9]
    ensures Filter(IsMultipleOf3Or5, Range(0, 10)) == [0, 3, 5, 6, 9]
  {
    MultiplesLow();
    MultiplesHigh();
    RangeSplit(0, 5, 10);
    RangeSplit(1, 5, 10);
    FilterAppend(IsMultipleOf3Or5, Range(0, 5), Range(5, 10));
    FilterAppend(IsMultipleOf3Or5, Range(1, 5), Range(5, 10));
  }

  /** `filter_list(10, is_multipleof_3or5, 0)` is [0, 3, 5, 6, 9]. */
  lemma FilterListDoctest()
    ensures FilterList(10, IsMultipleOf3Or5, 0) == [0, 3, 5, 6, 9]
  {
    MultiplesBelowTen();
  }

  lemma SumOfMultiples()
    ensures Sum([3, 5, 6, 9]) == 23
    ensures Sum([0, 3, 5, 6, 9]) == 23
  {
    assert [3][..0] == [];
    assert Sum([3]) == 3;
    assert [3, 5][..1] == [3];
    assert Sum([3, 5]) == 8;
    assert [3, 5, 6][..2] == [3, 5];
    assert Sum([3, 5, 6]) == 14;
    assert [3, 5, 6, 9][..3] == [3, 5, 6];
    SumCons([0, 3, 5, 6, 9]);
    assert [0, 3, 5, 6, 9][1..] == [3, 5, 6, 9];
  }

  /** Every variant computes 23. */
  lemma AllVariantsGive23()
    ensures Sum(Multiples()) == 23
    ensures SumFunctional(10) == 23
    ensures forall n :: SumHybridFunctional(n) == 23
  {
    MultiplesBelowTen();
    SumOfMultiples();
  }
}
