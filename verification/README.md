# Functional Python Programming, modelled in Dafny

This project models the example code of the book *Functional Python Programming*,
chapters 1 to 16. The examples are small, pure, sequential Python functions, and
most chapters show two to four implementations of the same thing that are meant
to agree. The model covers:

- integer number theory: four primality tests, prime factorisation, three ways
  to compute 2^b and the Mersenne numbers, factorial, Fibonacci, fast
  exponentiation, the semifactorial, binomial coefficients and digit expansion;
- sequence combinators: pairing neighbours, chunking and flattening, grouping
  by key, counting by sorting, a cartesian join, tied ranking and Spearman's
  formula, running totals and quartiles, reduce and map-reduce folds;
- string cleaning and small parsers: character removal, decorators that retry
  a conversion after cleaning, `None`-propagating wrappers, HTTP request lines,
  access-log path rules, GIMP palettes, the Anscombe table header, the
  `/anscombe/<id>/` route, CSV and JSON serialisation and the MIME dispatch;
- state and lookup: the craps state machine and a static mapping searched by
  bisection.

Each Python file is one Dafny module named after its chapter (`Ch06Recursion`
for `CH6/ch06_ex01.py`, and so on). Three shared modules hold the vocabulary:

- `Py` holds the exceptions and the `Option` and `Outcome` types. `Outcome` is
  either `Ok(value)` or `Raised(exc)`, so every raising path is a value. `Py`
  also holds `Run`, the items a generator yields plus how it ended, with
  PEP 479 applied: a `StopIteration` inside a generator becomes `RuntimeError`.
  Its sequence helpers mirror Python's `range`, `sum`, `map`, `filter`,
  `reduce`, `str.split`, `str.join`, `int()` on integer text, and `//` and `%`
  with their rounding toward minus infinity.
- `Arith` holds independent reference definitions: n!, powers, Fibonacci,
  primality by divisors, integer square roots and the double factorial.
- `Sorting` holds a stable sort, which stands for `sorted(..., key=...)`.

Each operation is written the way the Python computes it: the same loop, the
same recursion, the same error cases. A lemma then connects it to one of three
things: an independent reference definition, an inverse (decode after encode),
or an invariant it keeps. Where the variants of one function are meant to
agree, a lemma proves that they do. Where the code does something its authors
evidently did not intend, the model keeps the behaviour as written. It then
proves the discrepancy and proves the corrected version; see "Findings".

Generators are modelled as finite sequences (or as a `Run` when the way they
end matters). Where running out of the interpreter's recursion limit decides
the outcome, the remaining depth is a parameter. Python floats are modelled as
exact `real`s. Text parsing done
by library code (`float()`, `Decimal()`, regular expressions, `strptime`,
`urlparse`) becomes a function parameter or a given record field.

## Model

| member | source | states |
|---|---|---|
| Ch01Sums.FilterList | CH1/ch01_ex1.py:64-75 | for init <= end: exactly the values of [init, end) that pass the filter, each within the range and in strictly ascending order |
| Ch01Sums.SumSequence | CH1/ch01_ex1.py:83-85 | the head-first recursion returns the sum of the sequence, 0 when it is empty |
| Ch01Sums.SummableListSum | CH1/ch01_ex1.py:40-47 | the accumulating loop returns the sum of the list's elements |
| Ch01Sums.SumImperative | CH1/ch01_ex1.py:12-22 | the loop's total is the sum of the multiples of 3 or 5 among 1..9 |
| Ch01Sums.SumHybridOop | CH1/ch01_ex1.py:26-36 | the list built is exactly the multiples of 3 or 5 among 1..9, in order, and the printed value is its sum |
| Ch01Sums.SumOop | CH1/ch01_ex1.py:50-60 | the SummableList built and summed gives the sum of the multiples of 3 or 5 among 1..9 |
| Ch01Sums.SumFunctional | CH1/ch01_ex1.py:88-94 | the sum of the multiples of 3 or 5 among 0..number-1 |
| Ch01Sums.SumHybridFunctional | CH1/ch01_ex1.py:98-108 | whatever the argument, the sum of the multiples of 3 or 5 among 1..9, because the generator rebinds `number` |
| Ch01Sums.MultiplesBelowTen | CH1/ch01_ex1.py:104-108 | the multiples of 3 or 5 below 10 are [3, 5, 6, 9], and [0, 3, 5, 6, 9] counting 0 |
| Ch01Sums.FilterListDoctest | CH1/ch01_ex1.py:67-68 | `filter_list(10, is_multipleof_3or5, 0)` is [0, 3, 5, 6, 9] |
| Ch01Sums.AllVariantsGive23 | CH1/ch01_ex1.py:12-108 | every variant computes 23, as the doctests say |
| Ch02Primes.SumTo | CH2/ch02_ex1.py:62-74 | adds 0, 1, ... up to but not including `number` when 0 <= number < 1024, and otherwise the whole generator's output 0..1023 |
| Ch02Primes.SumRangeClosedForm | CH2/ch02_ex1.py:68-76 | the sum `sum_to` accumulates, 0 + ... + (m - 1), equals m(m - 1)/2 |
| Ch02Primes.IsPrimeImperative | CH2/ch02_ex1.py:91-105 | the trial-division loop answers true exactly for primes (an independent divisor-based definition) |
| Ch02Primes.Coprime | CH2/ch02_ex1.py:118-124 | the inner helper is true exactly when k has no odd divisor between `coprime` and isqrt(k) |
| Ch02Primes.RecursiveIsPrimality | CH2/ch02_ex1.py:110-128 | `isprime_recursive` answers true exactly for primes |
| Ch02Primes.LazyIsPrimality | CH2/ch02_ex1.py:132-148 | `not any(...)` over the odd candidates answers true exactly for primes |
| Ch02Primes.StrictIsPrimality | CH2/ch02_ex1.py:152-168 | `all(...)` over the odd candidates answers true exactly for primes |
| Ch02Primes.OddCandidates | CH2/ch02_ex1.py:147 | `range(3, int(sqrt(n)) + 1, 2)` holds exactly the odd numbers from 3 to isqrt(n) |
| Ch02Primes.CandidatesCover | CH2/ch02_ex1.py:145-148 | no candidate divides n exactly when n has no odd divisor in 3..isqrt(n) |
| Ch02Primes.SmallAndEvenRejected | CH2/ch02_ex1.py:99-101 | numbers below 2 and even numbers other than 2 are not prime, and every variant rejects them |
| Ch02Primes.PrimalityDoctest | CH2/ch02_ex1.py:94-97 | 2 is prime and 3..10 give True, False, True, False, True, False, False, False |
| Ch03Powers.Shifty | CH3/ch03_ex1.py:21-27 | `1 << b` raises ValueError exactly when b is negative, and otherwise is 2 to the power b |
| Ch03Powers.ShiftIsPow | CH3/ch03_ex1.py:27 | shifting x left by b >= 0 bits multiplies it by 2^b; a negative shift count raises ValueError |
| Ch03Powers.Multy | CH3/ch03_ex1.py:30-37 | the naive recursion finishes exactly when 0 <= b and more than b frames are left, then with 2^b; otherwise RecursionError |
| Ch03Powers.Faster | CH3/ch03_ex1.py:40-49 | whenever divide-and-conquer squaring (with Python's `%` and `//`) finishes, b >= 0 and the result is 2 to the power b; its only failure is RecursionError |
| Ch03Powers.StrategiesAgree | CH3/ch03_ex1.py:21-49 | on every b >= 0, given more than b frames, all three strategies return 2^b; on every b < 0, `shifty` raises ValueError while `multy` and `faster` end in RecursionError at any depth |
| Ch03Powers.MersenneInstances | CH3/ch03_ex1.py:53-55 | each of the three instances computes 2^n - 1 for n >= 0 (the recursions given frames to spare) and passes its strategy's exception through for n < 0; 2^17 - 1 is 131071 |
| Ch03Strings.ReplaceCharByNothing | CH3/ch03_ex2.py:28-30 | replacing a single character by "" keeps every other character, in order |
| Ch03Strings.RemoveKeepsOthers | CH3/ch03_ex2.py:45-49 | `remove` keeps exactly the characters not in `characters`, in order |
| Ch03Strings.RemoveProperties | CH3/ch03_ex2.py:45-49 | removing nothing is the identity, no removed character survives, and removing twice is the same as once |
| Ch03Strings.CleanDecimal1 | CH3/ch03_ex2.py:15-24 | None gives None; otherwise Decimal is applied to the text with every "$" and "," deleted |
| Ch03Strings.CleanDecimal2 | CH3/ch03_ex2.py:33-41 | the prefix-function version agrees with `clean_decimal_1` on every input |
| Ch03Strings.CleanDecimal3 | CH3/ch03_ex2.py:52-60 | the `remove` version agrees with `clean_decimal_1` on every input |
| Ch03Strings.CleanDoctest | CH3/ch03_ex2.py:19-57 | all three versions turn "$1,234.56" into Decimal("1234.56") |
| Ch03Factors.IterativeIsFactorisation | CH3/ch03_ex3.py:15-38 | for x >= 2 the loop-and-recursion generator yields exactly the ascending prime factorisation of x, an independent reference |
| Ch03Factors.OddScanIsFactorisation | CH3/ch03_ex3.py:32-38 | for odd x with no divisor below the current candidate, the rest of the odd scan yields x's prime factorisation |
| Ch03Factors.OddScanDivides | CH3/ch03_ex3.py:33-37 | when the scan stops at its first divisor i, yielding i and then the factors of x // i gives x's prime factorisation |
| Ch03Factors.FactorNIsFactorisation | CH3/ch03_ex3.py:52-61 | `factor_n(x, n)` yields x's prime factorisation once every candidate below n is ruled out |
| Ch03Factors.FactorNDivides | CH3/ch03_ex3.py:56-59 | when n divides x and n² <= x, yielding n and recursing on x // n gives the factorisation |
| Ch03Factors.RecursiveIsFactorisation | CH3/ch03_ex3.py:42-69 | for x >= 2 the purely recursive generator yields x's prime factorisation |
| Ch03Factors.FirstDivisorIsSmallest | CH3/ch03_ex3.py:33-34 | a divisor found after every smaller candidate is ruled out is the smallest divisor, and the factorisation starts with it |
| Ch03Factors.PrimeBelowSquare | CH3/ch03_ex3.py:53-55 | with no divisor below n and n² > x, x is prime and its factorisation is [x] |
| Ch03Factors.ScanExhausted | CH3/ch03_ex3.py:32-38 | when no candidate up to int(sqrt(x) + 0.5) divides odd x, x is prime and `yield x` is its factorisation |
| Ch03Factors.FactorsAgree | CH3/ch03_ex3.py:15-69 | for x >= 1 both generators agree without error; for x >= 2 the factors multiply back to x, each is prime, and they ascend; for x = 1 both yield [1] |
| Ch03Factors.NegativeOddDiffers | CH3/ch03_ex3.py:32 | for x = -3 `math.sqrt` raises ValueError in the iterative version while the recursive one yields [-3] |
| Ch03Factors.FactorsDoctest | CH3/ch03_ex3.py:18-23 | 1560 factors as [2, 2, 2, 3, 5, 13], and 2 and 3 as themselves, in both versions |
| Ch03Factors.OddPartDoctest | CH3/ch03_ex3.py:52-61 | the odd part 195 of 1560 factors as [3, 5, 13] |
| Ch03Factors.MaxMinBounds | CH3/ch03_ex3.py:102 | on a non-empty list, max and min are elements of it and bound every element |
| Ch03Factors.CalcExtremeValues | CH3/ch03_ex3.py:96-102 | succeeds exactly on non-empty input, else ValueError; the pair is (maximum, minimum), both drawn from the input and bounding every element |
| Ch03Factors.ExtremeValuesDoctest | CH3/ch03_ex3.py:98-99 | [1, 2, 3, 4, 5] gives (5, 1) |
| Ch03Anscombe.ReadRows | CH3/ch03_ex4.py:64-72 | the tab-separated reader emits one row per line of the text |
| Ch03Anscombe.ReadWriteRow | CH3/ch03_ex4.py:72 | a row of cells free of tabs and newlines, written tab-separated, reads back as the same row |
| Ch03Anscombe.ReadRowsWriteRows | CH3/ch03_ex4.py:64-72 | writing rows as tab-separated lines and reading them back gives the same rows (round trip) |
| Ch03Anscombe.ReadRowsDoctest | CH3/ch03_ex4.py:67-70 | "1\t2\t3\n4\t5\t6\n" reads as [["1","2","3"], ["4","5","6"]] |
| Ch03Anscombe.RemoveHeadings | CH3/ch03_ex4.py:75-96 | succeeds exactly when the first three rows are the title, series and column headings, returning the rows after them; running out of rows first is StopIteration and any other mismatch is AssertionError |
| Ch03Anscombe.RemoveHeadingsInverse | CH3/ch03_ex4.py:75-96 | putting the three heading rows in front of any data and removing them gives the data back |
| Ch03Anscombe.RemoveHeadingsDoctest | CH3/ch03_ex4.py:78-85 | the four-row example leaves only the row of numbers |
| Ch03Anscombe.PairOf | CH3/ch03_ex4.py:120 | `Pair(row[2n], row[2n+1])` succeeds exactly when both indexes are valid Python indexes (negative ones counting from the end), else IndexError |
| Ch03Anscombe.CreatePairs | CH3/ch03_ex4.py:110-120 | one pair per row, taken from columns 2n and 2n+1, or IndexError as soon as one row is too short |
| Ch03Anscombe.SamplesCoverColumns | CH3/ch03_ex4.py:123-128 | on rows of eight values the four samples succeed and between them take every column exactly once |
| Ch03Anscombe.CreatePairsDoctest | CH3/ch03_ex4.py:113-117 | samples 0 and 1 of the two example rows are [Pair(1,2), Pair(9,10)] and [Pair(3,4), Pair(11,12)] |
| Ch03Anscombe.NegativeSampleCountsFromEnd | CH3/ch03_ex4.py:120 | n = -1 takes the last two columns and n = 4 on a row of eight raises IndexError |
| Ch03StaticMapping.ConvertToDictSpec | CH3/ch03_ex5.py:45-49 | the dict's keys are exactly the names in the sequence, each value carries its key as name, and the last colour with a name wins |
| Ch03StaticMapping.ConvertToDictLaterWins | CH3/ch03_ex5.py:45-49 | of two colours with the same name, the later one is kept |
| Ch03StaticMapping.SortedKeys | CH3/ch03_ex5.py:65 | `_keys` is a permutation of the pairs' keys in ascending order |
| Ch03StaticMapping.Iter | CH3/ch03_ex5.py:73-74 | iteration yields the keys in ascending order, and a key occurs exactly when some pair has it |
| Ch03StaticMapping.Len | CH3/ch03_ex5.py:76-77 | the length is the number of pairs given |
| Ch03StaticMapping.LowerBound | CH3/ch03_ex5.py:68 | the insertion point: every element before it is smaller and the element at it, if any, is at least x |
| Ch03StaticMapping.BisectLeft | CH3/ch03_ex5.py:68 | the binary search on an ascending sequence returns the insertion point |
| Ch03StaticMapping.LowerBoundFinds | CH3/ch03_ex5.py:68-69 | on ascending keys, x is present exactly when the insertion point holds x |
| Ch03StaticMapping.GetItem | CH3/ch03_ex5.py:67-71 | succeeds exactly when some pair has the key, else ValueError |
| Ch03StaticMapping.GetItemUnsortedQuirk | CH3/ch03_ex5.py:67-71 | on pairs given as [(2,"b"), (1,"a")] looking up 1 returns "b" |
| Ch03StaticMapping.GetItemSortedCorrect | CH3/ch03_ex5.py:63-71 | the corrected lookup succeeds exactly when the key is present, else ValueError, and returns the value of the first pair with that key |
| Ch03StaticMapping.GetItemAgreesOnSortedInput | CH3/ch03_ex5.py:63-71 | on pairs already given in key order the written and corrected lookups agree |
| Ch04Pairs.SplitByCommaInverse | CH4/ch04_ex1.py:20-21 | no piece contains a comma, and joining the pieces with commas gives the text back |
| Ch04Pairs.InvertCoordinates | CH4/ch04_ex1.py:43-56 | succeeds exactly when every row has three fields, else TypeError; the i-th result is (lat, lon) of row i, in order |
| Ch04Pairs.InvertCoordinatesDoctest | CH4/ch04_ex1.py:49-51 | the one-row example turns into [("37.54901619777347", "-76.33029518659048")] |
| Ch04Pairs.LegsChain | CH4/ch04_ex1.py:73-92 | the reference pairing has one leg fewer than points, each leg ends where the next begins, and the starts plus the last end give the path back |
| Ch04Pairs.CreatePairsRecursiveAsWritten | CH4/ch04_ex1.py:72-86 | as written, an empty input gives no legs; any other input yields every leg and then ends in RuntimeError, so `list()` raises |
| Ch04Pairs.CreatePairsRecursiveIntendedIsLegs | CH4/ch04_ex1.py:72-86 | the corrected recursive pairing yields exactly the legs of the path and ends normally |
| Ch04Pairs.CreatePairsIterative | CH4/ch04_ex1.py:91-102 | on a non-empty path the loop yields exactly the legs and ends normally; on an empty one the first `next` ends it in RuntimeError |
| Ch04Pairs.CreatePairsDoctest | CH4/ch04_ex1.py:75-97 | the closed path of five points has the four listed legs |
| Ch04Pairs.FilterPairsIsFilteredLegs | CH4/ch04_ex1.py:118-131 | on a non-empty path `filter_pairs` yields, in order, exactly the legs the rejection rule does not reject |
| Ch04Pairs.FilterPairsDoctest | CH4/ch04_ex1.py:120-123 | rejecting legs that start on x = 0 leaves the four listed legs |
| Ch04Stats.NotAllIsAnyNot | CH4/ch04_ex2.py:46-47 | `not all(p)` and `any(not p)` agree on every sequence |
| Ch04Stats.AreThereNonprimes | CH4/ch04_ex2.py:30-47 | both formulations of `areThereNonprimes` agree and are true exactly when some value is not prime |
| Ch04Stats.CalcMean | CH4/ch04_ex2.py:55-73 | no samples give ZeroDivisionError; otherwise the mean times the count is the sum |
| Ch04Stats.CalcVariance | CH4/ch04_ex2.py:85-86 | the quantity under the square root fails with ZeroDivisionError exactly on no samples |
| Ch04Stats.VarianceIsMeanSquaredDeviation | CH4/ch04_ex2.py:76-86 | s2/N - (s1/N)² is the mean squared deviation from the mean, so never negative and `sqrt` always has a root to take |
| Ch04Stats.SumSquaredDeviation | CH4/ch04_ex2.py:55-62 | the sum of squared deviations from m expands to s2 - 2m·s1 + n·m² |
| Ch04Stats.CalcNormalizedScore | CH4/ch04_ex2.py:89-103 | a zero deviation raises ZeroDivisionError; otherwise score times deviation plus mean gives x back |
| Ch04Stats.CalcMeanDoctest | CH4/ch04_ex2.py:69-71 | the mean of 4, 36, 45, 50, 75 is 42 |
| Ch04Stats.CalcStdevDoctest | CH4/ch04_ex2.py:79-83 | for 2, 4, 4, 4, 5, 5, 7, 9 the mean is 5, the variance 4 and 2 is its square root |
| Ch04Stats.CalcNormalizedScoreDoctest | CH4/ch04_ex2.py:93-98 | with mean 5 and deviation 2 the scores are -1.5, -0.5, -0.5, -0.5, 0, 0, 1, 2 |
| Ch04Structure.Flatten1IsFlatten | CH4/ch04_ex3.py:38-42 | the nested generator expression concatenates the rows in order |
| Ch04Structure.Flatten2 | CH4/ch04_ex3.py:45-48 | the two nested loops produce the rows' items concatenated in order |
| Ch04Structure.ChunksShape | CH4/ch04_ex3.py:65-70 | the reference grouping has len // n blocks, block k being items k·n to k·n + n |
| Ch04Structure.ChunksRebuild | CH4/ch04_ex3.py:65-75 | the blocks followed by the remainder give the sequence back, and the remainder holds len % n items |
| Ch04Structure.GroupByV1Shape | CH4/ch04_ex3.py:65-75 | for n > 0 the result is the blocks as tuples followed by the left-over items one by one |
| Ch04Structure.GroupByV1Exact | CH4/ch04_ex3.py:65-75 | when n divides the length every entry is a full tuple, and their items in order are the sequence |
| Ch04Structure.GroupByV1FlatTrailer | CH4/ch04_ex3.py:71-73 | three items in pairs give one pair followed by a loose item, not a short tuple |
| Ch04Structure.GroupByV1Degenerate | CH4/ch04_ex3.py:69 | n = 0 raises ZeroDivisionError and a negative n leaves every item loose |
| Ch04Structure.GroupByV2AsWritten | CH4/ch04_ex3.py:79-84 | as written, for n > 0 the generator yields the full blocks and then always ends in RuntimeError |
| Ch04Structure.GroupByV2IntendedIsChunks | CH4/ch04_ex3.py:79-84 | the corrected generator yields the full blocks, then the non-empty remainder as one row, ends normally, and its rows concatenate to the input |
| Ch04Structure.StepSliceIndex | CH4/ch04_ex3.py:100-103 | element k of `s[start::step]` is s[start + k·step] |
| Ch04Structure.GroupByNIsChunks | CH4/ch04_ex3.py:102-103 | zipping the n stepped slices gives the full blocks of n in order, dropping the remainder |
| Ch04Structure.GroupByNShape | CH4/ch04_ex3.py:102-103 | there are len // n rows and row k is items k·n to k·n + n |
| Ch04Structure.GroupByEvenOddIsGroupByTwo | CH4/ch04_ex3.py:99-103 | pairing even and odd positions is grouping by two |
| Ch04Structure.Digits | CH4/ch04_ex3.py:112-116 | for a natural number in a base of at least 2: digits below the base, none for 0, and the last (most significant) non-zero |
| Ch04Structure.CalcDigits | CH4/ch04_ex3.py:112-116 | the generator raises ZeroDivisionError exactly for base 0 and a non-zero number; every digit it yields has the base's sign and is smaller than the base in size |
| Ch04Structure.CalcDigitsValue | CH4/ch04_ex3.py:112-116 | in any base, a run that ends without an exception has yielded digits whose value, least significant first, is the number |
| Ch04Structure.DigitsValue | CH4/ch04_ex3.py:112-116 | the digits of a natural number, least significant first, have the number as value |
| Ch04Structure.DigitsOfValue | CH4/ch04_ex3.py:112-116 | canonical digits read back from their value give the same digits (the inverse direction) |
| Ch04Structure.CalcDigitsNatural | CH4/ch04_ex3.py:112-116 | a natural number in a base of at least 2, with recursion to spare, yields exactly its digits and ends cleanly |
| Ch04Structure.CalcDigitsBaseOne | CH4/ch04_ex3.py:112-116 | in base 1 a non-zero number yields one 0 per level and ends in RecursionError at every depth |
| Ch04Structure.CalcDigitsNegativeNumber | CH4/ch04_ex3.py:112-116 | a negative number in a base of at least 2 stays negative under `//` and ends in RecursionError at every depth |
| Ch04Structure.NegativeBaseShrinks | CH4/ch04_ex3.py:114-115 | floor division by a base of −2 or less strictly shrinks a size measure of any non-zero number |
| Ch04Structure.CalcDigitsNegativeBase | CH4/ch04_ex3.py:112-116 | a base of −2 or less always reaches 0: with enough depth the run ends cleanly and the digits' value is the number |
| Ch04Structure.CalcDigitsNegativeBaseExample | CH4/ch04_ex3.py:112-116 | calc_digits(8, −2) yields 0, 0, 0, −1 |
| Ch04Structure.ConvertToBase | CH4/ch04_ex3.py:119-120 | the reversed digits read most significant first give the number; an exception comes from the generator run |
| Ch04Structure.ConvertToBaseValue | CH4/ch04_ex3.py:119-120 | for a natural number in a base of at least 2, the reversed digits are below the base, lead with a non-zero digit, and read most significant first give the number |
| Ch04Structure.ConvertToBaseFailures | CH4/ch04_ex3.py:119-120 | for a non-zero number, base 0 raises ZeroDivisionError, base 1 ends in RecursionError, and so does a negative number in base 2 |
| Ch04Structure.ConvertToBaseDoctest | CH4/ch04_ex3.py:123 | 8 in base 2 is (1, 0, 0, 0) |
| Ch04Structure.EnumerateIsZipRange | CH4/ch04_ex3.py:136-140 | `enumerate(xs)` equals `zip(range(len(xs)), xs)` |
| Ch05Generators.MyMap | CH5/ch05_ex2.py:41-43 | the generator function yields f(x) for every x, in order, as `map` does |
| Ch05Generators.MyFilter | CH5/ch05_ex2.py:60-63 | the generator function yields exactly the items passing f, in order, as `filter` does |
| Ch05Generators.ConvertAllSpec | CH5/ch05_ex1.py:80 | `list(map(conversion, tokens))` succeeds exactly when every token converts, then holds each token's value in order; otherwise it raises what some token raised |
| Ch05Generators.NumbersFromRowsIsMapOverTokens | CH5/ch05_ex2.py:159-175 | converting inside the nested generator equals mapping the conversion over all whitespace-separated tokens of the text |
| Ch05Generators.GroupbyAndFilterAsWritten | CH5/ch05_ex2.py:183-206 | as written, for n > 0 `groupby_and_filter` equals `groupby_iterative` over the filtered items: full rows of n items that all pass the predicate, then RuntimeError |
| Ch05Generators.GroupbyAndFilterIntended | CH5/ch05_ex2.py:183-206 | the corrected grouping of the filtered items ends normally and its rows concatenate to exactly the kept items |
| Ch05Generators.FirstSpec | CH5/ch05_ex2.py:215-217 | `first` returns None exactly when no item passes, and otherwise the earliest item that passes |
| Ch05Generators.FirstIsHeadOfFilter | CH5/ch05_ex2.py:215-217 | `first` is the head of the filtered sequence |
| Ch05Generators.IsPrimeFirst | CH5/ch05_ex2.py:221-226 | raises ValueError exactly for negative odd x, where `math.sqrt` rejects its argument |
| Ch05Generators.FirstFindsOddDivisor | CH5/ch05_ex2.py:224-226 | `first` over the odd candidates up to the bound finds nothing exactly when no odd number in that range divides x |
| Ch05Generators.IsPrimeFirstFromTwo | CH5/ch05_ex2.py:221-226 | for x >= 2 the test answers exactly whether x is prime |
| Ch05Generators.IsPrimeFirstOfOne | CH5/ch05_ex2.py:221-226 | 1 is reported prime, though it is not |
| Ch05Generators.IsPrimeFirstIntended | CH5/ch05_ex2.py:221-226 | the corrected test answers exactly whether x is prime, for every integer |
| Ch05Generators.MapNotNoneIsFilteredMap | CH5/ch05_ex2.py:234-239 | the results are, in order, f applied to exactly the items on which it does not raise |
| Ch05Generators.ToInt | CH5/ch05_ex2.py:232-241 | `int` passes ints through, raises TypeError on None, and converts a string exactly when it parses |
| Ch05Generators.MapNotNoneExample | CH5/ch05_ex2.py:232-241 | [2, 5, 'e', 7, None, 3, 6, 8] gives [2, 5, 7, 3, 6, 8] |
| Ch05Generators.NullAware | CH5/ch05_ex2.py:252-260 | the result is None exactly when the argument is |
| Ch05Generators.NullAwareCompose | CH5/ch05_ex2.py:252-260 | wrapping two functions one after the other is wrapping their composition |
| Ch05Generators.NullAwareMap | CH5/ch05_ex2.py:262-264 | mapping a null-aware function keeps each None where it was and transforms every other value |
| Ch05Generators.SumFilterIsSumOfFiltered | CH5/ch05_ex2.py:269-279 | `Sum_Filter` adds the function's values over exactly the items passing the filter |
| Ch05Generators.CountNotNoneCounts | CH5/ch05_ex2.py:281-283 | `count_not_none` counts the items that are not None, between 0 and the length |
| Ch05Generators.CountNotNoneExample | CH5/ch05_ex2.py:250-283 | the null-aware logarithm of [10, 100, None, 50, 60] has four values that are not None |
| Ch05Mapping.Best | CH5/ch05_ex1.py:33-56 | `max`/`min` raise ValueError exactly on an empty sequence |
| Ch05Mapping.BestIsExtreme | CH5/ch05_ex1.py:33-64 | when the comparison agrees with a numeric key, the winner is an element whose key is at least every element's key |
| Ch05Mapping.UnwrapWrap | CH5/ch05_ex1.py:39-44 | unwrapping the wrapped legs gives the legs back, each wrapped with its own distance |
| Ch05Mapping.ExtremaAgreeOnDistance | CH5/ch05_ex1.py:46-64 | `unwrap(max(wrap(ds)))` and `max(ds, key=dist)` both return a leg of the data with the largest distance, and likewise `min` with the smallest |
| Ch05Mapping.ConvertersAgree | CH5/ch05_ex1.py:98-112 | both conversions give the same legs: same count and ends, only the distance scaled |
| Ch05Mapping.ToMilesInvertsFactor | CH5/ch05_ex2.py:82-83 | `to_miles` undoes scaling by the factor 6076.12/5280 |
| Ch05Mapping.ConvertUnitsIsMapOverDist | CH5/ch05_ex2.py:88-104 | `convert_units(to_miles, ...)` and `map(lambda x: to_miles(dist(x)), ...)` give the same values |
| Ch05Mapping.CalcDistancesUnwrap | CH5/ch05_ex2.py:119-139 | dropping the wrapped distances gives the pairs back, the distances are the rounded distances of the pairs, and without rounding the legs are those of `calc_haversines_1` |
| Ch05Mapping.CreatePairs1IsLegs | CH5/ch05_ex1.py:129-130 | `zip(xs, xs[1:])` gives exactly the legs of the path |
| Ch05Mapping.Map2 | CH5/ch05_ex1.py:146-148 | a two-argument `map` stops at the shorter sequence |
| Ch05Mapping.HaversinesAgree | CH5/ch05_ex1.py:129-151 | the two-argument `map` computes the same legs as `calc_haversines_1` over `create_pairs_1` |
| Ch05Mapping.LongDistancesExact | CH5/ch05_ex1.py:157-160 | a leg is kept exactly when it is in the data with distance at least 50, and each such leg keeps its multiplicity |
| Ch05Mapping.Outliers | CH5/ch05_ex1.py:166-179 | a zero deviation raises ZeroDivisionError exactly when there is some leg to score |
| Ch05Mapping.ScoreAboveTwo | CH5/ch05_ex1.py:170-172 | for a positive deviation, the score exceeds 2 exactly when the distance exceeds mean + 2·deviation |
| Ch05Mapping.OutliersAreFar | CH5/ch05_ex1.py:166-179 | for a positive deviation the outliers are exactly the legs farther than two deviations above the mean, in order |
| Ch05Mapping.SortedByDistance | CH5/ch05_ex1.py:186-195 | `sorted(dataset, key=dist)` is a permutation of the legs, ascending by distance, whose distances are `sorted(dist(x) for x in dataset)` |
| Ch06Recursion.Add | CH6/ch06_ex01.py:15-17 | moving one unit at a time from a to b ends with the ordinary sum a + b |
| Ch06Recursion.Factorial | CH6/ch06_ex01.py:25-27 | the recursion equals the product 1·2·…·n, with 0! = 1 |
| Ch06Recursion.FactorialTco | CH6/ch06_ex01.py:31-36 | as written: 1 for every n ≤ 1 (negative n included), and (n−1)! for every n ≥ 1, which differs from n! from 2 on |
| Ch06Recursion.FactGrows | CH6/ch06_ex01.py:31-36 | n! and (n−1)! differ for every n ≥ 2, so the loop's result is wrong for all such n |
| Ch06Recursion.FactorialTcoOfTwo | CH6/ch06_ex01.py:31-36 | the smallest wrong case: the loop gives 1 for 2 where 2! is 2; on 0 and 1 the loop and n! agree |
| Ch06Recursion.FactorialTcoIntended | CH6/ch06_ex01.py:31-36 | with the loop running to n inclusive, the result is n! for every n |
| Ch06Recursion.FastExponentiation | CH6/ch06_ex01.py:44-52 | splitting odd and even exponents gives base raised to exponent |
| Ch06Recursion.Fibonacci | CH6/ch06_ex01.py:60-63 | the doubly recursive definition is the Fibonacci number computed by pairs |
| Ch06Recursion.FibonacciTco | CH6/ch06_ex01.py:67-73 | the two-variable loop returns the recursive Fibonacci number for every n ≥ 0, and 1 for every negative n, whose range is empty |
| Ch06Recursion.MapRecursive | CH6/ch06_ex01.py:82-87 | recursing from the back yields the in-order concatenation of f(x) for each x: a flat-map |
| Ch06Recursion.MapGenerator | CH6/ch06_ex01.py:100-102 | the generator yields the same list as the generator expression of map_hof |
| Ch06Recursion.MapHofIsMap | CH6/ch06_ex01.py:95-96 | map_hof is element-wise application: [f(x) for x in C] |
| Ch06Recursion.MappedExample | CH6/ch06_ex01.py:104-105 | mapping 2**x over 0..4 gives 1, 2, 4, 8, 16 |
| Ch06Recursion.SumRecursive | CH6/ch06_ex01.py:113-115 | head-first recursion gives the sum, 0 on empty input |
| Ch06Recursion.ProductRecursive | CH6/ch06_ex01.py:118-130 | head-first recursion (on a list or drawing from an iterator) gives the product, 1 on empty input |
| Ch06Recursion.ProductTco | CH6/ch06_ex01.py:134-138 | the accumulating loop gives the same product as the recursion |
| Ch06Grouping.Quantize | CH6/ch06_ex02.py:33-35 | 5·(d//5) is a multiple of 5 with d − 5 < q ≤ d |
| Ch06Grouping.QuantizeIdempotent | CH6/ch06_ex02.py:33-35 | quantising a bucket value leaves it unchanged |
| Ch06Grouping.QuantizeDistanceBy5 | CH6/ch06_ex02.py:101-102 | a leg's bucket lies within 5 below its distance |
| Ch06Grouping.RunsMembers | CH6/ch06_ex02.py:54-66 | the run values are exactly the items |
| Ch06Grouping.RunsTotal | CH6/ch06_ex02.py:54-66 | the run lengths add up to the number of items |
| Ch06Grouping.RunsAscending | CH6/ch06_ex02.py:54-66 | on sorted items the run values strictly ascend |
| Ch06Grouping.RunsCounts | CH6/ch06_ex02.py:54-66 | on sorted items each run length is the multiplicity of its value |
| Ch06Grouping.GroupOfSpec | CH6/ch06_ex02.py:54-66 | group yields (None, 0) for no data; otherwise each distinct value once, ascending, with its multiplicity, counts summing to the input length |
| Ch06Grouping.GroupSorted | CH6/ch06_ex02.py:55-66 | the loop with its previous/count state yields exactly the runs of the sorted items, or (None, 0) when there are none |
| Ch06Grouping.Group | CH6/ch06_ex02.py:54-66 | the loop over sorted(data) yields each distinct value with its multiplicity, the counts summing to len(data) |
| Ch06Grouping.DictOfDistinct | CH6/ch06_ex02.py:68 | dict over pairs with distinct keys holds every pair and no other key |
| Ch06Grouping.GroupSortCounts | CH6/ch06_ex02.py:53-68 | group_sort maps each distance bucket present to the number of legs in it, and empty data to {None: 0} |
| Ch06Grouping.GroupIntoKeys | CH6/ch06_ex02.py:93-98 | group_into adds exactly the keys of the items to the dictionary |
| Ch06Grouping.GroupIntoBuckets | CH6/ch06_ex02.py:93-98 | the list under k grows by the items with key k, in input order |
| Ch06Grouping.GroupBySpec | CH6/ch06_ex02.py:92-99 | group_by's keys are the items' keys, each list holds exactly the items with that key in input order, and no list is empty |
| Ch06Grouping.GettersExample | CH6/ch06_ex02.py:115-141 | the getters project start, end, distance, latitude and longitude of the sample point |
| Ch06Grouping.NorthOfRanks | CH6/ch06_ex02.py:148 | comparing legs by start latitude is a ranking by that key |
| Ch06Grouping.NorthernmostOfSpec | CH6/ch06_ex02.py:147-150 | one leg per key, taken from that key's list; an empty list raises ValueError, as max does |
| Ch06Grouping.NorthernmostDistancesSpec | CH6/ch06_ex02.py:146-150 | for each key in ascending order, a member of its list whose start latitude is maximal; ValueError exactly when some list is empty |
| Ch06Grouping.NorthernmostOfGroupBy | CH6/ch06_ex02.py:152 | on the result of group_by the northernmost legs always exist |
| Ch06Grouping.SumOfOnes | CH6/ch06_ex02.py:163-178 | summing 1 over the data counts it |
| Ch06Grouping.SumGeneralizedMoments | CH6/ch06_ex02.py:163-180 | with 1 and x, sum_generalized gives s0 (the length) and s1 (the sum) |
| Ch06Grouping.SumGeneralizedExample | CH6/ch06_ex02.py:159-180 | on 4, 3, 7, 5, 8 the three reductions give 5, 27 and 163 |
| Ch06Grouping.FilteredSumIsSumFilter | CH6/ch06_ex02.py:189-190 | the filtered sum adds f(x) for exactly the x the filter keeps |
| Ch06Grouping.FilteredSumExample | CH6/ch06_ex02.py:185-196 | rejecting None, the filtered count is 5 and the filtered sum 27 |
| Ch06Parsing.ConvertToFloats | CH6/ch06_ex03.py:33-37 | the rows keep their shape and each cell is converted on its own |
| Ch06Parsing.IsRowNumericSpec | CH6/ch06_ex03.py:50-51 | a row passes exactly when it has 8 cells, none missing and none zero (all() treats 0.0 as false) |
| Ch06Parsing.ZeroRejectsRow | CH6/ch06_ex03.py:50-51 | a row holding 0.0 or None is rejected, a row of 8 non-zero numbers kept |
| Ch06Parsing.FilterHeadingsSpec | CH6/ch06_ex03.py:56-57 | every kept row is numeric and every numeric row is kept |
| Ch06Parsing.FilterHeadingsIdempotent | CH6/ch06_ex03.py:56-57 | filtering the headings twice is the same as once |
| Ch06Parsing.HeaderFieldOf | CH6/ch06_ex03.py:90 | the `Name:` / `Columns:` pattern reads back the value written after its prefix |
| Ch06Parsing.ReadHeadWriteHead | CH6/ch06_ex03.py:89-94 | read_head on a well-formed four-line header returns (name, columns) and leaves the rest of the file |
| Ch06Parsing.ReadHeadNeedsTitle | CH6/ch06_ex03.py:90-94 | without the `GIMP Palette` title the match is None and `.group` raises AttributeError |
| Ch06Parsing.ColorsOfSpec | CH6/ch06_ex03.py:104-109 | the colours fail with ValueError exactly when some row fails, and otherwise are one colour per row, each that row's colour |
| Ch06Parsing.IntToStringIsWord | CH6/ch06_ex03.py:96 | a written integer is one whitespace-free word |
| Ch06Parsing.WordsOfWrittenColor | CH6/ch06_ex03.py:96 | splitting a written colour line gives back r, g, b and the name words |
| Ch06Parsing.ParseIntReadsBack | CH6/ch06_ex03.py:107 | int() reads back every written integer |
| Ch06Parsing.ColorOfWrittenRow | CH6/ch06_ex03.py:107-108 | a written colour line parses back to the same Color, the name rejoined with spaces |
| Ch06Parsing.ColorsOfWritten | CH6/ch06_ex03.py:96-109 | a written body of colour lines parses back to the same colours |
| Ch06Parsing.PaletteRoundTrip | CH6/ch06_ex03.py:88-109 | writing a palette and reading it with read_rows_gpl and get_color_palette gives back its name, columns and colours |
| Ch07Ranking.RankIsMidRank | CH7/ch07_ex01.py:159-171 | every emitted item's rank is the average of the positions its key group occupies: (below + 1 + below + equal)/2, where below counts the smaller keys and equal the items sharing its key |
| Ch07Ranking.RankTies | CH7/ch07_ex01.py:160-165 | items with equal keys receive the same rank |
| Ch07Ranking.RankOutputItems | CH7/ch07_ex01.py:160-165 | rank_output emits the items of each bucket, bucket after bucket in key order |
| Ch07Ranking.RankEmitsEach | CH7/ch07_ex01.py:159-171 | rank emits every input item exactly once (as a multiset the output items are the input) |
| Ch07Ranking.RankSorted | CH7/ch07_ex01.py:166-171 | the output is ordered by ascending key |
| Ch07Ranking.RankStable | CH7/ch07_ex01.py:166-171 | within one key the items keep their input order |
| Ch07Ranking.RankPositions | CH7/ch07_ex01.py:160-171 | all ranks add up to 1 + 2 + … + n, the sum of the positions |
| Ch07Ranking.TriangleClosed | CH7/ch07_ex01.py:160-171 | that sum is n(n+1)/2 |
| Ch07Ranking.SortedKeys | CH7/ch07_ex01.py:166-171 | build_duplicates groups every item under its key and sorted(duplicates) lists each key once, ascending |
| Ch07Ranking.GroupsLength | CH7/ch07_ex01.py:160-171 | the buckets together hold as many items as the data |
| Ch07Ranking.RankYSpec | CH7/ch07_ex01.py:187-193 | rank_y keeps every raw pair once and attaches to each the average rank of its y among all pairs |
| Ch07Ranking.RankXYRaw | CH7/ch07_ex01.py:207-217 | rank_xy keeps every raw pair exactly once |
| Ch07Ranking.RankXYSpec | CH7/ch07_ex01.py:207-217 | rank_xy attaches to each raw pair both its x rank and its y rank among all pairs |
| Ch07Ranking.SpearmanOfRaises | CH7/ch07_ex01.py:236-237 | the formula divides by n(n²−1), so it raises ZeroDivisionError exactly when n < 2 |
| Ch07Ranking.SpearmanOfBounds | CH7/ch07_ex01.py:237 | 1 − 6Σd²/(n(n²−1)) is at most 1, and exactly 1 when the rank differences vanish |
| Ch07Ranking.SpearmanRaises | CH7/ch07_ex01.py:230-237 | calc_spearman_corr raises ZeroDivisionError exactly for fewer than two pairs |
| Ch07Ranking.SpearmanAtMostOne | CH7/ch07_ex01.py:230-237 | the correlation never exceeds 1 |
| Ch07Ranking.SpearmanIdentical | CH7/ch07_ex01.py:230-237 | pairs whose x and y agree have correlation exactly 1 |
| Ch07Ranking.RankYExample | CH7/ch07_ex01.py:175-178 | on the sample, 0.8 ranks first and the tied 1.2 values both rank 2.5 |
| Ch08Iterators.Count | CH8/ch08_ex01.py:19-20 | the first n values of count(start) are start, start+1, …, start+n−1 |
| Ch08Iterators.EnumerateSpec | CH8/ch08_ex01.py:19-20 | enumerate(x, start) yields (start+i, x[i]) for every position i, and nothing more |
| Ch08Iterators.EnumerateValues | CH8/ch08_ex01.py:19-20 | dropping the counters gives back x |
| Ch08Iterators.EnumerateDefault | CH8/ch08_ex01.py:22-26 | with the default start, enumerate(x) is zip(count(), x) |
| Ch08Iterators.EnumerateIsBuiltin | CH8/ch08_ex01.py:16-20 | the zip/count definition agrees with the built-in enumerate |
| Ch08Iterators.IterateUntilIsFirst | CH8/ch08_ex01.py:31-34 | iterate_until_condition returns the first item that passes, and raises StopIteration when none does |
| Ch08Iterators.IterateUntilSpec | CH8/ch08_ex01.py:31-34 | StopIteration exactly when no item passes; otherwise the result passes and every earlier item fails |
| Ch08Iterators.CycleIndex | CH8/ch08_ex01.py:54-55 | the i-th value of cycle(saved) is saved[i mod len(saved)] |
| Ch08Iterators.CycleFromIndex | CH8/ch08_ex01.py:54-55 | a cycle entered at phase p gives saved[(p+i) mod len(saved)] |
| Ch08Iterators.ChooserSpec | CH8/ch08_ex01.py:54-55 | (i == 0 for i in cycle(range(k))) is true exactly at the positions divisible by k |
| Ch08Iterators.PickedFromPhase | CH8/ch08_ex01.py:85-91 | a chooser entered at phase p picks every k-th row starting at the first position where it wraps to 0 |
| Ch08Iterators.SampleEveryKth | CH8/ch08_ex01.py:85-92 | zipping rows with the chooser and keeping the picked ones selects rows[0::k] |
| Ch08Iterators.AllChooserKeepsAll | CH8/ch08_ex01.py:100-101 | the repeat(0) chooser keeps every row |
| Ch08Iterators.Zip3 | CH8/ch08_ex01.py:58 | zip of three stops at the shortest input |
| Ch08Iterators.MultipliersSpec | CH8/ch08_ex01.py:54-58 | the i-th triple is (i, i is a multiple of 3, i is a multiple of 5) |
| Ch08Iterators.FilterByFlags | CH8/ch08_ex01.py:63-67 | keeping triples with any flag set keeps exactly the values that are multiples of 3 or 5 |
| Ch08Iterators.ValidMultipliersSpec | CH8/ch08_ex01.py:58-67 | validMultipliers is the sum of the i below n that are multiples of 3 or 5 |
| Ch08Iterators.ValidMultipliersIs23 | CH8/ch08_ex01.py:63-67 | for range(10) that sum is 3 + 5 + 6 + 9 = 23 |
| Ch08Iterators.SumRepeat | CH8/ch08_ex01.py:115-118 | summing t copies of v gives v·t |
| Ch08Iterators.SquaresSpec | CH8/ch08_ex01.py:110-118 | squares1[i] is i copies of i, squares2[i] is i·i, and squares2 is the sums of squares1's tuples |
| Ch08Finite.CreateOrderedPairsSpec | CH8/ch08_ex02.py:44-52 | the i-th leg has order i, copies the pair's start and end, and carries the distance between them |
| Ch08Finite.OrderedPairsEndpoints | CH8/ch08_ex02.py:44-52 | dropping order and distance gives back the pairs |
| Ch08Finite.AccumulateSums | CH8/ch08_ex02.py:77-78 | the i-th accumulated distance is the sum of the first i+1 distances |
| Ch08Finite.AccumulateLast | CH8/ch08_ex02.py:77-79 | the last accumulated distance is the total |
| Ch08Finite.AccumulateMonotone | CH8/ch08_ex02.py:77-78 | for non-negative legs the running totals never decrease and stay within 0 and the total |
| Ch08Finite.QuartileBounds | CH8/ch08_ex02.py:79-80 | int(4·d/total) is between 0 and 3 whenever 0 ≤ d < total |
| Ch08Finite.QuartileMonotone | CH8/ch08_ex02.py:80 | a larger accumulated distance never gets a smaller quartile |
| Ch08Finite.QuartilesInRange | CH8/ch08_ex02.py:77-90 | with total = last + 1.0, every quartile is in 0..3 and the quartiles never decrease along the trip |
| Ch08Finite.WithoutOffsetFifthQuartile | CH8/ch08_ex02.py:86-89 | without the +1.0 the last leg would get the impossible quartile 4 |
| Ch08Finite.FirstSeenSpec | CH8/ch08_ex02.py:146-151 | the dictionary's keys are the items' keys, each once, in first-seen order |
| Ch08Finite.GroupBy2 | CH8/ch08_ex02.py:146-151 | the loop yields, for each key in first-seen order, the group of items with that key |
| Ch08Finite.GroupsOfShape | CH8/ch08_ex02.py:150-151 | one group per key, holding exactly the items with that key in input order, never empty |
| Ch08Finite.GroupBy2Partition | CH8/ch08_ex02.py:146-151 | every item lands in exactly one group (the groups flatten to a permutation of the input) |
| Ch08Finite.GroupBy2Groups | CH8/ch08_ex02.py:146-151 | groupby_2 yields one non-empty group per distinct key, each with the items of that key in input order |
| Ch08Finite.TeeFilterIsFilter | CH8/ch08_ex02.py:159-161 | tee plus compress keeps, in order, the items for which the function is true |
| Ch08Finite.ISliceIsSlice | CH8/ch08_ex02.py:208-211 | islice(it, start, None, step) yields the same items as flat[start::step] |
| Ch08Finite.Structured2IsStructured | CH8/ch08_ex02.py:200-211 | the islice pairing equals the slice pairing |
| Ch08Finite.StructuredPairs | CH8/ch08_ex02.py:200 | zip(flat[0::2], flat[1::2]) yields (flat[2k], flat[2k+1]) for k < len//2 |
| Ch08Finite.StructuredPrimes | CH8/ch08_ex02.py:193-200 | the twenty primes pair up into ten pairs, from ("2", "3") to ("67", "71") |
| Ch09Combinatorics.CartesianLength | CH9/ch09_ex01.py:32 | product(a, b) has len(a)·len(b) pairs |
| Ch09Combinatorics.CartesianAt | CH9/ch09_ex01.py:32 | pair number i·len(b)+j is (a[i], b[j]): row-major order |
| Ch09Combinatorics.CartesianMembers | CH9/ch09_ex01.py:32 | a pair occurs exactly when its first part is in a and its second in b |
| Ch09Combinatorics.CardProductExample | CH9/ch09_ex01.py:32 | product(range(1, 4), 'DHS') lists the nine pairs in row-major order |
| Ch09Combinatorics.CardProductIsSet | CH9/ch09_ex01.py:22-32 | as a set those pairs are the nine-pair cartesianProd written out by hand |
| Ch09Combinatorics.JoinMembers | CH9/ch09_ex01.py:41-42 | join holds exactly the pairs from table1 × table2 that satisfy where |
| Ch09Combinatorics.NestedLoopJoin | CH9/ch09_ex01.py:41-42 | a nested loop over the two tables produces the same join, in the same order |
| Ch09Combinatorics.AbsDiff | CH9/ch09_ex01.py:93 | \|x − y\| is non-negative and zero exactly when x = y |
| Ch09Combinatorics.ManhattanZero | CH9/ch09_ex01.py:91-96 | the distance is non-negative, and for equal lengths zero exactly on identical colours |
| Ch09Combinatorics.ManhattanSymmetric | CH9/ch09_ex01.py:91-96 | the distance from p to q equals the distance from q to p |
| Ch09Combinatorics.ManhattanTriangle | CH9/ch09_ex01.py:91-96 | the distance obeys the triangle inequality |
| Ch09Combinatorics.ManhattanExample | CH9/ch09_ex01.py:91-96 | (92, 139, 195) is 240 away from Almond |
| Ch09Combinatorics.Bit3 | CH9/ch09_ex01.py:184 | range(0, 256, 0b100000) is the eight multiples of 32 below 256 |
| Ch09Combinatorics.Mask | CH9/ch09_ex01.py:196 | masking a byte with 0b11100000 rounds it down to a multiple of 32 |
| Ch09Combinatorics.MaskBits | CH9/ch09_ex01.py:196 | the bitwise and on a byte is that rounding |
| Ch09Combinatorics.MaskOntoGrid | CH9/ch09_ex01.py:184-196 | every masked byte lies on the bit3 grid, within 32 below the byte, and masking twice changes nothing |
| Ch09Combinatorics.TriplesMembers | CH9/ch09_ex01.py:187 | product(bit3, bit3, bit3) holds exactly the triples of grid values |
| Ch09Combinatorics.MaskedPixelInGrid | CH9/ch09_ex01.py:185-196 | every masked pixel is a key of the colour map built over the grid |
| Ch09Combinatorics.PermsSound | CH9/ch09_ex01.py:218 | every generated permutation rearranges the input |
| Ch09Combinatorics.PermsComplete | CH9/ch09_ex01.py:218 | every rearrangement of the input is generated |
| Ch09Combinatorics.PermsOfRange | CH9/ch09_ex01.py:218 | permutations(range(n)) is non-empty and each one is a permutation of 0..n−1 |
| Ch09Combinatorics.MinAssignmentOptimal | CH9/ch09_ex01.py:217-224 | the minimum is at most Σ cost[perm[y]][y] for every permutation and is attained by one |
| Ch09Combinatorics.ColumnSpec | CH9/ch09_ex01.py:273-275 | column(source, x) yields row[x] for every row, in order, and raises IndexError exactly when some row is too short |
| Ch09Combinatorics.ColumnAsWritten | CH9/ch09_ex01.py:273-281 | as indented, the generator never finishes normally |
| Ch09Combinatorics.ColumnAsWrittenRecursion | CH9/ch09_ex01.py:273-281 | when every row has both items, list(column(...)) ends in RecursionError at any depth |
| Ch09Combinatorics.ColumnAsWrittenExample | CH9/ch09_ex01.py:273-281 | on [[1, 2]] the intended column is [1] and the written one raises RecursionError |
| Ch10HigherOrder.FibonacciLruCorrect | CH10/ch10_ex01.py:18-30 | with a cache holding only correct entries, fibonacci_lru(n) equals fibonacci(n) and leaves the cache correct |
| Ch10HigherOrder.FibonacciLruExtends | CH10/ch10_ex01.py:26-30 | a call stores n and never changes an entry already cached |
| Ch10HigherOrder.FibonacciLruHit | CH10/ch10_ex01.py:26-30 | a repeated call returns the same value and leaves the cache as it was |
| Ch10HigherOrder.CardOrderIsRankOrder | CH10/ch10_ex01.py:73-83 | against a Card or a number, the class's own == and < compare the rank only |
| Ch10HigherOrder.CardSuitIgnored | CH10/ch10_ex01.py:73-90 | two cards of one rank are equal whatever their suits, and a card equals its bare rank |
| Ch10HigherOrder.CardTupleOrderIsTotal | CH10/ch10_ex01.py:54-55 | between cards the inherited tuple <= is a total order on (rank, suit): total, antisymmetric, transitive, with > its complement and >= its converse |
| Ch10HigherOrder.CardDistinctRanksFollowRank | CH10/ch10_ex01.py:54-83 | for cards of different rank all six comparisons, inherited or own, follow the rank order |
| Ch10HigherOrder.CardEqualRanksSplit | CH10/ch10_ex01.py:54-83 | for cards of equal rank == is true and < false, yet != holds exactly when the suits differ and <= is decided by the suits |
| Ch10HigherOrder.CardLeNotLtOrEq | CH10/ch10_ex01.py:54-83 | 2♥ against 2♠: == is True and < is False, yet <= is False and != is True |
| Ch10HigherOrder.CardAgainstNumber | CH10/ch10_ex01.py:54-83 | against a number, == and < compare the rank, <=, > and >= raise TypeError, and != is true even when the rank equals the number |
| Ch10HigherOrder.CardAgainstOther | CH10/ch10_ex01.py:54-83 | against a non-tuple non-number, == and < fall off the end and give None, <=, > and >= raise TypeError, and != is true |
| Ch10HigherOrder.CardExamples | CH10/ch10_ex01.py:87-100 | c2s ≤ c3h < c4c, c3h ≥ c3h, c3h > c2s, c4c ≠ c2s, c2h == c2s and c2h == 2 all hold with the inherited operators |
| Ch10HigherOrder.CardByRankIsRankOrder | CH10/ch10_ex01.py:85 | with all six comparisons derived from __eq__ and __lt__, every one compares the rank only, against a Card or a number |
| Ch10HigherOrder.CardByRankAgreesOnDistinctRanks | CH10/ch10_ex01.py:54-83 | the rank-only <=, >, >= and != agree with the inherited ones whenever the ranks differ |
| Ch10HigherOrder.FoldCount | CH10/ch10_ex01.py:147 | folding x+1 from init adds the number of items |
| Ch10HigherOrder.FoldSquares | CH10/ch10_ex01.py:132-149 | folding x + y² from init adds the sum of the squares |
| Ch10HigherOrder.FoldMin | CH10/ch10_ex01.py:150 | folding the smaller of two keeps a value from the input no larger than any |
| Ch10HigherOrder.FoldMax | CH10/ch10_ex01.py:151 | folding the larger of two keeps a value from the input no smaller than any |
| Ch10HigherOrder.ReduceCountIsLength | CH10/ch10_ex01.py:147 | the reduce-based count is the length |
| Ch10HigherOrder.ReduceSumIsSum | CH10/ch10_ex01.py:128-148 | the reduce-based sum is the sum, and raises TypeError on empty input for want of an initial value |
| Ch10HigherOrder.ReduceSum2IsSumOfSquares | CH10/ch10_ex01.py:132-149 | with initial 0 the fold gives Σy²; without it the first item is not squared: L[0] + Σ(rest²) |
| Ch10HigherOrder.ReduceMinMax | CH10/ch10_ex01.py:150-151 | the reduce-based min and max succeed exactly on non-empty input, raise TypeError otherwise, and return the least and greatest item |
| Ch10HigherOrder.SomeListExamples | CH10/ch10_ex01.py:124-142 | on someList the sum is 40, the sum of squares 232, and the uninitialised version 230 |
| Ch10HigherOrder.FoldAddNamed | CH10/ch10_ex01.py:172 | folding operator.add from init adds the sum |
| Ch10HigherOrder.MapReduceSpec | CH10/ch10_ex01.py:160-177 | sum2_mr and sum2_mr2 agree and give the sum of squares, len_mr the length; all raise TypeError on empty input |
| Ch10HigherOrder.ConcatenateByReduce | CH10/ch10_ex01.py:182 | folding string concatenation over the pieces gives "1,2,3" |
| Ch10HigherOrder.SortKeys | CH10/ch10_ex01.py:244 | sorting the keys keeps exactly the same keys |
| Ch10HigherOrder.SortKeysAscending | CH10/ch10_ex01.py:244 | for a strict total order on distinct keys the result ascends |
| Ch10HigherOrder.CustomGroupBy | CH10/ch10_ex01.py:239-245 | yields, for each key in sorted order, the key with exactly its rows in input order |
| Ch10HigherOrder.CustomGroupBySpec | CH10/ch10_ex01.py:239-245 | the keys come out ascending, are exactly the keys of the rows, and each group is non-empty, with no pre-sort of the input |
| Ch10HigherOrder.StrLessIsStrictTotalOrder | CH10/ch10_ex01.py:244 | string comparison is a strict total order, so sorted(pd) is well defined |
| Ch10HigherOrder.SortedKeysExample | CH10/ch10_ex01.py:228-245 | the sample's keys '4', '1', '2', '3' sort to '1', '2', '3', '4' |
| Ch10HigherOrder.ReduceSumRIsSum | CH10/ch10_ex01.py:148 | the rebound sum over floats is their sum, TypeError when empty |
| Ch10HigherOrder.CalcMeanSpec | CH10/ch10_ex01.py:255-256 | calc_mean is sum/len, and on empty input raises TypeError from the rebound sum before any division |
| Ch10HigherOrder.CalcVarianceNonNegative | CH10/ch10_ex01.py:258-262 | with a positive mean and some data, Σ(x − mean)²/mean exists and is non-negative |
| Ch10HigherOrder.CalcSummariesSpec | CH10/ch10_ex01.py:264-269 | no rows raise TypeError; positive values give the key back with a non-negative variance |
| Ch11Decorators.NullWrapper | CH11/ch11_ex01.py:44-48 | nullable(f)(None) is None; otherwise f's result, or f's exception, passes through unchanged |
| Ch11Decorators.MapAll | CH11/ch11_ex01.py:57-58 | list(map(g, data)) succeeds exactly when g succeeds on every item, and then holds g's results in order |
| Ch11Decorators.NullAwareMapKeepsNones | CH11/ch11_ex01.py:53-58 | mapping the null-aware function puts None exactly where the data had None |
| Ch11Decorators.NullableComposes | CH11/ch11_ex01.py:63-80 | applying null-aware g after null-aware f equals the null-aware composite of f then g |
| Ch11Decorators.ThenConvertSpec | CH11/ch11_ex01.py:243-253 | conv(t) when it succeeds or fails with an uncaught error; after ValueError or InvalidOperation, conv(clean(t)), whose own failure propagates |
| Ch11Decorators.ThenConvertCleanText | CH11/ch11_ex01.py:243-253 | when cleaning changes nothing, the wrapper behaves like the converter |
| Ch11Decorators.RemoveCommasIsThenConvert | CH11/ch11_ex01.py:109-117 | remove_commas(f) is then_convert(f) with comma removal as the cleaner |
| Ch11Decorators.NoCommasDeletesCommas | CH11/ch11_ex01.py:115 | text.replace(",", "") keeps every other character in order and leaves no comma |
| Ch11Decorators.CleanListKeepsOthers | CH11/ch11_ex01.py:148-152 | clean_list removes every listed character and keeps the rest in order |
| Ch11Decorators.CleanListEmpty | CH11/ch11_ex01.py:150-152 | with nothing to remove, clean_list returns the text |
| Ch11Decorators.RemoveCharsIsThenConvert | CH11/ch11_ex01.py:154-164 | remove_chars(*cs)(f) is then_convert(f) with clean_list(·, cs) as the cleaner |
| Ch11Decorators.RemoveCharsComma | CH11/ch11_ex01.py:154-164 | remove_chars(",") behaves exactly like remove_commas |
| Ch11Decorators.ConvertToCurrencyExample | CH11/ch11_ex01.py:168-177 | when Decimal rejects "$1,701.00", convert_to_currency retries on "1701.00" |
| Ch11Decorators.Int | CH11/ch11_ex01.py:258 | int(text) succeeds exactly on decimal-digit text and otherwise raises ValueError |
| Ch11Decorators.RemovePunctuationKeepsOthers | CH11/ch11_ex01.py:259-275 | remove_punctuation deletes every ',' and '$' and keeps the rest in order |
| Ch11Decorators.RemovePunctuationIntRetries | CH11/ch11_ex01.py:258-277 | text int() rejects is converted after its punctuation is removed |
| Ch11Decorators.RemovePunctuationCommaExample | CH11/ch11_ex01.py:264-277 | "1,701" converts to 1701 |
| Ch11Decorators.RemovePunctuationPlainExample | CH11/ch11_ex01.py:265-277 | "97" converts to 97 without cleaning |
| Ch12Logs.SplitOnJoin | CH12/ch12_ex01.py:239 | splitting on the separator undoes joining separator-free pieces |
| Ch12Logs.JoinSplitOn | CH12/ch12_ex01.py:239 | joining the pieces of str.split(d) with d gives back the string |
| Ch12Logs.SplitOnFlatten | CH12/ch12_ex01.py:239 | the pieces of a split hold exactly the non-separator characters, in order |
| Ch12Logs.ParseRequest | CH12/ch12_ex01.py:175-177 | parse_request raises IndexError exactly when the request has no words |
| Ch12Logs.WordsIsSplitOn | CH12/ch12_ex01.py:176 | split() with no argument equals splitting at every whitespace character and dropping the empty pieces |
| Ch12Logs.WordsOfJoin | CH12/ch12_ex01.py:176 | split() on words joined by single spaces gives back the words |
| Ch12Logs.ParseRequestRoundTrip | CH12/ch12_ex01.py:175-177 | for a request written as method, url words and protocol, parse_request returns the first word, the middle words joined by single spaces, and the last word |
| Ch12Logs.ConvertToAccessDetail | CH12/ch12_ex01.py:204-216 | a None record (a line the pattern rejected) raises AttributeError and a request without words raises IndexError, neither caught by the ValueError handler; any detail built keeps its access record |
| Ch12Logs.ConvertToAccessDetailsSpec | CH12/ch12_ex01.py:204-222 | the conversion succeeds exactly when every record was matched and has a request word, otherwise fails with the first bad record's exception; on success it keeps, in order, exactly the records whose time parses |
| Ch12Logs.NonemptyPathHasNonSlash | CH12/ch12_ex01.py:239-252 | any(path.split('/')) holds exactly when the path has a character other than '/' |
| Ch12Logs.RemoveFieldsSpec | CH12/ch12_ex01.py:237-272 | remove_fields keeps, in input order, exactly the details with a non-slash path, no excluded name among the segments and no excluded extension on the last; remove_fields_2 gives the same result |
| Ch12Logs.RemoveFieldsNonempty | CH12/ch12_ex01.py:239-241 | every kept detail has a non-empty path segment |
| Ch12Logs.FilterNonEmptyIff | CH12/ch12_ex01.py:295-299 | the tuple of non-empty segments is non-empty exactly when any(segments) holds |
| Ch12Logs.IsThereBookInPath | CH12/ch12_ex01.py:294-300 | paths[0] raises IndexError exactly when the path has no non-empty segment |
| Ch12Logs.BookInPathOn | CH12/ch12_ex01.py:294-300 | otherwise the result is: the first non-empty segment is 'book' and there are at least two |
| Ch12Logs.BookPageExample | CH12/ch12_ex01.py:294-300 | "/book/index.html" is a book path |
| Ch12Logs.BookRootExample | CH12/ch12_ex01.py:294-300 | "/book" alone is not |
| Ch12Logs.FilterBooks | CH12/ch12_ex01.py:302-303 | filter_books succeeds exactly when the test succeeds on every detail |
| Ch12Logs.FilterBooksAfterRemoveFields | CH12/ch12_ex01.py:322-327 | after remove_fields the book filter cannot raise |
| Ch12Logs.ReduceBookTotal | CH12/ch12_ex01.py:308-312 | the counter's keys are exactly the paths seen |
| Ch12Logs.ReduceBookTotalCounts | CH12/ch12_ex01.py:308-312 | each path's count is its number of occurrences, and an absent path occurs nowhere |
| Ch12Logs.CountsSumToTotal | CH12/ch12_ex01.py:308-312 | the counts over the distinct paths add up to the number of details |
| Ch12Logs.RunAnalysisFails | CH12/ch12_ex01.py:321-329 | run_analysis succeeds exactly when every log line matched the pattern and its request has a word; otherwise it raises what the first bad line raises (AttributeError for an unmatched line, IndexError for an empty request) |
| Ch13Conditional.ProductOfIsProduct | CH13/ch13_ex01.py:17 | reduce(mul, iterable, 1) is the product, 1 on empty input |
| Ch13Conditional.ProductExample | CH13/ch13_ex01.py:18 | product((1, 2, 3)) is 6 |
| Ch13Conditional.SomeExpressionIsDictDispatch | CH13/ch13_ex01.py:27-28 | the nested conditional equals looking up True in the dictionary {n == 1: x, n == 2: y, n ∉ {1, 2}: z}, for every n |
| Ch13Conditional.DictOf | CH13/ch13_ex01.py:35-53 | a dict display has exactly the keys that appear in it |
| Ch13Conditional.DictOfLastWins | CH13/ch13_ex01.py:56-61 | a key's value comes from its last occurrence in the display |
| Ch13Conditional.Lookup | CH13/ch13_ex01.py:39-53 | indexing returns the stored value for a present key and raises KeyError otherwise |
| Ch13Conditional.FactorialTableTrue | CH13/ch13_ex01.py:35-39 | the True entry selects 1 for 0 and 1, 2 for 2, the recursive case above 2, and is missing for negative n |
| Ch13Conditional.FactorialIsFact | CH13/ch13_ex01.py:34-40 | the dict-dispatch factorial is n! for n ≥ 0 and raises KeyError for n < 0 |
| Ch13Conditional.Max | CH13/ch13_ex01.py:49-54 | the result is one of the arguments and no smaller than either |
| Ch13Conditional.MaxTie | CH13/ch13_ex01.py:56-61 | when a == b both entries have key True and the surviving value is the same |
| Ch13Conditional.FirstTrue | CH13/ch13_ex01.py:78 | next(filter(itemgetter(0), ...)) succeeds exactly when some condition is true, else raises StopIteration |
| Ch13Conditional.SemifactorialChoice | CH13/ch13_ex01.py:72-78 | the first true alternative is 1 for 0 and 1, 2 for 2, the recursive case above 2, and none for negative n |
| Ch13Conditional.SemifactorialIsProduct | CH13/ch13_ex01.py:70-79 | semifactorial(n) is the product of 1..n with n's parity (1 for 0), and raises StopIteration for n < 0 |
| Ch13Conditional.SemifactorialIsDoubleFact | CH13/ch13_ex01.py:70-79 | it is the double factorial n·(n−2)·… |
| Ch13Conditional.SumReduceSpec | CH13/ch13_ex01.py:164 | partial(reduce, add) is the sum of non-empty input and raises TypeError on empty input |
| Ch13Conditional.ProdReduceSpec | CH13/ch13_ex01.py:169 | partial(reduce, mul) is the product of non-empty input and raises TypeError on empty input |
| Ch14Currying.CurriedForms | CH14/ch14_ex01.py:77-86 | f(x, y, z), f(x, y)(z), f(x)(y, z) and f(x)(y)(z) all give (x+y)·z |
| Ch14Currying.FArity | CH14/ch14_ex01.py:77-86 | f(x) awaits y, f(x, y) awaits z, f(x, y, z) is (x+y)·z, and a fourth argument reaches f2 and raises TypeError |
| Ch14Currying.AlternateRangeMembers | CH14/ch14_ex01.py:107-110 | 0 gives [1]; otherwise the members are exactly 1..n with n's parity |
| Ch14Currying.AlternateRangeAscends | CH14/ch14_ex01.py:107-110 | the values step up by 2 |
| Ch14Currying.AlternateRangeIsSameParity | CH14/ch14_ex01.py:107-110 | for n ≥ 1 the range is the same-parity list that semifactorial multiplies |
| Ch14Currying.CalcSemifactorialIsDoubleFact | CH14/ch14_ex01.py:100-117 | calc_semifactorial(n) is the double factorial for n ≥ 0; a negative n leaves reduce with an empty range and raises TypeError |
| Ch14Currying.CalcSemifactorialAgrees | CH14/ch14_ex01.py:247-249 | for n ≥ 0 the composed version equals the dict-free semifactorial of chapter 13 |
| Ch14Currying.ProductUpTo | CH14/ch14_ex01.py:219-233 | the product of range(1, n+1) is n! |
| Ch14Currying.CalcFactorialIsFact | CH14/ch14_ex01.py:219-233 | calc_factorial(x) is x!, with 0! = 1 from the special range, and raises TypeError for x < 0 |
| Ch14Currying.CalcN21 | CH14/ch14_ex01.py:241-242 | 2n + 1 is odd and halving it after subtracting 1 gives n back |
| Ch14Currying.CalcN21SemifactorialSpec | CH14/ch14_ex01.py:251-253 | the composite is the double factorial of 2x + 1, TypeError for x < 0 |
| Ch14Currying.ComeOutRoll | CH14/ch14_ex01.py:299-307 | 7 or 11 wins, 2, 3 or 12 loses, anything else sets the point; the point is the total and the history the single roll |
| Ch14Currying.PointRollKeepsFinished | CH14/ch14_ex01.py:311-315 | a status other than "point" is returned unchanged |
| Ch14Currying.PointRollStep | CH14/ch14_ex01.py:316-322 | a roll that is neither 7 nor the point is appended and the game rolls again |
| Ch14Currying.PointRollEndsIff | CH14/ch14_ex01.py:311-322 | the point phase ends exactly when some roll is 7 or the point |
| Ch14Currying.PointRollAtFirstDecisive | CH14/ch14_ex01.py:311-322 | it ends at the first such roll: "craps" on 7, "win" on the point, with exactly the rolls made appended |
| Ch14Currying.PointRollEnds | CH14/ch14_ex01.py:311-322 | a finished point phase is "craps" or "win", keeps the point, and its history grows by a prefix of the rolls |
| Ch14Currying.CrapsEnds | CH14/ch14_ex01.py:326-328 | a finished game is "win", "lose" or "craps", and its history is a non-empty prefix of the rolls |
| Ch15Web.EncodeChar | CH15/ch15_ex01.py:303 | a character encodes to one to four UTF-8 bytes, one exactly for ASCII |
| Ch15Web.DecodeEncodeChar | CH15/ch15_ex01.py:303 | the encoding of one character decodes back to it, consuming exactly its bytes |
| Ch15Web.Utf8RoundTrip | CH15/ch15_ex01.py:299-304 | to_bytes's text.encode('utf-8') loses nothing: decoding gives back the text |
| Ch15Web.Utf8Ascii | CH15/ch15_ex01.py:299-304 | ASCII text encodes byte for byte |
| Ch15Web.Utf8Append | CH15/ch15_ex01.py:303 | encoding a concatenation concatenates the encodings |
| Ch15Web.UrlDatasetIsShortestMatch | CH15/ch15_ex01.py:227 | the captured dataset makes the whole pattern match, and no shorter capture does (the lazy .*? with an optional final slash) |
| Ch15Web.MatchIsCaptured | CH15/ch15_ex01.py:227 | whenever some dataset makes the pattern match, match() succeeds with one no longer |
| Ch15Web.UrlDatasetOfId | CH15/ch15_ex01.py:227 | "/anscombe/" followed by an id, with or without a trailing slash, captures exactly that id |
| Ch15Web.UrlDatasetExamples | CH15/ch15_ex01.py:231-240 | "/anscombe/I" gives "I", "/anscombe/II/" gives "II" and "/anscombe/" gives "" |
| Ch15Web.SerializeJsonRoundTrip | CH15/ch15_ex01.py:312-324 | parsing the JSON text written for a list of pairs gives the pairs back |
| Ch15Web.ObjectBodyRoundTrip | CH15/ch15_ex01.py:319-323 | one {"x": …, "y": …} object reads back as its pair |
| Ch15Web.SerializeJsonDoctest | CH15/ch15_ex01.py:314-318 | [Pair(2,3), Pair(5,7)] serialises to [{"x": 2, "y": 3}, {"x": 5, "y": 7}] |
| Ch15Web.SerializeCsvRoundTrip | CH15/ch15_ex01.py:328-339 | parsing the CSV text, header "x,y" then CRLF-terminated rows, gives the pairs back |
| Ch15Web.CsvRowRoundTrip | CH15/ch15_ex01.py:338 | one "x,y" row reads back as its pair |
| Ch15Web.SerializeCsvDoctest | CH15/ch15_ex01.py:330-334 | [Pair(2,3), Pair(5,7)] serialises to 'x,y\r\n2,3\r\n5,7\r\n' |
| Ch15Web.WriteSerializedDataDispatch | CH15/ch15_ex01.py:425-443 | the lower-cased format picks JSON, CSV or XML with their MIME types, and anything else falls back to HTML as text/html |
| Ch15Web.WriteSerializedDataIgnoresCase | CH15/ch15_ex01.py:440-442 | an upper-cased format selects the same serializer |
| Ch15Web.WriteSerializedDataDoctest | CH15/ch15_ex01.py:435-439 | "json" yields the JSON bytes with MIME 'application/json' |
| Ch15Web.RoutingFallback | CH15/ch15_ex01.py:152-162 | 'demo' and 'static' reach their applications, every other first segment the welcome application |
| Ch15Web.ShiftPathInfoFirstSegment | CH15/ch15_ex01.py:159 | the routing key is the first path segment |
| Ch15Web.ShiftPathInfoNoSlash | CH15/ch15_ex01.py:159 | a non-empty path without a slash is rejected with IndexError |
| Ch15Web.RoutingExamples | CH15/ch15_ex01.py:152-162 | "/demo/…" reaches the demo app and "/anscombe/…" the welcome app |
| Ch15Web.AnscombeFilter | CH15/ch15_ex01.py:276-282 | the stored series for a known id, KeyError for an unknown one |
| Ch15Web.AnscombeAppSpec | CH15/ch15_ex01.py:447-489 | 200 OK exactly when the path matches, a form is given and the upper-cased id is known, with the serialized data and its MIME type; otherwise 404 with the HTML error page; Content-Length is always the body's length |
| Ch15Web.AnscombeAppIgnoresIdCase | CH15/ch15_ex01.py:450-454 | ids differing only in case give the same response |
| Ch16Memo.ChooseFactorials | CH16/ch16_ex01.py:44-48 | the binomial coefficient of Pascal's rule times m!·(n−m)! is n! |
| Ch16Memo.FactorialQuotient | CH16/ch16_ex01.py:47 | n! // (m!·(n−m)!) divides exactly and equals the binomial coefficient |
| Py.FloorDiv | CH16/ch16_ex01.py:47 | Python's // rounds toward negative infinity and raises ZeroDivisionError on 0 |
| Py.FloorMod | CH4/ch04_ex3.py:114 | Python's % is what // leaves over: a = (a // d)·d + a % d, with the remainder in [0, d) for d > 0 and in (d, 0] for d < 0, and ZeroDivisionError on 0 |
| Ch16Memo.ProductRange | CH16/ch16_ex01.py:31-42 | reducing `mul` over range(lo, hi + 1) gives the product of the integers lo..hi |
| Ch16Memo.Factorial | CH16/ch16_ex01.py:40-43 | the caches only grow; a computed factorial is stored under n; a failure leaves the object unchanged |
| Ch16Memo.FactorialSpec | CH16/ch16_ex01.py:31-43 | Binomial.factorial(n) is n! for n ≥ 1, and for n < 1 reduce over an empty range raises TypeError |
| Ch16Memo.Quotient | CH16/ch16_ex01.py:46-47 | computing the quotient grows the factorial cache only |
| Ch16Memo.QuotientSpec | CH16/ch16_ex01.py:46-47 | the quotient is the binomial coefficient for 1 ≤ m < n and TypeError otherwise, and the caches stay correct |
| Ch16Memo.Call | CH16/ch16_ex01.py:44-48 | the caches only grow, and a computed value is stored under (n, m) |
| Ch16Memo.CallSpec | CH16/ch16_ex01.py:44-48 | binomial(n, m) is the binomial coefficient for 1 ≤ m ≤ n−1, TypeError otherwise, and the caches stay correct |
| Ch16Memo.CallIsFactorialQuotient | CH16/ch16_ex01.py:44-48 | for 1 ≤ m < n the result is n! // (m!·(n−m)!), and that division is exact |
| Ch16Memo.CallRepeats | CH16/ch16_ex01.py:44-48 | a repeated call returns the same value and changes nothing |
| Ch16Memo.FactorialRepeats | CH16/ch16_ex01.py:40-43 | a repeated factorial returns the same value and changes nothing |
| Ch16Memo.RunCallsGrowSound | CH16/ch16_ex01.py:38-48 | over any series of calls the caches only grow and every entry stays correct |
| Ch16Memo.ChoosePokerHands | CH16/ch16_ex01.py:52-53 | C(52, 5) is 2,598,960 |
| Ch16Memo.FreshSound | CH16/ch16_ex01.py:37-39 | a new Binomial starts with two empty caches, which are trivially correct |
| Ch16Memo.FreshCall | CH16/ch16_ex01.py:52-53 | a fresh Binomial object computes the binomial coefficient or raises TypeError |
| Ch16Memo.BinomialPokerHands | CH16/ch16_ex01.py:52-53 | binomial(52, 5) on a fresh object is 2,598,960 |
| Ch16Memo.FactorialRec | CH16/ch16_ex01.py:68-72 | the recursion gives n! for n ≥ 0 and never reaches its base case for n < 0 |
| Ch16Memo.LruFactorialIsFact | CH16/ch16_ex01.py:275-278 | factorial(k) is 1 below 2 and the product 2..k otherwise, so k! for every k ≥ 0 |
| Ch16Memo.TallyCounts | CH16/ch16_ex01.py:114 | Counter holds exactly the keys seen, each with its number of occurrences |
| Ch16Memo.ReadDefectsDatasetCounts | CH16/ch16_ex01.py:100-114 | wrong field names fail the assertion; otherwise each (shift, defect_type) with a non-empty defect type is counted by its rows, and nothing else is counted |
| Ch16Memo.CalcDiffSign | CH16/ch16_ex01.py:244-245 | (e−o)²/e raises ZeroDivisionError exactly when e is 0; for e > 0 it is non-negative and zero exactly when o = e |
| Ch16Memo.GammaCompleteOfInt | CH16/ch16_ex01.py:328-330 | for an integer k the complete gamma is (k−1)!, and 1 for k < 1 |
| Ch16Memo.GammaRecurrence | CH16/ch16_ex01.py:328-330 | Γ(k+1) = k·Γ(k) for k ≥ 1 |

## Left out

- File, URL, gzip and glob input, KML parsing, `csv` readers and writers, `HTTPServer` and WSGI plumbing (`start_response`, `static_app`, error-page bodies): these are I/O. Rows and texts are given as values.
- Every top-level script statement, including `print` calls and the `random` module. Dice rolls, for instance, are an input sequence.
- CH12/ch12_ex02.py: process pools and executors, because it is concurrency.
- Floating point: `math.sqrt`, haversine distances, `calc_correlation`, `euclidean`, the Newton-Raphson square root of CH1/ch01_ex2.py, the π series of CH13 and CH14, `calc_systolic_bp`, `exp2`/`pow`, `math.log`, `round`, and the gamma/chi-squared numerics of CH16. Where the code divides, the model uses exact `real` arithmetic; where it takes `int(math.sqrt(x) + 0.5)`, the model uses an integer square root.
- Text-to-number parsing by `float()` and `Decimal()`: a parameter returning `Option`. `int()` is modelled concretely (sign, ASCII digits, surrounding whitespace), but without underscores or non-ASCII digits.
- Regular expressions of the access-log parser: what each line parses to is given, an `Access` record or None for a line the pattern rejects (the `map` version of `convert_to_access_tuples` at CH12/ch12_ex01.py:134-144, which replaces the generator version above it). `datetime.strptime` and `urlparse` are parameters. The `urlparse` parameter is total, so a malformed URL whose ValueError the handler at CH12/ch12_ex01.py:215 catches (dropping the record) is not modelled; only a time that fails to parse drops a record. `parse_agent`, `AgentDetails` and `remove_fields_3` are not modelled.
- `str.upper`/`str.lower` are ASCII-only in the model.
- `json`/`csv` quoting beyond integer pairs is not modelled. Neither are the XML and HTML serialisers, which are parameters, nor the HTML template text.
- The pymonad `Maybe`, `ListMonad`, `Compose` and `curry` machinery (CH14): currying is modelled natively. The same goes for `mysum`/`mymax`, which demonstrate a non-curryable reduce.
- `lru_cache`: its size limit and eviction are not modelled. The CH16 `lru_cache` factorial is a plain function, and the CH10 memo is an explicit, unbounded cache.
- CH1/ch01_ex1.py: the doctests of `sum_functional` (line 90) and `sum_hybrid_functional` (line 101) call them with no argument, which raises TypeError. The model computes the documented value, 23, from an argument (10 for `sum_functional`; `sum_hybrid_functional` ignores its argument).
- Ch01Sums.SumImperative, Ch01Sums.SumHybridOop and Ch01Sums.SumOop return the total that the Python functions print; the Python functions themselves return None (lines 22, 36 and 60), and printing is output.
- CH2/ch02_ex1.py: `year_cheese` max/min by key. These are plain library calls on data.
- CH4/ch04_ex1.py: the `invert_coordinates` doctest calls `lat_lon_kml`, which reads a KML file.
- CH4/ch04_ex2.py: `calc_correlation`, and the square root in `calc_stdev`. The variance part is modelled.
- CH6/ch06_ex02.py: the module-level `group` (lines 73-84) is not modelled, because the source marks it as not working: it counts the first item twice and raises on empty input. The `Counter.most_common` snippet (lines 44-45) is library code.
- CH7/ch07_ex01.py: `rank_data`, `rerank`, `ranker` and `yield_sequence` (lines 284-388), which do not run as written.
- CH8/ch08_ex02.py: `read_rows_csv_tab` (I/O) and `custom_filterfalse`, which passes the module's own `filter` a lambda that `tee` rejects with TypeError. Also `mean`, which returns count/sum; and `starmap`/`make_leg`, which need haversine. Random subsets are also not modelled.
- CH8/ch08_ex01.py: the float `NP/NS` passed to `range()` (lines 76-85), which raises TypeError.
- CH9/ch09_ex01.py: `euclidean` (square root) and the PIL image functions (`calc_pixels_from_coords`, `get_pixelcolor_pairs`, `group_pixel_by_color`, `putpixel`). Also `maskedColors`, which applies `&` to a `Color` tuple and raises TypeError, and `best`/`color_map`, which index a generator. The poker `combinations` count is not modelled here; it is proved for the CH16 binomial. The `Color` namedtuple declares four fields, but every use passes and reads a single `rgb` triple, so the model follows the uses.
- CH10/ch10_ex01.py: `Card1` (structural namedtuple equality), `comma_fix`/`clean_sum` (float parsing), `wrapped_groupby` (`itertools.groupby` internals), and `fibonacci` on negative numbers, which never reaches its base case and ends in RecursionError.
- Ch10HigherOrder.FibonacciLru, Ch10HigherOrder.FibonacciLruCorrect, Ch10HigherOrder.FibonacciLruExtends and Ch10HigherOrder.FibonacciLruHit: `n` is a natural number. On a negative n, `fibonacci_lru` (CH10/ch10_ex01.py:26-30) likewise never reaches its base case and ends in RecursionError.
- CH11/ch11_ex01.py: the `base=16` keyword variant of `clean_int`, and the line-30 decorator example, which raises TypeError.
- CH13/ch13_ex01.py: `yearCheese` min/max by key, and the `starmap`/`takewhile` π series (floats).
- CH15/ch15_ex01.py: `shift_path_info` follows the standard `wsgiref` behaviour, which is not part of this model's source files. Numbers in the JSON and CSV bodies are integers; float `repr` is not modelled.
- CH16/ch16_ex01.py: the gamma function for fractional arguments (`Fraction` halves, `SQRT_PI`), the incomplete gamma and chi-squared CDF, the chi-squared table and prints, and CSV parsing (defect rows are given). `Fraction` is compared by value, without gcd normalisation.
- Ch01Sums.SumFunctional: requires `number >= 0`; below zero `filter_list` never reaches its base case and ends in RecursionError.
- Ch01Sums.FilterList: requires `init <= end`, because for `init > end` the Python recursion never reaches its base case and ends in RecursionError.
- Ch06Recursion.Add: `a` is a natural number; for negative `a` the Python recursion never reaches its base case and ends in RecursionError.
- Ch06Recursion.Factorial: the argument is a natural number; `factorial` of a negative number never reaches its base case and ends in RecursionError.
- Ch06Recursion.Fibonacci: the argument is a natural number, for the same reason.
- Ch06Recursion.FastExponentiation: the exponent is a natural number; a negative exponent never reaches its base case and ends in RecursionError.
- Ch09Combinatorics.ColumnAsWritten: the interpreter's recursion limit is a `depth` parameter.
- Ch04Structure.CalcDigits: the interpreter's recursion limit is a `depth` parameter, and so it is for Ch04Structure.ConvertToBase.
- Ch03Factors.FactorsAgree: the interpreter's recursion limit (1,000 frames by default) is not modelled, so agreement is stated for every x ≥ 1. The docstrings limit `calc_factors_iterative` to numbers with about 1,000 factors (CH3/ch03_ex3.py:16) and `calc_factors_recursive` to numbers below about 4,000,000 (line 43); beyond that they raise RecursionError.
- The other recursive functions are stated without the recursion limit too, so a finite input deep enough to exhaust the stack is modelled by its mathematical result. This covers Ch01Sums.FilterList, Ch06Recursion.Add, Factorial, Fibonacci and MapRecursive, the recursive sums and products, and Ch16Memo.FactorialRec.

## Findings

| source | as written | input that shows it | evidently intended | confidence | as-written member | corrected member |
|---|---|---|---|---|---|---|
| CH6/ch06_ex01.py:31-36 (the same code is at CH16/ch16_ex01.py:77-82) | `factorial_tco` multiplies `range(2, number)`, which stops before `number`, so it returns (n−1)! | `factorial_tco(2)` is 1, not 2 | `range(2, number + 1)`, giving n! | high; not executed | Ch06Recursion.FactorialTco | Ch06Recursion.FactorialTcoIntended |
| CH5/ch05_ex2.py:221-226 | `isprime` scans an empty range for 1 and answers True | `isprime(1)` is True | 1 is not prime | high; not executed | Ch05Generators.IsPrimeFirstOfOne | Ch05Generators.IsPrimeFirstIntended |
| CH3/ch03_ex5.py:63-71 | `StaticMapping` sorts only its keys, then indexes the unsorted `_data` with the bisected position | pairs [(2, "b"), (1, "a")], key 1, gives "b" | index data sorted by key, giving "a" | high; not executed | Ch03StaticMapping.GetItemUnsortedQuirk | Ch03StaticMapping.GetItemSortedCorrect |
| CH4/ch04_ex1.py:79-86 | `create_pairs_recursive` calls `next()` inside a generator; at the end of a non-empty input the `StopIteration` becomes `RuntimeError` (PEP 479) | `list(create_pairs_recursive(iter([1, 2])))` yields (1, 2), then raises RuntimeError | end quietly after the last pair | medium (behaviour on Python 3.7 and later); not executed | Ch04Pairs.CreatePairsRecursiveAsWritten | Ch04Pairs.CreatePairsRecursiveIntendedIsLegs |
| CH4/ch04_ex3.py:79-84 | `group_by_v2` builds each row with `next()` in a generator expression, so running out of input raises `RuntimeError` instead of ending the rows | `list(group_by_v2(2, iter([1, 2])))` raises RuntimeError after (1, 2) | end quietly, keeping a short last row | medium (behaviour on Python 3.7 and later); not executed | Ch04Structure.GroupByV2AsWritten | Ch04Structure.GroupByV2IntendedIsChunks |
| CH5/ch05_ex2.py:183-206 | `groupby_iterative`, and `groupby_and_filter` built on it, share that `next()`-in-a-generator ending | any non-empty input with n > 0 | end quietly after the last row | medium (behaviour on Python 3.7 and later); not executed | Ch05Generators.GroupbyAndFilterAsWritten | Ch05Generators.GroupbyAndFilterIntended |
| CH9/ch09_ex01.py:273-288 | the demonstration lines after `column` are indented into its body, so iterating `column` calls `column` again without end | `list(column([[1, 2]], 0))` ends in RecursionError | `column` yields `row[x]` for each row | high; not executed | Ch09Combinatorics.ColumnAsWrittenRecursion | Ch09Combinatorics.ColumnSpec |
| CH10/ch10_ex01.py:54-83 | `Card` subclasses `tuple`, so `total_ordering` finds `<=`, `>` and `>=` already defined and adds nothing; those three and `!=` stay tuple comparisons of (rank, suit), and against a number `<=`, `>`, `>=` raise TypeError | `Card(2, '♥') <= Card(2, '♠')` is False while `==` between them is True and `<` is False | every comparison looks at the rank only, as the remark at line 85 says | high; not executed | Ch10HigherOrder.CardLeNotLtOrEq | Ch10HigherOrder.CardByRankIsRankOrder |
