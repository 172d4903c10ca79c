/**
 * Chapter 9: the combinatoric iterators.  `itertools.product` and the `join`
 * built on it, the Manhattan colour distance, masking RGB channels onto the
 * 3-bit grid that indexes the colour map, the assignment problem solved by
 * brute force over `itertools.permutations`, and the `column` generator.
 */
module Ch09Combinatorics {
  import opened Py
  import Ch03Factors

  // ---------------------------------------------------------------------------
  // product and join

  /** One row of a product: `x` paired with every element of `b`, in order. */
  function Row<A, B>(x: A, b: seq<B>): (r: seq<(A, B)>)
    ensures |r| == |b|
    ensures forall j :: 0 <= j < |b| ==> r[j] == (x, b[j])
  {
    Map((y: B) => (x, y), b)
  }

  /** `itertools.product(a, b)`: all pairs, the rightmost element advancing fastest. */
  function Cartesian<A, B>(a: seq<A>, b: seq<B>): seq<(A, B)>
  {
    if |a| == 0 then [] else Row(a[0], b) + Cartesian(a[1..], b)
  }

  lemma {:induction false} CartesianSnoc<A, B>(a: seq<A>, x: A, b: seq<B>)
    ensures Cartesian(a + [x], b) == Cartesian(a, b) + Row(x, b)
    decreases |a|
  {
    if |a| == 0 {
      assert (a + [x])[1..] == [];
    } else {
      assert (a + [x])[1..] == a[1..] + [x];
      CartesianSnoc(a[1..], x, b);
    }
  }

  lemma {:induction false} CartesianLength<A, B>(a: seq<A>, b: seq<B>)
    ensures |Cartesian(a, b)| == |a| * |b|
    decreases |a|
  {
    if |a| > 0 {
      CartesianLength(a[1..], b);
      assert |b| + (|a| - 1) * |b| == |a| * |b|;
    }
  }

  /** Where row `i` of a product starts, when each row has `m` pairs. */
  function RowStart(i: nat, m: nat): (k: nat)
    ensures k == i * m
  {
    if i == 0 then 0 else RowStart(i - 1, m) + m
  }

  /**
   * Row-major order: the pair `(a[i], b[j])` sits at position
   * `RowStart(i, |b|) + j`, that is `i * |b| + j`.
   */
  lemma {:induction false} CartesianAt<A, B>(a: seq<A>, b: seq<B>, i: nat, j: nat)
    requires i < |a| && j < |b|
    ensures RowStart(i, |b|) + j < |Cartesian(a, b)|
    ensures Cartesian(a, b)[RowStart(i, |b|) + j] == (a[i], b[j])
    decreases i
  {
    var rest := Cartesian(a[1..], b);
    assert Cartesian(a, b) == Row(a[0], b) + rest;
    if i > 0 {
      CartesianAt(a[1..], b, i - 1, j);
      assert a[i] == a[1..][i - 1];
      assert Cartesian(a, b)[RowStart(i, |b|) + j] == rest[RowStart(i - 1, |b|) + j];
    }
  }

  /** A pair is in the product exactly when its parts are in the two inputs. */
  lemma {:induction false} CartesianMembers<A, B>(a: seq<A>, b: seq<B>, p: (A, B))
    ensures p in Cartesian(a, b) <==> p.0 in a && p.1 in b
    decreases |a|
  {
    if |a| > 0 {
      CartesianMembers(a[1..], b, p);
      assert a == [a[0]] + a[1..];
      if p.0 == a[0] && p.1 in b {
        var j :| 0 <= j < |b| && b[j] == p.1;
        assert Row(a[0], b)[j] == p;
      }
    }
  }

  /** `list(product(range(1, 4), 'DHS'))`: the nine rank/suit pairs, row by row. */
  lemma CardProductExample()
    ensures Cartesian(Range(1, 4), "DHS") ==
      [(1, 'D'), (1, 'H'), (1, 'S'), (2, 'D'), (2, 'H'), (2, 'S'), (3, 'D'), (3, 'H'), (3, 'S')]
  {
    assert Range(1, 4) == [1, 2, 3];
    assert Row(1, "DHS") == [(1, 'D'), (1, 'H'), (1, 'S')];
    assert Row(2, "DHS") == [(2, 'D'), (2, 'H'), (2, 'S')];
    assert Row(3, "DHS") == [(3, 'D'), (3, 'H'), (3, 'S')];
    assert [1, 2, 3][1..] == [2, 3];
    assert [2, 3][1..] == [3];
  }

  /** The list holds the same nine pairs as the set written out beside it. */
  lemma CardProductIsSet()
    ensures (set p | p in Cartesian(Range(1, 4), "DHS")) ==
      {(1, 'D'), (1, 'S'), (1, 'H'), (2, 'D'), (2, 'S'), (2, 'H'), (3, 'D'), (3, 'S'), (3, 'H')}
  {
    CardProductExample();
  }

  /** `join(table1, table2, where)`: the pairs of the product that satisfy `where`. */
  function Join<A, B>(table1: seq<A>, table2: seq<B>, where: ((A, B)) -> bool): seq<(A, B)>
  {
    Filter(where, Cartesian(table1, table2))
  }

  /** The join holds exactly the pairs drawn from the two tables that satisfy `where`. */
  lemma JoinMembers<A, B>(table1: seq<A>, table2: seq<B>, where: ((A, B)) -> bool, p: (A, B))
    ensures p in Join(table1, table2, where) <==> p.0 in table1 && p.1 in table2 && where(p)
  {
    CartesianMembers(table1, table2, p);
    FilterSound(where, Cartesian(table1, table2));
    if p.0 in table1 && p.1 in table2 && where(p) {
      FilterKeeps(where, Cartesian(table1, table2), p);
    }
  }

  /**
   * The join as the nested loop it stands for: for each row of the first table,
   * for each row of the second, keep the pair if `where` holds.
   */
  method NestedLoopJoin<A, B>(table1: seq<A>, table2: seq<B>, where: ((A, B)) -> bool)
    returns (r: seq<(A, B)>)
    ensures r == Join(table1, table2, where)
  {
    r := [];
    for i := 0 to |table1|
      invariant r == Join(table1[..i], table2, where)
    {
      ghost var before := r;
      for j := 0 to |table2|
        invariant r == before + Filter(where, Row(table1[i], table2[..j]))
      {
        assert Row(table1[i], table2[..j + 1]) == Row(table1[i], table2[..j]) + [(table1[i], table2[j])];
        FilterAppend(where, Row(table1[i], table2[..j]), [(table1[i], table2[j])]);
        FilterSingle(where, (table1[i], table2[j]));
        if where((table1[i], table2[j])) {
          r := r + [(table1[i], table2[j])];
        }
      }
      assert table2[..|table2|] == table2;
      assert table1[..i + 1] == table1[..i] + [table1[i]];
      CartesianSnoc(table1[..i], table1[i], table2);
      FilterAppend(where, Cartesian(table1[..i], table2), Row(table1[i], table2));
    }
    assert table1[..|table1|] == table1;
  }

  // ---------------------------------------------------------------------------
  // Colour distances

  /**
   * A named colour.  The scripts read a colour's channels as one `rgb` tuple,
   * so that is how the model stores them.
   */
  datatype Color = Color(rgb: seq<int>, name: string)

  function AbsDiff(p: (int, int)): (r: int)
    ensures r >= 0
    ensures r == 0 <==> p.0 == p.1
  {
    if p.0 >= p.1 then p.0 - p.1 else p.1 - p.0
  }

  /** `manhattan(pixel, color)`: the sum of channel-wise absolute differences. */
  function Manhattan(pixel: seq<int>, color: Color): int
  {
    Sum(Map(AbsDiff, Zip(pixel, color.rgb)))
  }

  lemma {:induction false} SumNonNegative(s: seq<int>)
    requires forall i :: 0 <= i < |s| ==> s[i] >= 0
    ensures Sum(s) >= 0
    ensures Sum(s) == 0 <==> forall i :: 0 <= i < |s| ==> s[i] == 0
  {
    if |s| > 0 {
      SumNonNegative(s[..|s| - 1]);
      if Sum(s) == 0 {
        forall i | 0 <= i < |s|
          ensures s[i] == 0
        {
          if i < |s| - 1 {
            assert s[i] == s[..|s| - 1][i];
          }
        }
      }
    }
  }

  lemma {:induction false} SumPointwise(x: seq<int>, y: seq<int>, z: seq<int>)
    requires |x| == |y| == |z|
    requires forall i :: 0 <= i < |x| ==> x[i] <= y[i] + z[i]
    ensures Sum(x) <= Sum(y) + Sum(z)
  {
    if |x| > 0 {
      SumPointwise(x[..|x| - 1], y[..|y| - 1], z[..|z| - 1]);
    }
  }

  /** The distance is never negative, and is zero exactly on equal channels. */
  lemma ManhattanZero(pixel: seq<int>, color: Color)
    ensures Manhattan(pixel, color) >= 0
    ensures |pixel| == |color.rgb| ==> (Manhattan(pixel, color) == 0 <==> pixel == color.rgb)
  {
    var d := Map(AbsDiff, Zip(pixel, color.rgb));
    SumNonNegative(d);
    if |pixel| == |color.rgb| && Manhattan(pixel, color) == 0 {
      forall i | 0 <= i < |pixel|
        ensures pixel[i] == color.rgb[i]
      {
        assert d[i] == 0;
      }
    }
  }

  /** Swapping the pixel and the colour's channels leaves the distance unchanged. */
  lemma ManhattanSymmetric(p: seq<int>, q: seq<int>, name1: string, name2: string)
    ensures Manhattan(p, Color(q, name1)) == Manhattan(q, Color(p, name2))
  {
    assert Map(AbsDiff, Zip(p, q)) == Map(AbsDiff, Zip(q, p));
  }

  /** The triangle inequality over colours with the same number of channels. */
  lemma ManhattanTriangle(a: seq<int>, b: seq<int>, c: seq<int>)
    requires |a| == |b| == |c|
    ensures Manhattan(a, Color(c, "")) <= Manhattan(a, Color(b, "")) + Manhattan(b, Color(c, ""))
  {
    SumPointwise(Map(AbsDiff, Zip(a, c)), Map(AbsDiff, Zip(a, b)), Map(AbsDiff, Zip(b, c)));
  }

  /** The distance from one pixel to 'Almond'. */
  lemma ManhattanExample()
    ensures Manhattan([92, 139, 195], Color([239, 222, 205], "Almond")) == 240
  {
    assert Zip([92, 139, 195], [239, 222, 205]) == [(92, 239), (139, 222), (195, 205)];
    var d := Map(AbsDiff, Zip([92, 139, 195], [239, 222, 205]));
    assert d == [147, 83, 10];
    assert d[..2] == [147, 83];
    assert d[..2][..1] == [147];
    assert Sum([147]) == 147;
    assert Sum([147, 83]) == 230;
  }

  // ---------------------------------------------------------------------------
  // Masking channels onto the colour-map grid

  /** `range(0, 256, 0b100000)`: the eight values a 3-bit channel can take. */
  function Bit3(): (r: seq<int>)
    ensures r == [0, 32, 64, 96, 128, 160, 192, 224]
  {
    RangeStep(0, 256, 32)
  }

  /** `0b11100000 & c` on a channel value: keep the top three bits. */
  function Mask(c: int): (m: int)
    requires 0 <= c < 256
    ensures m == 32 * (c / 32)
  {
    MaskBits(c as bv8);
    ((c as bv8) & 0xE0) as int
  }

  lemma MaskBits(c: bv8)
    ensures (c & 0xE0) as int == 32 * ((c as int) / 32)
  {
  }

  /**
   * Masking rounds a channel down to a multiple of 32: the result lies on the
   * grid, within 32 below the channel, and masking twice changes nothing.
   */
  lemma MaskOntoGrid(c: int)
    requires 0 <= c < 256
    ensures Mask(c) in Bit3()
    ensures Mask(c) <= c < Mask(c) + 32
    ensures Mask(c) % 32 == 0
    ensures Mask(Mask(c)) == Mask(c)
  {
    var q := c / 32;
    assert 0 <= q < 8;
    assert Bit3()[q] == 32 * q;
  }

  /** `itertools.product(a, b, c)` as triples; over `bit3` three times, the keys of the colour map. */
  function Triples<A, B, C>(a: seq<A>, b: seq<B>, c: seq<C>): seq<(A, B, C)>
  {
    Map((p: ((A, B), C)) => (p.0.0, p.0.1, p.1), Cartesian(Cartesian(a, b), c))
  }

  lemma TriplesMembers<A, B, C>(a: seq<A>, b: seq<B>, c: seq<C>, t: (A, B, C))
    ensures t in Triples(a, b, c) <==> t.0 in a && t.1 in b && t.2 in c
  {
    var outer := Cartesian(Cartesian(a, b), c);
    CartesianMembers(Cartesian(a, b), c, ((t.0, t.1), t.2));
    CartesianMembers(a, b, (t.0, t.1));
    if t in Triples(a, b, c) {
      var k :| 0 <= k < |outer| && Triples(a, b, c)[k] == t;
      assert outer[k] == ((t.0, t.1), t.2);
    }
    if t.0 in a && t.1 in b && t.2 in c {
      var k :| 0 <= k < |outer| && outer[k] == ((t.0, t.1), t.2);
      assert Triples(a, b, c)[k] == t;
    }
  }

  /** `product(bit3, bit3, bit3)`: the keys of the colour map. */
  function Grid(): seq<(int, int, int)>
  {
    Triples(Bit3(), Bit3(), Bit3())
  }

  /**
   * The replacement lookup `color_map[(0b11100000&r, 0b11100000&g, 0b11100000&b)]`
   * always finds its key: every masked pixel is one of the grid's triples.
   */
  lemma MaskedPixelInGrid(r: int, g: int, b: int)
    requires 0 <= r < 256 && 0 <= g < 256 && 0 <= b < 256
    ensures (Mask(r), Mask(g), Mask(b)) in Grid()
  {
    MaskOntoGrid(r);
    MaskOntoGrid(g);
    MaskOntoGrid(b);
    TriplesMembers(Bit3(), Bit3(), Bit3(), (Mask(r), Mask(g), Mask(b)));
  }

  // ---------------------------------------------------------------------------
  // The assignment problem by permutations

  /** `s` with its `i`-th element removed. */
  function Without(s: seq<int>, i: nat): (r: seq<int>)
    requires i < |s|
    ensures |r| == |s| - 1
  {
    s[..i] + s[i + 1..]
  }

  /**
   * `itertools.permutations(s)`: for each position in turn, its element
   * followed by every permutation of the rest.
   */
  function Perms(s: seq<int>): seq<seq<int>>
    decreases |s|, |s| + 1
  {
    if |s| == 0 then [[]] else PermsFrom(s, 0)
  }

  /** The permutations of `s` that start with `s[i]`, `s[i + 1]`, and so on. */
  function PermsFrom(s: seq<int>, i: nat): seq<seq<int>>
    decreases |s|, |s| - i
  {
    if i >= |s| then []
    else Map((p: seq<int>) => [s[i]] + p, Perms(Without(s, i))) + PermsFrom(s, i + 1)
  }

  lemma WithoutMultiset(s: seq<int>, i: nat)
    requires i < |s|
    ensures multiset(s) == multiset{s[i]} + multiset(Without(s, i))
  {
    assert s == s[..i] + [s[i]] + s[i + 1..];
  }

  /** Every permutation produced rearranges `s`. */
  lemma {:induction false} PermsSound(s: seq<int>)
    ensures forall p :: p in Perms(s) ==> multiset(p) == multiset(s)
    decreases |s|, |s| + 1
  {
    if |s| > 0 {
      PermsFromSound(s, 0);
    }
  }

  lemma {:induction false} PermsFromSound(s: seq<int>, i: nat)
    ensures forall p :: p in PermsFrom(s, i) ==> multiset(p) == multiset(s)
    decreases |s|, |s| - i
  {
    if i < |s| {
      PermsSound(Without(s, i));
      PermsFromSound(s, i + 1);
      WithoutMultiset(s, i);
      var block := Map((p: seq<int>) => [s[i]] + p, Perms(Without(s, i)));
      forall p | p in block
        ensures multiset(p) == multiset(s)
      {
        var k :| 0 <= k < |block| && block[k] == p;
        var q := Perms(Without(s, i))[k];
        assert q in Perms(Without(s, i));
        assert p == [s[i]] + q;
        assert multiset(p) == multiset{s[i]} + multiset(q);
      }
    }
  }

  lemma {:induction false} PermsFromContains(s: seq<int>, j: nat, i: nat, q: seq<int>)
    requires j <= i < |s| && q in Perms(Without(s, i))
    ensures [s[i]] + q in PermsFrom(s, j)
    decreases i - j
  {
    var block := Map((p: seq<int>) => [s[j]] + p, Perms(Without(s, j)));
    if j == i {
      var k :| 0 <= k < |Perms(Without(s, i))| && Perms(Without(s, i))[k] == q;
      assert block[k] == [s[i]] + q;
    } else {
      PermsFromContains(s, j + 1, i, q);
    }
  }

  /** Every rearrangement of `s` is produced. */
  lemma {:induction false} PermsComplete(s: seq<int>, p: seq<int>)
    requires multiset(p) == multiset(s)
    ensures p in Perms(s)
    decreases |s|
  {
    assert |p| == |multiset(p)| == |s|;
    if |s| > 0 {
      assert p[0] in multiset(s);
      var i :| 0 <= i < |s| && s[i] == p[0];
      WithoutMultiset(s, i);
      assert p == [p[0]] + p[1..];
      assert multiset(p) == multiset{p[0]} + multiset(p[1..]);
      assert multiset{p[0]} + multiset(p[1..]) == multiset{p[0]} + multiset(Without(s, i));
      forall y
        ensures multiset(p[1..])[y] == multiset(Without(s, i))[y]
      {
        assert (multiset{p[0]} + multiset(p[1..]))[y] == (multiset{p[0]} + multiset(Without(s, i)))[y];
      }
      PermsComplete(Without(s, i), p[1..]);
      PermsFromContains(s, 0, i, p[1..]);
    }
  }

  /** `perm` rearranges `range(n)`: it holds each of `0 .. n - 1` exactly once. */
  predicate IsPermOf(perm: seq<int>, n: nat)
  {
    |perm| == n && (forall y :: 0 <= y < n ==> 0 <= perm[y] < n) &&
    multiset(perm) == multiset(Range(0, n))
  }

  /** An `n` by `n` cost matrix, agents by rows and tasks by columns. */
  predicate Square(cost: seq<seq<int>>, n: nat)
  {
    |cost| == n && forall x :: 0 <= x < n ==> |cost[x]| == n
  }

  /** A rearrangement of `range(n)` has length `n` and entries in `range(n)`. */
  lemma RangeMultisetEntries(perm: seq<int>, n: nat)
    requires multiset(perm) == multiset(Range(0, n))
    ensures IsPermOf(perm, n)
  {
    assert |perm| == |multiset(perm)| == |Range(0, n)|;
    forall y | 0 <= y < |perm|
      ensures 0 <= perm[y] < n
    {
      assert perm[y] in multiset(Range(0, n));
    }
  }

  lemma PermsOfRangeValid(n: nat)
    ensures forall p :: p in Perms(Range(0, n)) ==> IsPermOf(p, n)
  {
    PermsSound(Range(0, n));
    forall p | p in Perms(Range(0, n))
      ensures IsPermOf(p, n)
    {
      RangeMultisetEntries(p, n);
    }
  }

  /**
   * `sum(cost[x][y] for y, x in enumerate(perm))`: the cost of giving task `y`
   * to agent `perm[y]`.
   */
  function AssignCost(cost: seq<seq<int>>, perm: seq<int>): int
    requires forall y :: 0 <= y < |perm| ==> 0 <= perm[y] < |cost| && y < |cost[perm[y]]|
  {
    Sum(seq(|perm|, y requires 0 <= y < |perm| => cost[perm[y]][y]))
  }

  /** The permutations of `range(n)`, each of which indexes an `n` by `n` matrix. */
  function PermsOfRange(n: nat): (ps: seq<seq<int>>)
    ensures |ps| > 0
    ensures forall k :: 0 <= k < |ps| ==> IsPermOf(ps[k], n)
  {
    PermsOfRangeValid(n);
    PermsComplete(Range(0, n), Range(0, n));
    Perms(Range(0, n))
  }

  /**
   * `min(alt)[0]`: the least total cost over every permutation.  Tuples compare
   * on their first item first, so the `[0]` of the least tuple is the least sum.
   */
  function MinAssignment(cost: seq<seq<int>>, n: nat): int
    requires Square(cost, n)
  {
    var ps := PermsOfRange(n);
    var costs := seq(|ps|, k requires 0 <= k < |ps| => AssignCost(cost, ps[k]));
    Ch03Factors.MinOf(costs)
  }

  /**
   * The brute-force answer is optimal: no assignment of the `n` tasks to the
   * `n` agents costs less, and some assignment costs exactly that.
   */
  lemma MinAssignmentOptimal(cost: seq<seq<int>>, n: nat)
    requires Square(cost, n)
    ensures forall perm :: IsPermOf(perm, n) ==> MinAssignment(cost, n) <= AssignCost(cost, perm)
    ensures exists perm :: IsPermOf(perm, n) && MinAssignment(cost, n) == AssignCost(cost, perm)
  {
    var ps := PermsOfRange(n);
    var costs := seq(|ps|, k requires 0 <= k < |ps| => AssignCost(cost, ps[k]));
    Ch03Factors.MaxMinBounds(costs);
    forall perm | IsPermOf(perm, n)
      ensures MinAssignment(cost, n) <= AssignCost(cost, perm)
    {
      PermsComplete(Range(0, n), perm);
      var k :| 0 <= k < |ps| && ps[k] == perm;
      assert costs[k] == AssignCost(cost, perm);
    }
    var k :| 0 <= k < |costs| && costs[k] == MinAssignment(cost, n);
    assert IsPermOf(ps[k], n);
  }

  // ---------------------------------------------------------------------------
  // column

  /** `for row in source: yield row[x]`, stopping at the first row too short for `x`. */
  function ColumnRows<T>(source: seq<seq<T>>, x: int): Run<T>
  {
    if |source| == 0 then Run([], None)
    else match PyIndex(source[0], x)
      case Raised(e) => Run([], Some(e))
      case Ok(v) =>
        var rest := ColumnRows(source[1..], x);
        Run([v] + rest.yielded, rest.raised)
  }

  /**
   * `list(column(source, x))`: the items `row[x]` of every row, in order, or
   * IndexError when some row is too short for `x`.
   */
  lemma {:induction false} ColumnSpec<T>(source: seq<seq<T>>, x: int)
    ensures ListOf(ColumnRows(source, x)).Ok? <==>
      forall i :: 0 <= i < |source| ==> PyIndex(source[i], x).Ok?
    ensures ListOf(ColumnRows(source, x)).Ok? ==>
      |ListOf(ColumnRows(source, x)).value| == |source| &&
      forall i :: 0 <= i < |source| ==> ListOf(ColumnRows(source, x)).value[i] == PyIndex(source[i], x).value
    ensures ListOf(ColumnRows(source, x)).Raised? ==> ListOf(ColumnRows(source, x)).exc == IndexError
  {
    if |source| > 0 {
      ColumnSpec(source[1..], x);
      assert forall i :: 1 <= i < |source| ==> source[i] == source[1..][i - 1];
    }
  }

  /**
   * `column` as its indentation has it: after the rows, the generator goes on
   * into the correlation loop, whose first step is `list(column(source, 0))` —
   * a fresh copy of the same generator.  `depth` stands for the interpreter's
   * remaining recursion budget.  Either some row has no item 0 and the inner
   * copy raises IndexError, or the copies nest until RecursionError.
   */
  function ColumnAsWritten<T>(source: seq<seq<T>>, x: int, depth: nat): (r: Run<T>)
    ensures r.raised.Some?
    decreases depth
  {
    var rows := ColumnRows(source, x);
    if rows.raised.Some? then rows
    else if depth == 0 then Run(rows.yielded, Some(RecursionError))
    else
      var inner := ColumnAsWritten(source, 0, depth - 1);
      if inner.raised.Some? then Run(rows.yielded, inner.raised)
      else assert false; rows
  }

  /**
   * `list()` over the generator as written never returns: when every row has
   * both item `x` and item 0, it ends in RecursionError at any depth.
   */
  lemma {:induction false} ColumnAsWrittenRecursion<T>(source: seq<seq<T>>, x: int, depth: nat)
    requires ListOf(ColumnRows(source, x)).Ok? && ListOf(ColumnRows(source, 0)).Ok?
    ensures ListOf(ColumnAsWritten(source, x, depth)) == Raised(RecursionError)
    decreases depth
  {
    if depth > 0 {
      ColumnAsWrittenRecursion(source, 0, depth - 1);
    }
  }

  /** A one-row table: the intended column is `[1]`; the generator as written fails. */
  lemma ColumnAsWrittenExample(depth: nat)
    ensures ListOf(ColumnRows([[1, 2]], 0)) == Ok([1])
    ensures ListOf(ColumnAsWritten([[1, 2]], 0, depth)) == Raised(RecursionError)
  {
    assert [[1, 2]][1..] == [];
    assert PyIndex([1, 2], 0) == Ok(1);
    assert ColumnRows<int>([], 0) == Run([], None);
    assert ColumnRows([[1, 2]], 0) == Run([1], None);
    ColumnAsWrittenRecursion([[1, 2]], 0, depth);
  }
}
