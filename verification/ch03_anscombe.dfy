/**
 * Chapter 3: cleaning Anscombe's quartet.  The tab-separated text is read
 * into rows of cells, the three heading rows are checked and dropped, and
 * one of the four (x, y) samples is picked out of every data row.
 */
module Ch03Anscombe {
  import opened Py

  /** One tab-separated line as the csv reader returns it; an empty line is an empty row. */
  function ReadRow(line: string): seq<string>
  {
    if line == "" then [] else Split(line, '\t')
  }

  /** `read_rows`: the rows of a tab-separated text. */
  function ReadRows(text: string): (rows: seq<seq<string>>)
    ensures |rows| == |Lines(text)|
  {
    Map(ReadRow, Lines(text))
  }

  /** A row as it is written: its cells joined by tabs. */
  function WriteRow(row: seq<string>): string
  {
    Join(row, "\t")
  }

  /** A table as it is written: one line per row, each ended by a newline. */
  function WriteRows(rows: seq<seq<string>>): string
  {
    if |rows| == 0 then "" else Join(Map(WriteRow, rows), "\n") + "\n"
  }

  /** A row the tab-separated format can carry: no tab or newline in a cell, and not a single empty cell. */
  predicate Writable(row: seq<string>)
  {
    |row| >= 1 && row != [""]
    && forall i :: 0 <= i < |row| ==> '\t' !in row[i] && '\n' !in row[i]
  }

  lemma {:induction false} JoinFree(parts: seq<string>, sep: string, c: char)
    requires c !in sep
    requires forall i :: 0 <= i < |parts| ==> c !in parts[i]
    ensures c !in Join(parts, sep)
    decreases |parts|
  {
    if |parts| > 1 {
      JoinFree(parts[1..], sep, c);
    }
  }

  lemma {:induction false} JoinSnocEmpty(parts: seq<string>, sep: string)
    requires |parts| >= 1
    ensures Join(parts + [""], sep) == Join(parts, sep) + sep
    decreases |parts|
  {
    if |parts| > 1 {
      JoinSnocEmpty(parts[1..], sep);
      assert (parts + [""])[1..] == parts[1..] + [""];
    } else {
      assert (parts + [""])[1..] == [""];
    }
  }

  lemma ReadWriteRow(row: seq<string>)
    requires Writable(row)
    ensures '\n' !in WriteRow(row)
    ensures ReadRow(WriteRow(row)) == row
  {
    JoinFree(row, "\t", '\n');
    if |row| == 1 {
      assert WriteRow(row) == row[0];
    } else {
      assert WriteRow(row) == row[0] + "\t" + Join(row[1..], "\t");
      assert WriteRow(row)[|row[0]|] == '\t';
    }
    SplitJoin(row, '\t');
  }

  /** Reading back what was written gives the rows again. */
  lemma ReadRowsWriteRows(rows: seq<seq<string>>)
    requires forall i :: 0 <= i < |rows| ==> Writable(rows[i])
    ensures ReadRows(WriteRows(rows)) == rows
  {
    if |rows| > 0 {
      var lines := Map(WriteRow, rows);
      forall i | 0 <= i < |rows|
        ensures '\n' !in lines[i] && ReadRow(lines[i]) == rows[i]
      {
        ReadWriteRow(rows[i]);
      }
      var text := WriteRows(rows);
      JoinSnocEmpty(lines, "\n");
      assert text == Join(lines + [""], "\n");
      SplitJoin(lines + [""], '\n');
      assert text[|text| - 1] == '\n';
      assert Lines(text) == (lines + [""])[..|lines|] == lines;
    }
  }

  /** The `read_rows` doctest. */
  lemma ReadRowsDoctest()
    ensures ReadRows("1\t2\t3\n4\t5\t6\n") == [["1", "2", "3"], ["4", "5", "6"]]
  {
    var rows := [["1", "2", "3"], ["4", "5", "6"]];
    assert WriteRow(rows[0]) == "1\t2\t3";
    assert WriteRow(rows[1]) == "4\t5\t6";
    assert Map(WriteRow, rows) == ["1\t2\t3", "4\t5\t6"];
    assert Join(["1\t2\t3", "4\t5\t6"], "\n") == "1\t2\t3" + "\n" + Join(["4\t5\t6"], "\n");
    assert WriteRows(rows) == "1\t2\t3\n4\t5\t6\n";
    ReadRowsWriteRows(rows);
  }

  const Title: seq<string> := ["Anscombe's quartet"]
  const Heading: seq<string> := ["I", "II", "III", "IV"]
  const Columns: seq<string> := ["x", "y", "x", "y", "x", "y", "x", "y"]

  /**
   * `remove_headings`: takes the title, the series heading and the column
   * heading off the front, asserting each; running out of rows first is the
   * `StopIteration` of `next`.
   */
  function RemoveHeadings(rows: seq<seq<string>>): (r: Outcome<seq<seq<string>>>)
    ensures r.Ok? <==> |rows| >= 3 && rows[0] == Title && rows[1] == Heading && rows[2] == Columns
    ensures r.Ok? ==> r.value == rows[3..]
    ensures r == Raised(StopIteration) <==>
      |rows| == 0 || (|rows| == 1 && rows[0] == Title) || (|rows| == 2 && rows[0] == Title && rows[1] == Heading)
    ensures r.Raised? ==> r.exc in {StopIteration, AssertionError}
  {
    if |rows| == 0 then Raised(StopIteration)
    else if !(|rows[0]| == 1 && rows[0][0] == "Anscombe's quartet") then Raised(AssertionError)
    else if |rows| == 1 then Raised(StopIteration)
    else if !(|rows[1]| == 4 && rows[1] == Heading) then Raised(AssertionError)
    else if |rows| == 2 then Raised(StopIteration)
    else if !(|rows[2]| == 8 && rows[2] == Columns) then Raised(AssertionError)
    else Ok(rows[3..])
  }

  /** Putting the three headings in front of any data and removing them gives the data back. */
  lemma RemoveHeadingsInverse(data: seq<seq<string>>)
    ensures RemoveHeadings([Title, Heading, Columns] + data) == Ok(data)
  {
    assert ([Title, Heading, Columns] + data)[3..] == data;
  }

  /** The `remove_headings` doctest. */
  lemma RemoveHeadingsDoctest()
    ensures RemoveHeadings([Title, Heading, Columns, ["1", "2", "3", "4", "5", "6", "7", "8"]])
         == Ok([["1", "2", "3", "4", "5", "6", "7", "8"]])
  {
    RemoveHeadingsInverse([["1", "2", "3", "4", "5", "6", "7", "8"]]);
    assert [Title, Heading, Columns, ["1", "2", "3", "4", "5", "6", "7", "8"]]
        == [Title, Heading, Columns] + [["1", "2", "3", "4", "5", "6", "7", "8"]];
  }

  /** The `Pair` named tuple. */
  datatype Pair<T> = Pair(x: T, y: T)

  /** Python's `row[i]` is defined: i counts from the front or, when negative, from the back. */
  predicate Indexable(n: int, i: int)
  {
    -n <= i < n
  }

  /** The pair of sample n in one row. */
  function PairOf<T>(n: int, row: seq<T>): (r: Outcome<Pair<T>>)
    ensures r.Ok? <==> Indexable(|row|, 2 * n) && Indexable(|row|, 2 * n + 1)
    ensures r.Raised? ==> r.exc == IndexError
    ensures r.Ok? && n >= 0 ==> r.value == Pair(row[2 * n], row[2 * n + 1])
  {
    var x :- PyIndex(row, n * 2);
    var y :- PyIndex(row, n * 2 + 1);
    Ok(Pair(x, y))
  }

  /**
   * `list(create_pairs(n, rows))`: sample n of every row; the first row too
   * short for it raises `IndexError`.
   */
  function CreatePairs<T>(n: int, rows: seq<seq<T>>): (r: Outcome<seq<Pair<T>>>)
    ensures r.Ok? <==> forall i :: 0 <= i < |rows| ==> PairOf(n, rows[i]).Ok?
    ensures r.Raised? ==> r.exc == IndexError
    ensures r.Ok? ==> |r.value| == |rows|
    ensures r.Ok? ==> forall i :: 0 <= i < |rows| ==> r.value[i] == PairOf(n, rows[i]).value
  {
    if |rows| == 0 then Ok([])
    else
      var p :- PairOf(n, rows[0]);
      var rest :- CreatePairs(n, rows[1..]);
      assert forall i :: 1 <= i < |rows| ==> rows[i] == rows[1..][i - 1];
      Ok([p] + rest)
  }

  /** In rows of eight values the four samples take every column exactly once: x of sample k is column 2k, y is column 2k + 1. */
  lemma SamplesCoverColumns<T>(rows: seq<seq<T>>)
    requires forall i :: 0 <= i < |rows| ==> |rows[i]| == 8
    ensures forall n :: 0 <= n < 4 ==> CreatePairs(n, rows).Ok?
    ensures forall n, i, k :: 0 <= n < 4 && 0 <= i < |rows| && 0 <= k < 8 && k / 2 == n ==>
      rows[i][k] == if k % 2 == 0 then CreatePairs(n, rows).value[i].x else CreatePairs(n, rows).value[i].y
  {
  }

  /** The `create_pairs` doctests. */
  lemma CreatePairsDoctest()
    ensures CreatePairs(0, [[1, 2, 3, 4, 5, 6, 7, 8], [9, 10, 11, 12, 13, 14, 15, 16]])
         == Ok([Pair(1, 2), Pair(9, 10)])
    ensures CreatePairs(1, [[1, 2, 3, 4, 5, 6, 7, 8], [9, 10, 11, 12, 13, 14, 15, 16]])
         == Ok([Pair(3, 4), Pair(11, 12)])
  {
    var rows := [[1, 2, 3, 4, 5, 6, 7, 8], [9, 10, 11, 12, 13, 14, 15, 16]];
    SamplesCoverColumns(rows);
    var p0 := CreatePairs(0, rows).value;
    var p1 := CreatePairs(1, rows).value;
    assert p0[0] == Pair(1, 2) && p0[1] == Pair(9, 10);
    assert p1[0] == Pair(3, 4) && p1[1] == Pair(11, 12);
    assert p0 == [Pair(1, 2), Pair(9, 10)];
    assert p1 == [Pair(3, 4), Pair(11, 12)];
  }

  /** A negative sample number counts from the end of each row, as Python's negative indexing does. */
  lemma NegativeSampleCountsFromEnd()
    ensures CreatePairs(-1, [[1, 2, 3, 4, 5, 6, 7, 8]]) == Ok([Pair(7, 8)])
    ensures CreatePairs(4, [[1, 2, 3, 4, 5, 6, 7, 8]]) == Raised(IndexError)
  {
    var rows := [[1, 2, 3, 4, 5, 6, 7, 8]];
    assert PairOf(-1, rows[0]) == Ok(Pair(7, 8));
    var r := CreatePairs(-1, rows);
    assert r.Ok? && |r.value| == 1 && r.value[0] == Pair(7, 8);
    assert r.value == [Pair(7, 8)];
    assert PairOf(4, rows[0]).Raised?;
  }
}
