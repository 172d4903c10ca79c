/**
 * Chapter 6, third example set: two-tier parsers.  Tab-separated rows are
 * converted to optional floats and rows that are not eight non-zero numbers
 * are dropped; a GIMP palette file is split into its four-line header and
 * the whitespace-separated rows of its body, which become colours.
 *
 * A file is given as its lines, without their newline characters.  Text to
 * float conversion is a parameter: `parse(item)` is None exactly where
 * `float(item)` raises ValueError.
 */
module Ch06Parsing {
  import opened Py
  import opened Ch03StaticMapping

  // ---------------------------------------------------------------------------
  // Rows of numbers

  /** `convert_to_float(item)`: the value, with the ValueError of a bad text turned into None. */
  function ConvertToFloat(parse: string -> Option<real>, item: string): Option<real>
  {
    parse(item)
  }

  /** `convert_to_floats(rows)`: every item of every row converted, the rows keeping their shape. */
  function ConvertToFloats(parse: string -> Option<real>, rows: seq<seq<string>>): (r: seq<seq<Option<real>>>)
    ensures |r| == |rows|
    ensures forall i :: 0 <= i < |rows| ==> |r[i]| == |rows[i]|
    ensures forall i, j :: 0 <= i < |rows| && 0 <= j < |rows[i]| ==> r[i][j] == ConvertToFloat(parse, rows[i][j])
  {
    seq(|rows|, i requires 0 <= i < |rows| => Map((item: string) => ConvertToFloat(parse, item), rows[i]))
  }

  /** Python truthiness of an optional float: None and 0.0 are false. */
  predicate Truthy(x: Option<real>)
  {
    x.Some? && x.value != 0.0
  }

  /** `is_row_numeric(row)`: `all(row) and len(row) == 8`. */
  predicate IsRowNumeric(row: seq<Option<real>>)
  {
    All(Truthy, row) && |row| == 8
  }

  /** A row is numeric exactly when it has eight values, none missing and none zero. */
  lemma IsRowNumericSpec(row: seq<Option<real>>)
    ensures IsRowNumeric(row) <==>
      |row| == 8 && forall i :: 0 <= i < |row| ==> row[i] != None && row[i] != Some(0.0)
  {
    if |row| == 8 && forall i :: 0 <= i < |row| ==> row[i] != None && row[i] != Some(0.0) {
      forall i | 0 <= i < |row|
        ensures Truthy(row[i])
      {
        assert row[i] != None && row[i] != Some(0.0);
      }
    }
  }

  /** A zero among eight numbers rejects the row, as a missing value does. */
  lemma ZeroRejectsRow(x: real)
    ensures !IsRowNumeric([Some(0.0), Some(x), Some(x), Some(x), Some(x), Some(x), Some(x), Some(x)])
    ensures !IsRowNumeric([None, Some(x), Some(x), Some(x), Some(x), Some(x), Some(x), Some(x)])
    ensures x != 0.0 ==> IsRowNumeric([Some(x), Some(x), Some(x), Some(x), Some(x), Some(x), Some(x), Some(x)])
  {
    var zero := [Some(0.0), Some(x), Some(x), Some(x), Some(x), Some(x), Some(x), Some(x)];
    assert !Truthy(zero[0]);
    var missing := [None, Some(x), Some(x), Some(x), Some(x), Some(x), Some(x), Some(x)];
    assert !Truthy(missing[0]);
    var full := [Some(x), Some(x), Some(x), Some(x), Some(x), Some(x), Some(x), Some(x)];
    assert forall i :: 0 <= i < |full| ==> full[i] == Some(x);
  }

  /** `filter_headings(rows)`: only the numeric rows, in their order. */
  function FilterHeadings(rows: seq<seq<Option<real>>>): seq<seq<Option<real>>>
  {
    Filter(IsRowNumeric, rows)
  }

  /** Every kept row is numeric, and every numeric row is kept. */
  lemma FilterHeadingsSpec(rows: seq<seq<Option<real>>>)
    ensures forall i :: 0 <= i < |FilterHeadings(rows)| ==> IsRowNumeric(FilterHeadings(rows)[i])
    ensures forall row :: row in rows && IsRowNumeric(row) ==> row in FilterHeadings(rows)
  {
    FilterSound(IsRowNumeric, rows);
    forall row | row in rows && IsRowNumeric(row)
      ensures row in FilterHeadings(rows)
    {
      FilterKeeps(IsRowNumeric, rows, row);
    }
  }

  /** Filtering twice keeps the same rows as filtering once. */
  lemma {:induction false} FilterHeadingsIdempotent(rows: seq<seq<Option<real>>>)
    ensures FilterHeadings(FilterHeadings(rows)) == FilterHeadings(rows)
  {
    if |rows| > 0 {
      FilterHeadingsIdempotent(rows[1..]);
      if IsRowNumeric(rows[0]) {
        var kept := FilterHeadings(rows);
        assert kept[0] == rows[0] && kept[1..] == FilterHeadings(rows[1..]);
      }
    }
  }

  // ---------------------------------------------------------------------------
  // The GIMP palette header

  const Title: string := "GIMP Palette"
  const NamePrefix: string := "Name:"
  const ColumnsPrefix: string := "Columns:"
  const Separator: string := "#"

  /**
   * One header line of the pattern `Prefix:\s*(.*?)\n`: the line must start
   * with the prefix; the group is the rest after its leading whitespace.
   */
  function HeaderField(line: string, prefix: string): Option<string>
  {
    if |prefix| <= |line| && line[..|prefix|] == prefix then Some(StripLeft(line[|prefix|..])) else None
  }

  /**
   * `read_head`: the first four lines must be "GIMP Palette", "Name: X",
   * "Columns: Y" and "#"; the result is (X, Y) and the lines after them.  When
   * they do not match, `match` is None and `match.group` raises
   * AttributeError; a file of fewer than four lines cannot match.
   */
  function ReadHead(lines: seq<string>): Outcome<((string, string), seq<string>)>
  {
    if |lines| < 4 then Raised(AttributeError)
    else
      var name := HeaderField(lines[1], NamePrefix);
      var columns := HeaderField(lines[2], ColumnsPrefix);
      if lines[0] == Title && name.Some? && columns.Some? && lines[3] == Separator then
        Ok(((name.value, columns.value), lines[4..]))
      else Raised(AttributeError)
  }

  /** `read_tail`: the headers, and each remaining line split on whitespace. */
  function ReadTail(headers: (string, string), rest: seq<string>): ((string, string), seq<seq<string>>)
  {
    (headers, Map(Words, rest))
  }

  /** `read_rows_gpl`: the header, then the body. */
  function ReadRowsGpl(lines: seq<string>): Outcome<((string, string), seq<seq<string>>)>
  {
    var (headers, rest) :- ReadHead(lines);
    Ok(ReadTail(headers, rest))
  }

  /** The header line of a field: the prefix, one space, the value. */
  function WriteField(prefix: string, value: string): string
  {
    prefix + " " + value
  }

  /** The four header lines of a palette with this name and column count. */
  function WriteHead(name: string, columns: string): seq<string>
  {
    [Title, WriteField(NamePrefix, name), WriteField(ColumnsPrefix, columns), Separator]
  }

  /** Text that does not start with whitespace survives `\s*` unchanged. */
  predicate NoLeadingSpace(s: string)
  {
    |s| == 0 || !IsSpace(s[0])
  }

  /** A written field reads back as its value. */
  lemma HeaderFieldOf(prefix: string, value: string)
    requires NoLeadingSpace(value)
    ensures HeaderField(WriteField(prefix, value), prefix) == Some(value)
  {
    var line := WriteField(prefix, value);
    assert line[..|prefix|] == prefix;
    assert line[|prefix|..] == " " + value;
    assert (" " + value)[1..] == value;
    assert StripLeft(value) == value;
    assert IsSpace((" " + value)[0]);
  }

  /** Reading a written header gives back the name, the column count and the body lines. */
  lemma ReadHeadWriteHead(name: string, columns: string, body: seq<string>)
    requires NoLeadingSpace(name) && NoLeadingSpace(columns)
    ensures ReadHead(WriteHead(name, columns) + body) == Ok(((name, columns), body))
  {
    var lines := WriteHead(name, columns) + body;
    WriteHeadLines(name, columns, body);
    HeaderFieldOf(NamePrefix, name);
    HeaderFieldOf(ColumnsPrefix, columns);
    ReadHeadOf(lines, name, columns);
  }

  lemma WriteHeadLines(name: string, columns: string, body: seq<string>)
    ensures |WriteHead(name, columns) + body| >= 4
    ensures (WriteHead(name, columns) + body)[0] == Title && (WriteHead(name, columns) + body)[3] == Separator
    ensures (WriteHead(name, columns) + body)[1] == WriteField(NamePrefix, name)
    ensures (WriteHead(name, columns) + body)[2] == WriteField(ColumnsPrefix, columns)
    ensures (WriteHead(name, columns) + body)[4..] == body
  {
  }

  lemma ReadHeadOf(lines: seq<string>, name: string, columns: string)
    requires |lines| >= 4 && lines[0] == Title && lines[3] == Separator
    requires HeaderField(lines[1], NamePrefix) == Some(name)
    requires HeaderField(lines[2], ColumnsPrefix) == Some(columns)
    ensures ReadHead(lines) == Ok(((name, columns), lines[4..]))
  {
  }

  /** A first line other than "GIMP Palette" is an AttributeError. */
  lemma ReadHeadNeedsTitle(lines: seq<string>)
    requires |lines| > 0 && lines[0] != Title
    ensures ReadHead(lines) == Raised(AttributeError)
  {
  }

  // ---------------------------------------------------------------------------
  // Colours

  /**
   * One row `r, g, b, *name`: three integers and the remaining words joined
   * by one space.  Fewer than three values, or a value that is not an
   * integer, raises ValueError.  `toInt` is `int()` on text, None where it
   * raises ValueError; `Py.ParseInt` is its model on plain decimal text.
   */
  function ColorOfRow(toInt: string -> Option<int>, row: seq<string>): Outcome<Color>
  {
    if |row| < 3 then Raised(ValueError)
    else
      match (toInt(row[0]), toInt(row[1]), toInt(row[2]))
      case (Some(r), Some(g), Some(b)) => Ok(Color(r, g, b, Join(row[3..], " ")))
      case _ => Raised(ValueError)
  }

  /** `tuple(Color(...) for ... in iterable)`: the first bad row ends it with its error. */
  function ColorsOf(toInt: string -> Option<int>, rows: seq<seq<string>>): Outcome<seq<Color>>
  {
    if |rows| == 0 then Ok([])
    else
      var c :- ColorOfRow(toInt, rows[0]);
      var rest :- ColorsOf(toInt, rows[1..]);
      Ok([c] + rest)
  }

  /** `get_color_palette(headers, iterable)`: the name, the column count and the colours. */
  function GetColorPalette(toInt: string -> Option<int>, headers: (string, string), rows: seq<seq<string>>)
    : Outcome<(string, string, seq<Color>)>
  {
    var colors :- ColorsOf(toInt, rows);
    Ok((headers.0, headers.1, colors))
  }

  /** The conversion fails, with ValueError, exactly when some row fails. */
  lemma {:induction false} ColorsOfRaised(toInt: string -> Option<int>, rows: seq<seq<string>>)
    ensures ColorsOf(toInt, rows).Raised? <==> exists i :: 0 <= i < |rows| && ColorOfRow(toInt, rows[i]).Raised?
    ensures ColorsOf(toInt, rows).Raised? ==> ColorsOf(toInt, rows).exc == ValueError
  {
    if |rows| > 0 {
      ColorsOfRaised(toInt, rows[1..]);
      if exists i :: 1 <= i < |rows| && ColorOfRow(toInt, rows[i]).Raised? {
        var i :| 1 <= i < |rows| && ColorOfRow(toInt, rows[i]).Raised?;
        assert rows[1..][i - 1] == rows[i];
      }
      if ColorOfRow(toInt, rows[0]).Ok? && ColorsOf(toInt, rows[1..]).Raised? {
        var i :| 0 <= i < |rows[1..]| && ColorOfRow(toInt, rows[1..][i]).Raised?;
        assert ColorOfRow(toInt, rows[i + 1]).Raised?;
      }
    }
  }

  /** A successful conversion holds one colour per row, each the conversion of its row. */
  lemma {:induction false} ColorsOfOk(toInt: string -> Option<int>, rows: seq<seq<string>>)
    ensures ColorsOf(toInt, rows).Ok? ==>
      |ColorsOf(toInt, rows).value| == |rows|
      && forall i :: 0 <= i < |rows| ==> ColorOfRow(toInt, rows[i]) == Ok(ColorsOf(toInt, rows).value[i])
  {
    if |rows| > 0 && ColorsOf(toInt, rows).Ok? {
      ColorsOfOk(toInt, rows[1..]);
      assert forall i :: 1 <= i < |rows| ==> rows[i] == rows[1..][i - 1];
    }
  }

  /** The colours are the row conversions, in order; ValueError when any row fails. */
  lemma ColorsOfSpec(toInt: string -> Option<int>, rows: seq<seq<string>>)
    ensures ColorsOf(toInt, rows).Raised? <==> exists i :: 0 <= i < |rows| && ColorOfRow(toInt, rows[i]).Raised?
    ensures ColorsOf(toInt, rows).Raised? ==> ColorsOf(toInt, rows).exc == ValueError
    ensures ColorsOf(toInt, rows).Ok? ==>
      |ColorsOf(toInt, rows).value| == |rows|
      && forall i :: 0 <= i < |rows| ==> ColorOfRow(toInt, rows[i]) == Ok(ColorsOf(toInt, rows).value[i])
  {
    ColorsOfRaised(toInt, rows);
    ColorsOfOk(toInt, rows);
  }

  /** The body line of a colour whose name is the given words. */
  function WriteColor(c: Color, nameWords: seq<string>): string
  {
    Join([IntToString(c.red), IntToString(c.green), IntToString(c.blue)] + nameWords, " ")
  }

  /** Non-empty text without whitespace. */
  predicate IsWord(w: string)
  {
    |w| > 0 && forall j :: 0 <= j < |w| ==> !IsSpace(w[j])
  }

  lemma IntToStringIsWord(i: int)
    ensures IsWord(IntToString(i))
  {
    var s := IntToString(i);
    if i >= 0 {
      assert forall j :: 0 <= j < |s| ==> IsDigit(s[j]);
    } else {
      var digits := NatToString(-i);
      assert forall j :: 0 <= j < |digits| ==> IsDigit(digits[j]);
      assert forall j :: 1 <= j < |s| ==> s[j] == digits[j - 1];
    }
  }

  /** The words of a colour line are the three numbers and the name words. */
  lemma WordsOfWrittenColor(c: Color, nameWords: seq<string>)
    requires forall k :: 0 <= k < |nameWords| ==> IsWord(nameWords[k])
    ensures Words(WriteColor(c, nameWords)) == [IntToString(c.red), IntToString(c.green), IntToString(c.blue)] + nameWords
  {
    var ws := [IntToString(c.red), IntToString(c.green), IntToString(c.blue)] + nameWords;
    IntToStringIsWord(c.red);
    IntToStringIsWord(c.green);
    IntToStringIsWord(c.blue);
    assert forall k :: 0 <= k < |ws| ==> IsWord(ws[k]);
    WordsJoin(ws);
  }

  /** `int(str(i)) == i`: what the round trip needs of the integer parser. */
  ghost predicate ReadsBackInts(toInt: string -> Option<int>)
  {
    forall i :: toInt(IntToString(i)) == Some(i)
  }

  /** The model of `int()` reads back every integer it printed. */
  lemma ParseIntReadsBack()
    ensures ReadsBackInts(ParseInt)
  {
    forall i: int
      ensures ParseInt(IntToString(i)) == Some(i)
    {
      ParseIntToString(i);
    }
  }

  /** Reading back the line of a colour gives the colour. */
  lemma ColorOfWrittenRow(toInt: string -> Option<int>, c: Color, nameWords: seq<string>)
    requires ReadsBackInts(toInt)
    requires forall k :: 0 <= k < |nameWords| ==> IsWord(nameWords[k])
    requires c.name == Join(nameWords, " ")
    ensures ColorOfRow(toInt, Words(WriteColor(c, nameWords))) == Ok(c)
  {
    var row := Words(WriteColor(c, nameWords));
    WordsOfWrittenColor(c, nameWords);
    assert row[0] == IntToString(c.red) && row[1] == IntToString(c.green) && row[2] == IntToString(c.blue);
    assert row[3..] == nameWords;
  }

  /** The body lines of a palette. */
  function WriteColors(colors: seq<Color>, names: seq<seq<string>>): (lines: seq<string>)
    requires |names| == |colors|
    ensures |lines| == |colors|
  {
    seq(|colors|, i requires 0 <= i < |colors| => WriteColor(colors[i], names[i]))
  }

  /** Rows that each convert to their colour convert to the colours. */
  lemma {:induction false} ColorsOfAllOk(toInt: string -> Option<int>, rows: seq<seq<string>>, colors: seq<Color>)
    requires |rows| == |colors|
    requires forall i :: 0 <= i < |rows| ==> ColorOfRow(toInt, rows[i]) == Ok(colors[i])
    ensures ColorsOf(toInt, rows) == Ok(colors)
  {
    if |rows| > 0 {
      assert forall i :: 0 <= i < |rows| - 1 ==> rows[1..][i] == rows[i + 1] && colors[1..][i] == colors[i + 1];
      ColorsOfAllOk(toInt, rows[1..], colors[1..]);
      assert colors == [colors[0]] + colors[1..];
    }
  }

  /** Rows of colours written as body lines read back as the same colours. */
  lemma ColorsOfWritten(toInt: string -> Option<int>, colors: seq<Color>, names: seq<seq<string>>)
    requires ReadsBackInts(toInt)
    requires |names| == |colors|
    requires forall i, k :: 0 <= i < |names| && 0 <= k < |names[i]| ==> IsWord(names[i][k])
    requires forall i :: 0 <= i < |colors| ==> colors[i].name == Join(names[i], " ")
    ensures ColorsOf(toInt, Map(Words, WriteColors(colors, names))) == Ok(colors)
  {
    var rows := Map(Words, WriteColors(colors, names));
    forall i | 0 <= i < |rows|
      ensures ColorOfRow(toInt, rows[i]) == Ok(colors[i])
    {
      ColorOfWrittenRow(toInt, colors[i], names[i]);
    }
    ColorsOfAllOk(toInt, rows, colors);
  }

  /**
   * The two tiers together invert writing a palette: a header and one line
   * per colour parse back into the name, the column count and the colours.
   */
  lemma PaletteRoundTrip(name: string, columns: string, colors: seq<Color>, names: seq<seq<string>>)
    requires NoLeadingSpace(name) && NoLeadingSpace(columns)
    requires |names| == |colors|
    requires forall i, k :: 0 <= i < |names| && 0 <= k < |names[i]| ==> IsWord(names[i][k])
    requires forall i :: 0 <= i < |colors| ==> colors[i].name == Join(names[i], " ")
    ensures ReadRowsGpl(WriteHead(name, columns) + WriteColors(colors, names)).Ok?
    ensures var (headers, rows) := ReadRowsGpl(WriteHead(name, columns) + WriteColors(colors, names)).value;
            GetColorPalette(ParseInt, headers, rows) == Ok((name, columns, colors))
  {
    ReadHeadWriteHead(name, columns, WriteColors(colors, names));
    ParseIntReadsBack();
    ColorsOfWritten(ParseInt, colors, names);
  }
}
