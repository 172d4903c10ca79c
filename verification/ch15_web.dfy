/**
 * Chapter 15: the functional core of the Anscombe web service.  A request
 * path is matched against `^/anscombe/(?P<dataset>.*?)/?$`, the dataset id
 * is upper-cased and looked up, and the pairs are serialized to JSON or CSV
 * text that `to_bytes` encodes as UTF-8.  The XML and HTML serializers, the
 * data file and WSGI's `start_response` are parameters of the model.
 */
module Ch15Web {
  import opened Py
  import opened Ch03Anscombe

  // ------------------------------------------------------ to_bytes (UTF-8)

  type Byte = b: int | 0 <= b < 256

  /** The UTF-8 encoding of one Unicode scalar value: one to four bytes. */
  function EncodeChar(c: char): (r: seq<Byte>)
    ensures 1 <= |r| <= 4
    ensures |r| == 1 <==> c as int < 0x80
  {
    var n := c as int;
    var q1, r0 := n / 64, n % 64;
    var q2, r1 := q1 / 64, q1 % 64;
    var q3, r2 := q2 / 64, q2 % 64;
    if n < 0x80 then [n]
    else if n < 0x800 then [0xC0 + q1, 0x80 + r0]
    else if n < 0x1_0000 then [0xE0 + q2, 0x80 + r1, 0x80 + r0]
    else [0xF0 + q3, 0x80 + r2, 0x80 + r1, 0x80 + r0]
  }

  /** `text.encode('utf-8')`: what the `to_bytes` decorator applies to a serializer's text. */
  function Utf8(s: string): seq<Byte>
  {
    if |s| == 0 then [] else EncodeChar(s[0]) + Utf8(s[1..])
  }

  predicate IsContinuation(b: Byte)
  {
    0x80 <= b < 0xC0
  }

  /** The six payload bits of a continuation byte. */
  function Bits(b: Byte): int
  {
    b as int - 0x80
  }

  predicate IsScalar(n: int)
  {
    0 <= n < 0xD800 || 0xE000 <= n < 0x11_0000
  }

  /**
   * The first character of a UTF-8 byte string and the number of bytes it
   * takes; overlong forms, surrogates and truncated sequences are rejected.
   */
  function DecodeFirst(b: seq<Byte>): (r: Option<(char, nat)>)
    ensures r.Some? ==> 1 <= r.value.1 <= |b|
  {
    if |b| == 0 then None
    else if b[0] < 0x80 then Some(((b[0] as int) as char, 1))
    else if 0xC2 <= b[0] < 0xE0 && |b| >= 2 && IsContinuation(b[1]) then
      Some((((b[0] as int - 0xC0) * 64 + Bits(b[1])) as char, 2))
    else if 0xE0 <= b[0] < 0xF0 && |b| >= 3 && IsContinuation(b[1]) && IsContinuation(b[2]) then
      var n := ((b[0] as int - 0xE0) * 64 + Bits(b[1])) * 64 + Bits(b[2]);
      if 0x800 <= n && IsScalar(n) then Some((n as char, 3)) else None
    else if 0xF0 <= b[0] < 0xF5 && |b| >= 4 && IsContinuation(b[1]) && IsContinuation(b[2]) && IsContinuation(b[3]) then
      var n := (((b[0] as int - 0xF0) * 64 + Bits(b[1])) * 64 + Bits(b[2])) * 64 + Bits(b[3]);
      if 0x1_0000 <= n < 0x11_0000 then Some((n as char, 4)) else None
    else None
  }

  /** `data.decode('utf-8')`, the inverse the encoding is measured against. */
  function DecodeUtf8(b: seq<Byte>): Option<string>
    decreases |b|
  {
    if |b| == 0 then Some("")
    else
      match DecodeFirst(b)
      case None => None
      case Some((c, w)) =>
        match DecodeUtf8(b[w..])
        case None => None
        case Some(rest) => Some([c] + rest)
  }

  /** A character's encoding decodes back to it, whatever follows. */
  lemma DecodeEncodeChar(c: char, rest: seq<Byte>)
    ensures DecodeFirst(EncodeChar(c) + rest) == Some((c, |EncodeChar(c)|))
  {
  }

  /** Decoding the UTF-8 encoding of a text gives the text back. */
  lemma {:induction false} Utf8RoundTrip(s: string)
    ensures DecodeUtf8(Utf8(s)) == Some(s)
  {
    if |s| > 0 {
      var e := EncodeChar(s[0]);
      var b := Utf8(s);
      DecodeEncodeChar(s[0], Utf8(s[1..]));
      assert b[|e|..] == Utf8(s[1..]);
      Utf8RoundTrip(s[1..]);
      assert s == [s[0]] + s[1..];
    }
  }

  predicate IsAscii(s: string)
  {
    forall i :: 0 <= i < |s| ==> s[i] as int < 0x80
  }

  /** ASCII text encodes byte for byte: each byte is the character's code. */
  lemma {:induction false} Utf8Ascii(s: string)
    requires IsAscii(s)
    ensures |Utf8(s)| == |s|
    ensures forall i :: 0 <= i < |s| ==> Utf8(s)[i] == s[i] as int
  {
    if |s| > 0 {
      Utf8Ascii(s[1..]);
      assert forall i :: 1 <= i < |s| ==> s[i] == s[1..][i - 1];
    }
  }

  lemma {:induction false} Utf8Append(a: string, b: string)
    ensures Utf8(a + b) == Utf8(a) + Utf8(b)
    decreases |a|
  {
    if |a| > 0 {
      assert (a + b)[1..] == a[1..] + b;
      Utf8Append(a[1..], b);
    } else {
      assert a + b == b;
    }
  }

  // ------------------------------------------------------------ URL routing

  const AnscombePrefix := "/anscombe/"

  /**
   * What `urlPathPattern.match(path)` captures as `dataset`.  The lazy group
   * takes the shortest text that leaves an optional '/' and the end; Python's
   * `$` also matches just before a final newline, and `.` never matches a
   * newline.
   */
  function UrlDataset(path: string): Option<string>
  {
    var p := |AnscombePrefix|;
    if |path| < p || path[..p] != AnscombePrefix then None
    else
      var d := Capture(path[p..]);
      if '\n' in d then None else Some(d)
  }

  /** The text after the prefix without the longest tail of '/', '\n' or "/\n". */
  function Capture(rest: string): string
  {
    if |rest| >= 2 && rest[|rest| - 2] == '/' && rest[|rest| - 1] == '\n' then rest[..|rest| - 2]
    else if |rest| >= 1 && (rest[|rest| - 1] == '/' || rest[|rest| - 1] == '\n') then rest[..|rest| - 1]
    else rest
  }

  /**
   * The regular expression's language: the prefix, a newline-free group, an
   * optional '/' and an optional final newline.
   */
  predicate PatternMatches(path: string, d: string)
  {
    '\n' !in d &&
    (path == AnscombePrefix + d || path == AnscombePrefix + d + "/" ||
     path == AnscombePrefix + d + "\n" || path == AnscombePrefix + d + "/\n")
  }

  /**
   * The capture is a match, and the shortest one: the pattern matches
   * exactly when a dataset is captured, and no match has a shorter group.
   */
  lemma UrlDatasetIsShortestMatch(path: string)
    ensures UrlDataset(path).Some? ==> PatternMatches(path, UrlDataset(path).value)
    ensures forall d :: PatternMatches(path, d) ==> UrlDataset(path).Some? && |UrlDataset(path).value| <= |d|
  {
    var p := |AnscombePrefix|;
    if UrlDataset(path).Some? {
      var rest := path[p..];
      assert path == AnscombePrefix + rest;
      var d := Capture(rest);
      if |rest| >= 2 && rest[|rest| - 2] == '/' && rest[|rest| - 1] == '\n' {
        assert rest == d + "/\n";
      } else if |rest| >= 1 && (rest[|rest| - 1] == '/' || rest[|rest| - 1] == '\n') {
        assert rest == d + [rest[|rest| - 1]];
      }
    }
    forall d | PatternMatches(path, d)
      ensures UrlDataset(path).Some? && |UrlDataset(path).value| <= |d|
    {
      MatchIsCaptured(path, d);
    }
  }

  /** Any match's group extends the captured one. */
  lemma MatchIsCaptured(path: string, d: string)
    requires PatternMatches(path, d)
    ensures UrlDataset(path).Some? && |UrlDataset(path).value| <= |d|
  {
    var p := |AnscombePrefix|;
    assert path[..p] == AnscombePrefix;
    var rest := path[p..];
    assert rest == d || rest == d + "/" || rest == d + "\n" || rest == d + "/\n";
    var captured := Capture(rest);
    assert |captured| <= |d| && captured == d[..|captured|];
    assert '\n' !in captured by {
      forall i | 0 <= i < |captured| ensures captured[i] != '\n' {
        assert captured[i] == d[i];
      }
    }
  }

  /** A newline-free id that does not end in '/' is captured with or without a trailing '/'. */
  lemma UrlDatasetOfId(d: string)
    requires '\n' !in d && (|d| == 0 || d[|d| - 1] != '/')
    ensures UrlDataset(AnscombePrefix + d) == Some(d)
    ensures UrlDataset(AnscombePrefix + d + "/") == Some(d)
  {
    var p := |AnscombePrefix|;
    assert (AnscombePrefix + d)[..p] == AnscombePrefix;
    assert (AnscombePrefix + d)[p..] == d;
    assert Capture(d) == d by {
      if |d| >= 1 {
        assert d[|d| - 1] in d;
      }
    }
    var slashed := AnscombePrefix + d + "/";
    assert slashed[..p] == AnscombePrefix;
    assert slashed[p..] == d + "/";
    assert Capture(d + "/") == d by {
      if |d| >= 1 {
        assert (d + "/")[|d| - 1] == d[|d| - 1];
      }
      assert (d + "/")[..|d|] == d;
    }
  }

  /** The three paths of the module's doctest. */
  lemma UrlDatasetExamples()
    ensures UrlDataset("/anscombe/I") == Some("I")
    ensures UrlDataset("/anscombe/II/") == Some("II")
    ensures UrlDataset("/anscombe/") == Some("")
  {
    UrlDatasetOfId("I");
    assert AnscombePrefix + "I" == "/anscombe/I";
    UrlDatasetOfId("II");
    assert AnscombePrefix + "II" + "/" == "/anscombe/II/";
    UrlDatasetOfId("");
    assert AnscombePrefix + "" == "/anscombe/";
  }

  // ------------------------------------------------------------ serializers

  /** Text made of digits and minus signs only, as `str` gives for an integer. */
  predicate PlainNumber(s: string)
  {
    forall k :: 0 <= k < |s| ==> IsDigit(s[k]) || s[k] == '-'
  }

  lemma IntToStringPlain(i: int)
    ensures PlainNumber(IntToString(i))
  {
    var r := IntToString(i);
    if i < 0 {
      assert forall k :: 1 <= k < |r| ==> r[k] == NatToString(-i)[k - 1];
    }
  }

  /** `text` with `prefix` removed, if it starts with it. */
  function DropPrefix(prefix: string, text: string): (r: Option<string>)
    ensures r.Some? <==> |prefix| <= |text| && text[..|prefix|] == prefix
  {
    if |prefix| <= |text| && text[..|prefix|] == prefix then Some(text[|prefix|..]) else None
  }

  lemma DropPrefixOf(prefix: string, rest: string)
    ensures DropPrefix(prefix, prefix + rest) == Some(rest)
  {
    assert (prefix + rest)[..|prefix|] == prefix;
    assert (prefix + rest)[|prefix|..] == rest;
  }

  const XMember := "{\"x\": "
  const YMember := " \"y\": "

  /** The text of one `dict(x=row.x, y=row.y)` before its closing brace; sorted keys put x first. */
  function ObjectBody(p: Pair<int>): string
  {
    XMember + IntToString(p.x) + "," + YMember + IntToString(p.y)
  }

  function JsonObject(p: Pair<int>): string
  {
    ObjectBody(p) + "}"
  }

  /** `json.dumps(obj, sort_keys=True)` of the list of pair dictionaries. */
  function SerializeJsonText(data: seq<Pair<int>>): string
  {
    "[" + Join(Map(JsonObject, data), ", ") + "]"
  }

  /** `serialize_json(series, data)`: the series name is not used. */
  function SerializeJson(series: string, data: seq<Pair<int>>): seq<Byte>
  {
    Utf8(SerializeJsonText(data))
  }

  /** Reads back one object body written by the JSON serializer. */
  function ParseObjectBody(b: string): Option<Pair<int>>
  {
    match DropPrefix(XMember, b)
    case None => None
    case Some(r) =>
      var fields := Split(r, ',');
      if |fields| != 2 then None
      else
        match (ParseInt(fields[0]), DropPrefix(YMember, fields[1]))
        case (Some(x), Some(ys)) =>
          (match ParseInt(ys)
           case Some(y) => Some(Pair(x, y))
           case None => None)
        case _ => None
  }

  /** Reads back the pieces of the array between closing braces; all but the first follow ", ". */
  function ParseObjects(pieces: seq<string>, first: bool): Option<seq<Pair<int>>>
    decreases |pieces|
  {
    if |pieces| == 0 then Some([])
    else
      var body := if first then Some(pieces[0]) else DropPrefix(", ", pieces[0]);
      match body
      case None => None
      case Some(b) =>
        match (ParseObjectBody(b), ParseObjects(pieces[1..], false))
        case (Some(p), Some(ps)) => Some([p] + ps)
        case _ => None
  }

  /** The JSON text of a list of integer pairs, read back as pairs. */
  function ParseJsonPairs(text: string): Option<seq<Pair<int>>>
  {
    if |text| < 2 || text[0] != '[' || text[|text| - 1] != ']' then None
    else
      var inner := text[1..|text| - 1];
      if |inner| == 0 then Some([])
      else
        var pieces := Split(inner, '}');
        if pieces[|pieces| - 1] != "" then None
        else ParseObjects(pieces[..|pieces| - 1], true)
  }

  lemma ObjectBodyRoundTrip(p: Pair<int>)
    ensures ParseObjectBody(ObjectBody(p)) == Some(p)
  {
    var xs, ys := IntToString(p.x), IntToString(p.y);
    IntToStringPlain(p.x);
    IntToStringPlain(p.y);
    assert ObjectBody(p) == XMember + (xs + "," + YMember + ys);
    DropPrefixOf(XMember, xs + "," + YMember + ys);
    assert Split(xs + "," + YMember + ys, ',') == [xs, YMember + ys] by {
      assert Join([xs, YMember + ys], [',']) == xs + "," + YMember + ys;
      assert ',' !in xs by { NotInPlain(xs, ','); }
      assert ',' !in YMember + ys by {
        NotInPlain(ys, ',');
        assert YMember + ys == [' ', '"', 'y', '"', ':', ' '] + ys;
      }
      SplitJoin([xs, YMember + ys], ',');
    }
    DropPrefixOf(YMember, ys);
    ParseIntToString(p.x);
    ParseIntToString(p.y);
  }

  /** A character other than a digit or '-' does not occur in a number's text. */
  lemma NotInPlain(s: string, c: char)
    requires PlainNumber(s) && !IsDigit(c) && c != '-'
    ensures c !in s
  {
    forall k | 0 <= k < |s| ensures s[k] != c {
      assert IsDigit(s[k]) || s[k] == '-';
    }
  }

  /** An object body after the ", " that separates it from the one before. */
  function Continued(p: Pair<int>): string
  {
    ", " + ObjectBody(p)
  }

  /** The array text cut at its closing braces, without the empty piece after the last. */
  function BracePieces(data: seq<Pair<int>>): seq<string>
    requires |data| >= 1
  {
    [ObjectBody(data[0])] + Map(Continued, data[1..])
  }

  lemma JoinPrefixHead(x: string, a: string, rest: seq<string>, sep: string)
    requires |rest| >= 1
    ensures Join([x + a] + rest, sep) == x + Join([a] + rest, sep)
  {
    assert ([x + a] + rest)[1..] == rest;
    assert ([a] + rest)[1..] == rest;
  }

  function Closed(b: string): string
  {
    b + "}"
  }

  function Comma(b: string): string
  {
    ", " + b
  }

  /** Closing each piece and joining with ", " is joining with "}" after a final empty piece. */
  lemma {:induction false} JoinClosed(bs: seq<string>)
    requires |bs| >= 1
    ensures Join(Map(Closed, bs), ", ") == Join([bs[0]] + Map(Comma, bs[1..]) + [""], "}")
    decreases |bs|
  {
    if |bs| == 1 {
      assert Map(Closed, bs) == [bs[0] + "}"];
      assert [bs[0]] + Map(Comma, bs[1..]) + [""] == [bs[0], ""];
    } else {
      var t := bs[1..];
      var tail := Map(Comma, t[1..]) + [""];
      assert Join(Map(Closed, bs), ", ") == bs[0] + "}" + ", " + Join(Map(Closed, t), ", ") by {
        assert Map(Closed, bs)[1..] == Map(Closed, t);
      }
      assert Join(Map(Closed, t), ", ") == Join([t[0]] + tail, "}") by {
        JoinClosed(t);
        assert [t[0]] + Map(Comma, t[1..]) + [""] == [t[0]] + tail;
      }
      assert Join(Map(Comma, t) + [""], "}") == ", " + Join([t[0]] + tail, "}") by {
        assert Map(Comma, t) + [""] == [", " + t[0]] + tail;
        JoinPrefixHead(", ", t[0], tail, "}");
      }
      assert Join([bs[0]] + Map(Comma, t) + [""], "}") == bs[0] + "}" + Join(Map(Comma, t) + [""], "}") by {
        assert [bs[0]] + Map(Comma, t) + [""] == [bs[0]] + (Map(Comma, t) + [""]);
        assert ([bs[0]] + (Map(Comma, t) + [""]))[1..] == Map(Comma, t) + [""];
      }
    }
  }

  /** Joining the objects with ", " is joining the brace pieces with "}". */
  lemma JoinObjects(data: seq<Pair<int>>)
    requires |data| >= 1
    ensures Join(Map(JsonObject, data), ", ") == Join(BracePieces(data) + [""], "}")
  {
    var bodies := Map(ObjectBody, data);
    assert Map(JsonObject, data) == Map(Closed, bodies);
    assert Map(Comma, bodies[1..]) == Map(Continued, data[1..]);
    JoinClosed(bodies);
  }

  lemma ObjectBodyNoBrace(p: Pair<int>)
    ensures '}' !in ObjectBody(p)
  {
    IntToStringPlain(p.x);
    IntToStringPlain(p.y);
    NotInPlain(IntToString(p.x), '}');
    NotInPlain(IntToString(p.y), '}');
    assert XMember == ['{', '"', 'x', '"', ':', ' '];
    assert YMember == [' ', '"', 'y', '"', ':', ' '];
  }

  lemma ParseObjectsStep(pieces: seq<string>, first: bool, b: string, p: Pair<int>, ps: seq<Pair<int>>)
    requires |pieces| > 0
    requires (if first then Some(pieces[0]) else DropPrefix(", ", pieces[0])) == Some(b)
    requires ParseObjectBody(b) == Some(p)
    requires ParseObjects(pieces[1..], false) == Some(ps)
    ensures ParseObjects(pieces, first) == Some([p] + ps)
  {
  }

  lemma {:induction false} ParseContinued(t: seq<Pair<int>>)
    ensures ParseObjects(Map(Continued, t), false) == Some(t)
    decreases |t|
  {
    if |t| > 0 {
      var pieces := Map(Continued, t);
      var b := ObjectBody(t[0]);
      assert DropPrefix(", ", pieces[0]) == Some(b) by {
        DropPrefixOf(", ", b);
      }
      assert ParseObjectBody(b) == Some(t[0]) by {
        ObjectBodyRoundTrip(t[0]);
      }
      assert ParseObjects(pieces[1..], false) == Some(t[1..]) by {
        assert pieces[1..] == Map(Continued, t[1..]);
        ParseContinued(t[1..]);
      }
      ParseObjectsStep(pieces, false, b, t[0], t[1..]);
      assert t == [t[0]] + t[1..];
    }
  }

  lemma CommaPiecesNoBrace(bs: seq<string>)
    requires |bs| >= 1 && forall i :: 0 <= i < |bs| ==> '}' !in bs[i]
    ensures forall i :: 0 <= i < |bs| ==> '}' !in ([bs[0]] + Map(Comma, bs[1..]))[i]
  {
    forall i | 1 <= i < |bs| ensures '}' !in Comma(bs[i]) {
      assert Comma(bs[i]) == [',', ' '] + bs[i];
    }
  }

  lemma BodiesNoBrace(data: seq<Pair<int>>)
    ensures forall i :: 0 <= i < |data| ==> '}' !in Map(ObjectBody, data)[i]
  {
    forall i | 0 <= i < |data| ensures '}' !in Map(ObjectBody, data)[i] {
      ObjectBodyNoBrace(data[i]);
    }
  }

  lemma BracePiecesNoBrace(data: seq<Pair<int>>)
    requires |data| >= 1
    ensures forall i :: 0 <= i < |BracePieces(data)| ==> '}' !in BracePieces(data)[i]
  {
    var bodies := Map(ObjectBody, data);
    assert BracePieces(data) == [bodies[0]] + Map(Comma, bodies[1..]);
    BodiesNoBrace(data);
    CommaPiecesNoBrace(bodies);
  }

  /** Cutting the joined objects at '}' gives the brace pieces and a final empty piece. */
  lemma SplitObjects(data: seq<Pair<int>>)
    requires |data| >= 1
    ensures Split(Join(Map(JsonObject, data), ", "), '}') == BracePieces(data) + [""]
  {
    var pieces := BracePieces(data) + [""];
    assert forall i :: 0 <= i < |pieces| ==> '}' !in pieces[i] by {
      BracePiecesNoBrace(data);
      assert forall i :: 0 <= i < |pieces| - 1 ==> pieces[i] == BracePieces(data)[i];
    }
    assert Split(Join(pieces, "}"), '}') == pieces by {
      SplitJoin(pieces, '}');
    }
    assert Join(Map(JsonObject, data), ", ") == Join(pieces, "}") by {
      JoinObjects(data);
    }
  }

  lemma ParseBracePieces(data: seq<Pair<int>>)
    requires |data| >= 1
    ensures ParseObjects(BracePieces(data), true) == Some(data)
  {
    var pieces := BracePieces(data);
    assert ParseObjectBody(pieces[0]) == Some(data[0]) by {
      ObjectBodyRoundTrip(data[0]);
    }
    assert ParseObjects(pieces[1..], false) == Some(data[1..]) by {
      assert pieces[1..] == Map(Continued, data[1..]);
      ParseContinued(data[1..]);
    }
    ParseObjectsStep(pieces, true, pieces[0], data[0], data[1..]);
    assert data == [data[0]] + data[1..];
  }

  /** The JSON serializer's text reads back as the pairs it was given. */
  lemma SerializeJsonRoundTrip(data: seq<Pair<int>>)
    ensures ParseJsonPairs(SerializeJsonText(data)) == Some(data)
  {
    var text := SerializeJsonText(data);
    var inner := Join(Map(JsonObject, data), ", ");
    assert |text| >= 2 && text[0] == '[' && text[|text| - 1] == ']' && text[1..|text| - 1] == inner;
    if |data| > 0 {
      assert |inner| > 0 by {
        assert |Map(JsonObject, data)[0]| > 0;
        JoinFirst(Map(JsonObject, data), ", ");
      }
      NonEmptyObjectsParse(data, inner);
    } else {
      assert inner == "";
    }
  }

  lemma NonEmptyObjectsParse(data: seq<Pair<int>>, inner: string)
    requires |data| > 0 && inner == Join(Map(JsonObject, data), ", ")
    ensures var pieces := Split(inner, '}');
      pieces[|pieces| - 1] == "" && ParseObjects(pieces[..|pieces| - 1], true) == Some(data)
  {
    var pieces := Split(inner, '}');
    assert pieces == BracePieces(data) + [""] by {
      SplitObjects(data);
    }
    assert pieces[..|pieces| - 1] == BracePieces(data);
    ParseBracePieces(data);
  }

  lemma JoinFirst(parts: seq<string>, sep: string)
    requires |parts| >= 1
    ensures |Join(parts, sep)| >= |parts[0]|
  {
  }

  const CsvHeader := "x,y"

  /** One data row of `csv.DictWriter` with the fields x and y. */
  function CsvRow(p: Pair<int>): string
  {
    IntToString(p.x) + "," + IntToString(p.y)
  }

  /** A row as the csv writer emits it, ended by its default "\r\n". */
  function Crlf(line: string): string
  {
    line + "\r\n"
  }

  /** `serialize_csv`'s text: the header row, then one row per pair. */
  function SerializeCsvText(data: seq<Pair<int>>): string
  {
    Flatten(Map(Crlf, [CsvHeader] + Map(CsvRow, data)))
  }

  /** `serialize_csv(series, data)`: the series name is not used. */
  function SerializeCsv(series: string, data: seq<Pair<int>>): seq<Byte>
  {
    Utf8(SerializeCsvText(data))
  }

  /** The lines of CRLF-terminated records without their '\r'; None if one lacks it. */
  function Records(parts: seq<string>): Option<seq<string>>
    decreases |parts|
  {
    if |parts| == 0 then Some([])
    else if |parts[0]| == 0 || parts[0][|parts[0]| - 1] != '\r' then None
    else
      match Records(parts[1..])
      case None => None
      case Some(rest) => Some([parts[0][..|parts[0]| - 1]] + rest)
  }

  function ParseCsvRow(line: string): Option<Pair<int>>
  {
    var fields := Split(line, ',');
    if |fields| != 2 then None
    else
      match (ParseInt(fields[0]), ParseInt(fields[1]))
      case (Some(x), Some(y)) => Some(Pair(x, y))
      case _ => None
  }

  function ParseCsvRows(lines: seq<string>): Option<seq<Pair<int>>>
    decreases |lines|
  {
    if |lines| == 0 then Some([])
    else
      match (ParseCsvRow(lines[0]), ParseCsvRows(lines[1..]))
      case (Some(p), Some(ps)) => Some([p] + ps)
      case _ => None
  }

  /** A CSV text with an "x,y" header and integer rows, read back as pairs. */
  function ParseCsvPairs(text: string): Option<seq<Pair<int>>>
  {
    var parts := Split(text, '\n');
    if parts[|parts| - 1] != "" then None
    else
      match Records(parts[..|parts| - 1])
      case None => None
      case Some(lines) =>
        if |lines| == 0 || lines[0] != CsvHeader then None else ParseCsvRows(lines[1..])
  }

  function Cr(line: string): string
  {
    line + "\r"
  }

  /** CRLF-terminated lines are the '\r'-ended lines joined by '\n' with an empty last piece. */
  lemma {:induction false} FlattenCrlf(ls: seq<string>)
    ensures Flatten(Map(Crlf, ls)) == Join(Map(Cr, ls) + [""], "\n")
    decreases |ls|
  {
    if |ls| > 0 {
      var tail := Map(Cr, ls[1..]) + [""];
      assert Flatten(Map(Crlf, ls)) == ls[0] + "\r\n" + Flatten(Map(Crlf, ls[1..])) by {
        assert Map(Crlf, ls)[1..] == Map(Crlf, ls[1..]);
      }
      FlattenCrlf(ls[1..]);
      assert Map(Cr, ls) + [""] == [ls[0] + "\r"] + tail;
      assert ([ls[0] + "\r"] + tail)[1..] == tail;
    } else {
      assert Map(Cr, ls) + [""] == [""];
    }
  }

  lemma {:induction false} RecordsOfCr(ls: seq<string>)
    ensures Records(Map(Cr, ls)) == Some(ls)
    decreases |ls|
  {
    if |ls| > 0 {
      var parts := Map(Cr, ls);
      assert parts[0][..|parts[0]| - 1] == ls[0];
      assert parts[1..] == Map(Cr, ls[1..]);
      RecordsOfCr(ls[1..]);
      assert ls == [ls[0]] + ls[1..];
    }
  }

  lemma CsvRowRoundTrip(p: Pair<int>)
    ensures ParseCsvRow(CsvRow(p)) == Some(p)
  {
    var xs, ys := IntToString(p.x), IntToString(p.y);
    assert Split(CsvRow(p), ',') == [xs, ys] by {
      IntToStringPlain(p.x);
      IntToStringPlain(p.y);
      NotInPlain(xs, ',');
      NotInPlain(ys, ',');
      assert Join([xs, ys], [',']) == CsvRow(p);
      SplitJoin([xs, ys], ',');
    }
    ParseIntToString(p.x);
    ParseIntToString(p.y);
  }

  lemma ParseCsvRowsStep(lines: seq<string>, p: Pair<int>, ps: seq<Pair<int>>)
    requires |lines| > 0 && ParseCsvRow(lines[0]) == Some(p) && ParseCsvRows(lines[1..]) == Some(ps)
    ensures ParseCsvRows(lines) == Some([p] + ps)
  {
  }

  lemma {:induction false} CsvRowsRoundTrip(data: seq<Pair<int>>)
    ensures ParseCsvRows(Map(CsvRow, data)) == Some(data)
    decreases |data|
  {
    if |data| > 0 {
      var lines := Map(CsvRow, data);
      assert ParseCsvRow(lines[0]) == Some(data[0]) by {
        CsvRowRoundTrip(data[0]);
      }
      assert ParseCsvRows(lines[1..]) == Some(data[1..]) by {
        assert lines[1..] == Map(CsvRow, data[1..]);
        CsvRowsRoundTrip(data[1..]);
      }
      ParseCsvRowsStep(lines, data[0], data[1..]);
      assert data == [data[0]] + data[1..];
    }
  }

  lemma CsvRowNoNewline(p: Pair<int>)
    ensures '\n' !in CsvRow(p)
  {
    IntToStringPlain(p.x);
    IntToStringPlain(p.y);
    NotInPlain(IntToString(p.x), '\n');
    NotInPlain(IntToString(p.y), '\n');
  }

  /** The CSV serializer's text reads back as the pairs it was given. */
  lemma SerializeCsvRoundTrip(data: seq<Pair<int>>)
    ensures ParseCsvPairs(SerializeCsvText(data)) == Some(data)
  {
    var ls := [CsvHeader] + Map(CsvRow, data);
    var pieces := Map(Cr, ls) + [""];
    assert SerializeCsvText(data) == Join(pieces, "\n") by {
      FlattenCrlf(ls);
    }
    assert forall i :: 0 <= i < |pieces| ==> '\n' !in pieces[i] by {
      forall i | 0 <= i < |pieces| ensures '\n' !in pieces[i] {
        if 1 <= i < |pieces| - 1 {
          CsvRowNoNewline(data[i - 1]);
          assert pieces[i] == Cr(CsvRow(data[i - 1]));
        } else if i == 0 {
          assert pieces[0] == "x,y\r";
        }
      }
    }
    assert Split(Join(pieces, "\n"), '\n') == pieces by {
      SplitJoin(pieces, '\n');
    }
    assert pieces[..|pieces| - 1] == Map(Cr, ls);
    RecordsOfCr(ls);
    assert ls[1..] == Map(CsvRow, data);
    CsvRowsRoundTrip(data);
  }

  // ------------------------------------------------------ format dispatch

  /** Which serializer a format selects. */
  datatype Format = XmlFormat | HtmlFormat | JsonFormat | CsvFormat

  /** The `serializers` table: format name to MIME type and serializer. */
  const Serializers: map<string, (string, Format)> := map[
    "xml" := ("application/xml", XmlFormat),
    "html" := ("text/html", HtmlFormat),
    "json" := ("application/json", JsonFormat),
    "csv" := ("text/csv", CsvFormat)]

  /**
   * Runs the selected serializer.  `serialize_xml` builds its bytes itself
   * and `serialize_html` fills a page template; both are parameters here.
   */
  function Serialize(f: Format, title: string, data: seq<Pair<int>>,
                     xml: (string, seq<Pair<int>>) -> seq<Byte>,
                     html: (string, seq<Pair<int>>) -> string): seq<Byte>
  {
    match f
    case XmlFormat => xml(title, data)
    case HtmlFormat => Utf8(html(title, data))
    case JsonFormat => SerializeJson(title, data)
    case CsvFormat => SerializeCsv(title, data)
  }

  /**
   * `write_serialized_data(format, title, data)`: the lower-cased format
   * picks a serializer and MIME type, HTML for any unknown format.
   */
  function WriteSerializedData(format: string, title: string, data: seq<Pair<int>>,
                               xml: (string, seq<Pair<int>>) -> seq<Byte>,
                               html: (string, seq<Pair<int>>) -> string): (seq<Byte>, string)
  {
    var key := Lower(format);
    var (mime, f) := if key in Serializers then Serializers[key] else ("text/html", HtmlFormat);
    (Serialize(f, title, data, xml, html), mime)
  }

  /** What each format name yields, and the HTML fallback for every other name. */
  lemma WriteSerializedDataDispatch(format: string, title: string, data: seq<Pair<int>>,
                                    xml: (string, seq<Pair<int>>) -> seq<Byte>,
                                    html: (string, seq<Pair<int>>) -> string)
    ensures Lower(format) == "json" ==>
      WriteSerializedData(format, title, data, xml, html) == (Utf8(SerializeJsonText(data)), "application/json")
    ensures Lower(format) == "csv" ==>
      WriteSerializedData(format, title, data, xml, html) == (Utf8(SerializeCsvText(data)), "text/csv")
    ensures Lower(format) == "xml" ==>
      WriteSerializedData(format, title, data, xml, html) == (xml(title, data), "application/xml")
    ensures Lower(format) != "json" && Lower(format) != "csv" && Lower(format) != "xml" ==>
      WriteSerializedData(format, title, data, xml, html) == (Utf8(html(title, data)), "text/html")
  {
  }

  lemma LowerUpperChar(c: char)
    ensures LowerChar(UpperChar(c)) == LowerChar(c)
  {
  }

  /** Lower-casing forgets an earlier upper-casing. */
  lemma LowerUpper(s: string)
    ensures Lower(Upper(s)) == Lower(s)
  {
    forall i | 0 <= i < |s| ensures Lower(Upper(s))[i] == Lower(s)[i] {
      LowerUpperChar(s[i]);
    }
  }

  /** The format is matched without regard to ASCII case. */
  lemma WriteSerializedDataIgnoresCase(format: string, title: string, data: seq<Pair<int>>,
                                       xml: (string, seq<Pair<int>>) -> seq<Byte>,
                                       html: (string, seq<Pair<int>>) -> string)
    ensures WriteSerializedData(Upper(format), title, data, xml, html) == WriteSerializedData(format, title, data, xml, html)
  {
    LowerUpper(format);
  }

  // --------------------------------------------------------------- routing

  /** The applications of the routing example. */
  datatype App = DemoApp | StaticApp | WelcomeApp

  const ScriptMap: map<string, App> := map["demo" := DemoApp, "static" := StaticApp, "" := WelcomeApp]

  /** A path segment `shift_path_info` keeps between the first and last: not empty and not '.'. */
  predicate IsSegment(p: string)
  {
    p != "" && p != "."
  }

  /**
   * `wsgiref.util.shift_path_info`'s result: the first segment of PATH_INFO
   * (empty and '.' segments skipped before the last), None for an empty path
   * or a '.' name, and `IndexError` for a path without any '/'.
   */
  function ShiftPathInfo(pathInfo: string): Outcome<Option<string>>
  {
    if pathInfo == "" then Ok(None)
    else
      var parts := Split(pathInfo, '/');
      if |parts| < 2 then Raised(IndexError)
      else
        var middle := Filter(IsSegment, parts[1..|parts| - 1]);
        var name := if |middle| > 0 then middle[0] else parts[|parts| - 1];
        if name == "." then Ok(None) else Ok(Some(name))
  }

  /** `routing`: the application named by the first segment, the '' application otherwise. */
  function Routing(pathInfo: string): Outcome<App>
  {
    var top :- ShiftPathInfo(pathInfo);
    match top
    case Some(name) => Ok(if name in ScriptMap then ScriptMap[name] else ScriptMap[""])
    case None => Ok(ScriptMap[""])
  }

  /** Unknown and missing names fall back to the welcome application. */
  lemma RoutingFallback(pathInfo: string)
    ensures ShiftPathInfo(pathInfo).Raised? <==> Routing(pathInfo).Raised?
    ensures Routing(pathInfo) == Ok(DemoApp) <==> ShiftPathInfo(pathInfo) == Ok(Some("demo"))
    ensures Routing(pathInfo) == Ok(StaticApp) <==> ShiftPathInfo(pathInfo) == Ok(Some("static"))
    ensures Routing(pathInfo) == Ok(WelcomeApp) <==>
      ShiftPathInfo(pathInfo).Ok? && ShiftPathInfo(pathInfo) != Ok(Some("demo")) && ShiftPathInfo(pathInfo) != Ok(Some("static"))
  {
  }

  /** Splitting after a separator-free first piece. */
  lemma {:induction false} SplitFreeHead(a: string, b: string, sep: char)
    requires sep !in a
    ensures Split(a + [sep] + b, sep) == [a] + Split(b, sep)
    decreases |a|
  {
    if |a| > 0 {
      assert (a + [sep] + b)[1..] == a[1..] + [sep] + b;
      SplitFreeHead(a[1..], b, sep);
      assert [a[0]] + a[1..] == a;
    } else {
      assert a + [sep] + b == [sep] + b;
    }
  }

  lemma {:induction false} SplitFree(a: string, sep: char)
    requires sep !in a
    ensures Split(a, sep) == [a]
    decreases |a|
  {
    if |a| > 0 {
      SplitFree(a[1..], sep);
      assert [a[0]] + a[1..] == a;
    }
  }

  /** The first segment after the leading '/' is the name, whether more path follows or not. */
  lemma ShiftPathInfoFirstSegment(segment: string, rest: string)
    requires '/' !in segment && IsSegment(segment)
    ensures ShiftPathInfo("/" + segment) == Ok(Some(segment))
    ensures ShiftPathInfo("/" + segment + "/" + rest) == Ok(Some(segment))
  {
    assert Split("/" + segment, '/') == ["", segment] by {
      assert "/" + segment == [] + ['/'] + segment;
      SplitFreeHead([], segment, '/');
      SplitFree(segment, '/');
    }
    var path := "/" + segment + "/" + rest;
    var parts := Split(path, '/');
    assert parts == ["", segment] + Split(rest, '/') by {
      assert path == [] + ['/'] + (segment + ['/'] + rest);
      SplitFreeHead([], segment + ['/'] + rest, '/');
      SplitFreeHead(segment, rest, '/');
    }
    var inner := parts[1..|parts| - 1];
    assert inner == [segment] + inner[1..];
    assert Filter(IsSegment, inner)[0] == segment;
  }

  /** A non-empty path without '/' has no second part to shift. */
  lemma ShiftPathInfoNoSlash(pathInfo: string)
    requires pathInfo != "" && '/' !in pathInfo
    ensures ShiftPathInfo(pathInfo) == Raised(IndexError)
  {
    SplitFree(pathInfo, '/');
  }

  // ------------------------------------------------------ the application

  /** `anscombe_filter(set_id, raw_data)`: the named series, `KeyError` if there is none. */
  function AnscombeFilter(setId: string, rawData: map<string, seq<Pair<int>>>): (r: Outcome<seq<Pair<int>>>)
    ensures r.Ok? <==> setId in rawData
    ensures r.Ok? ==> r.value == rawData[setId]
    ensures r.Raised? ==> r.exc == KeyError
  {
    if setId in rawData then Ok(rawData[setId]) else Raised(KeyError)
  }

  /** A WSGI response: status line, headers and the one body chunk. */
  datatype Response = Response(status: string, headers: seq<(string, string)>, body: seq<Byte>)

  /** `error_page` has no placeholders, so substituting into it leaves its text. */
  const ErrorPage := "Some_HTML_template"

  function Respond(status: string, mime: string, content: seq<Byte>): Response
  {
    Response(status, [("Content-Type", mime), ("Content-Length", IntToString(|content|))], content)
  }

  /**
   * `wsgi_anscombe_app`: any exception (no match, no `form` query value, an
   * unknown dataset) becomes the 404 error page.  `form` is the first
   * `form` value of the parsed query string; `rawData` is what
   * `read_raw_data()` returns.
   */
  function AnscombeApp(pathInfo: string, form: Option<string>, rawData: map<string, seq<Pair<int>>>,
                       xml: (string, seq<Pair<int>>) -> seq<Byte>,
                       html: (string, seq<Pair<int>>) -> string): Response
  {
    var notFound := Respond("404 NOT FOUND", "text/html", Utf8(ErrorPage));
    match UrlDataset(pathInfo)
    case None => notFound
    case Some(dataset) =>
      var setId := Upper(dataset);
      if form.None? then notFound
      else
        match AnscombeFilter(setId, rawData)
        case Raised(_) => notFound
        case Ok(series) =>
          var (content, mime) := WriteSerializedData(form.value, setId, series, xml, html);
          Respond("200 OK", mime, content)
  }

  /**
   * The service answers 200 exactly when the path names a dataset, a format
   * is given and the upper-cased id is known, and then it sends that
   * series serialized as the format asks; otherwise it sends the error page
   * as HTML with 404.  Content-Length always counts the body's bytes.
   */
  lemma AnscombeAppSpec(pathInfo: string, form: Option<string>, rawData: map<string, seq<Pair<int>>>,
                        xml: (string, seq<Pair<int>>) -> seq<Byte>,
                        html: (string, seq<Pair<int>>) -> string)
    ensures var r := AnscombeApp(pathInfo, form, rawData, xml, html);
      r.headers == [("Content-Type", r.headers[0].1), ("Content-Length", IntToString(|r.body|))]
    ensures var r := AnscombeApp(pathInfo, form, rawData, xml, html);
      r.status == "200 OK" <==> UrlDataset(pathInfo).Some? && form.Some? && Upper(UrlDataset(pathInfo).value) in rawData
    ensures var r := AnscombeApp(pathInfo, form, rawData, xml, html);
      r.status == "200 OK" ==>
        var setId := Upper(UrlDataset(pathInfo).value);
        (r.body, r.headers[0].1) == WriteSerializedData(form.value, setId, rawData[setId], xml, html)
    ensures var r := AnscombeApp(pathInfo, form, rawData, xml, html);
      r.status != "200 OK" ==> r.status == "404 NOT FOUND" && r.headers[0].1 == "text/html" && r.body == Utf8(ErrorPage)
  {
  }

  /** Two paths whose ids differ only in ASCII case get the same response. */
  lemma AnscombeAppIgnoresIdCase(p1: string, p2: string, form: Option<string>, rawData: map<string, seq<Pair<int>>>,
                                 xml: (string, seq<Pair<int>>) -> seq<Byte>,
                                 html: (string, seq<Pair<int>>) -> string)
    requires UrlDataset(p1).Some? && UrlDataset(p2).Some?
    requires Upper(UrlDataset(p1).value) == Upper(UrlDataset(p2).value)
    ensures AnscombeApp(p1, form, rawData, xml, html) == AnscombeApp(p2, form, rawData, xml, html)
  {
  }

  // ------------------------------------------------------------- doctests

  lemma SmallIntText(i: int)
    requires 0 <= i < 10
    ensures IntToString(i) == [DigitChar(i)]
  {
  }

  lemma JoinTwo(a: string, b: string, sep: string)
    ensures Join([a, b], sep) == a + sep + b
  {
    assert [a, b][1..] == [b];
  }

  lemma FlattenThree<T>(a: seq<T>, b: seq<T>, c: seq<T>)
    ensures Flatten([a, b, c]) == a + b + c
  {
    assert Flatten([c]) == c by {
      assert [c][1..] == [];
    }
    assert Flatten([b, c]) == b + c by {
      assert [b, c][1..] == [c];
    }
    assert [a, b, c][1..] == [b, c];
  }

  /** The JSON object of a pair, from the texts of its numbers. */
  lemma JsonObjectText(p: Pair<int>, xs: string, ys: string)
    requires IntToString(p.x) == xs && IntToString(p.y) == ys
    ensures JsonObject(p) == "{\"x\": " + xs + ", \"y\": " + ys + "}"
  {
  }

  /** The doctest of `serialize_json`. */
  lemma SerializeJsonDoctest(data: seq<Pair<int>>)
    requires data == [Pair(2, 3), Pair(5, 7)]
    ensures SerializeJsonText(data) == "[" + "{\"x\": 2, \"y\": 3}" + ", " + "{\"x\": 5, \"y\": 7}" + "]"
  {
    assert IntToString(2) == "2" && IntToString(3) == "3" && IntToString(5) == "5" && IntToString(7) == "7" by {
      SmallIntText(2);
      SmallIntText(3);
      SmallIntText(5);
      SmallIntText(7);
    }
    var o1, o2 := JsonObject(data[0]), JsonObject(data[1]);
    assert o1 == "{\"x\": 2, \"y\": 3}" by {
      JsonObjectText(data[0], "2", "3");
    }
    assert o2 == "{\"x\": 5, \"y\": 7}" by {
      JsonObjectText(data[1], "5", "7");
    }
    assert Map(JsonObject, data) == [o1, o2];
    JoinTwo(o1, o2, ", ");
  }

  /** The doctest of `serialize_csv`. */
  lemma SerializeCsvDoctest(data: seq<Pair<int>>)
    requires data == [Pair(2, 3), Pair(5, 7)]
    ensures SerializeCsvText(data) == "x,y\r\n2,3\r\n5,7\r\n"
  {
    var r1, r2 := CsvRow(data[0]), CsvRow(data[1]);
    assert r1 == "2,3" by {
      SmallIntText(2);
      SmallIntText(3);
    }
    assert r2 == "5,7" by {
      SmallIntText(5);
      SmallIntText(7);
    }
    var lines := [CsvHeader] + Map(CsvRow, data);
    assert lines == [CsvHeader, r1, r2];
    assert Map(Crlf, lines) == [Crlf(CsvHeader), Crlf(r1), Crlf(r2)];
    FlattenThree(Crlf(CsvHeader), Crlf(r1), Crlf(r2));
  }

  /** Lower-casing leaves text without capitals alone. */
  lemma LowerNoCapitals(s: string)
    requires forall i :: 0 <= i < |s| ==> !('A' <= s[i] <= 'Z')
    ensures Lower(s) == s
  {
  }

  /** The doctest of `write_serialized_data` with the "json" format. */
  lemma WriteSerializedDataDoctest(data: seq<Pair<int>>, format: string,
                                   xml: (string, seq<Pair<int>>) -> seq<Byte>,
                                   html: (string, seq<Pair<int>>) -> string)
    requires data == [Pair(2, 3), Pair(5, 7)] && format == "json"
    ensures WriteSerializedData(format, "test", data, xml, html)
         == (Utf8("[" + "{\"x\": 2, \"y\": 3}" + ", " + "{\"x\": 5, \"y\": 7}" + "]"), "application/json")
  {
    assert Lower(format) == "json" by {
      LowerNoCapitals(format);
    }
    WriteSerializedDataDispatch(format, "test", data, xml, html);
    SerializeJsonDoctest(data);
  }

  /** "/demo/..." reaches the demo application; the Anscombe paths are not in the map and get the welcome one. */
  lemma RoutingExamples(rest: string)
    ensures Routing("/demo/" + rest) == Ok(DemoApp)
    ensures Routing("/anscombe/" + rest) == Ok(WelcomeApp)
  {
    ShiftPathInfoFirstSegment("demo", rest);
    assert "/demo/" + rest == "/" + "demo" + "/" + rest;
    ShiftPathInfoFirstSegment("anscombe", rest);
    assert "/anscombe/" + rest == "/" + "anscombe" + "/" + rest;
  }
}
