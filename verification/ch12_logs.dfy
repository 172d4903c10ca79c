/**
 * Chapter 12, the web-log analysis pipeline: access records are expanded
 * into details (`parse_request`), uninteresting paths are removed
 * (`remove_fields`), book pages are selected (`isthere_book_in_path`) and
 * counted per path (`reduce_book_total`). The regular expressions, the time
 * parser and `urlparse` are library code: an access record arrives with its
 * fields already split out, the time check and the URL-to-path step are
 * parameters.
 */
module Ch12Logs {
  import opened Py

  // ------------------------------------------------------------ splitting

  /**
   * Splitting at every character that satisfies `sep`, keeping the empty
   * pieces: `s.split('/')` when `sep` is the slash.
   */
  function SplitOn(s: string, sep: char -> bool): (r: seq<string>)
    ensures |r| > 0
  {
    if |s| == 0 then [""]
    else
      var rest := SplitOn(s[1..], sep);
      if sep(s[0]) then [""] + rest else [[s[0]] + rest[0]] + rest[1..]
  }

  predicate NoSep(s: string, sep: char -> bool)
  {
    forall i :: 0 <= i < |s| ==> !sep(s[i])
  }

  /** No piece of a split contains a separator. */
  lemma {:induction false} SplitOnPiecesClean(s: string, sep: char -> bool)
    ensures forall i :: 0 <= i < |SplitOn(s, sep)| ==> NoSep(SplitOn(s, sep)[i], sep)
  {
    if |s| > 0 {
      SplitOnPiecesClean(s[1..], sep);
      var rest := SplitOn(s[1..], sep);
      if !sep(s[0]) {
        assert NoSep([s[0]] + rest[0], sep);
      }
    }
  }

  /** A separator-free prefix joins the first piece. */
  lemma {:induction false} SplitOnPrefix(p: string, t: string, sep: char -> bool)
    requires NoSep(p, sep)
    ensures SplitOn(p + t, sep) == [p + SplitOn(t, sep)[0]] + SplitOn(t, sep)[1..]
  {
    var st := SplitOn(t, sep);
    if |p| > 0 {
      SplitOnPrefix(p[1..], t, sep);
      assert (p + t)[1..] == p[1..] + t;
      assert (p + t)[0] == p[0] && !sep(p[0]);
      var r := SplitOn(p[1..] + t, sep);
      assert r == [p[1..] + st[0]] + st[1..];
      assert r[0] == p[1..] + st[0] && r[1..] == st[1..];
      assert SplitOn(p + t, sep) == [[p[0]] + r[0]] + r[1..];
      assert [p[0]] + (p[1..] + st[0]) == p + st[0];
    } else {
      assert p + t == t && p + st[0] == st[0];
      assert [st[0]] + st[1..] == st;
    }
  }

  /** Splitting a join gives back the pieces, when none holds a separator. */
  lemma {:induction false} SplitOnJoin(pieces: seq<string>, sep: char -> bool, d: char)
    requires |pieces| > 0 && sep(d)
    requires forall i :: 0 <= i < |pieces| ==> NoSep(pieces[i], sep)
    ensures SplitOn(Join(pieces, [d]), sep) == pieces
  {
    var p := pieces[0];
    if |pieces| == 1 {
      SplitOnPrefix(p, "", sep);
      assert p + "" == p;
    } else {
      var j := Join(pieces[1..], [d]);
      SplitOnJoin(pieces[1..], sep, d);
      assert ([d] + j)[1..] == j;
      assert SplitOn([d] + j, sep) == [""] + pieces[1..];
      SplitOnPrefix(p, [d] + j, sep);
      var st := SplitOn([d] + j, sep);
      assert st[0] == "" && st[1..] == pieces[1..];
      assert p + st[0] == p;
      assert Join(pieces, [d]) == p + ([d] + j);
      assert [p] + pieces[1..] == pieces;
    }
  }

  lemma JoinConsHead(a: string, b: string, tail: seq<string>, d: char)
    ensures Join([a + b] + tail, [d]) == a + Join([b] + tail, [d])
  {
    if |tail| > 0 {
      assert ([a + b] + tail)[1..] == tail;
      assert ([b] + tail)[1..] == tail;
    }
  }

  /** Joining the pieces of a split with the one separator gives back the text. */
  lemma {:induction false} JoinSplitOn(s: string, d: char)
    ensures Join(SplitOn(s, c => c == d), [d]) == s
  {
    var sep := c => c == d;
    if |s| > 0 {
      JoinSplitOn(s[1..], d);
      var rest := SplitOn(s[1..], sep);
      if s[0] == d {
        assert ([""] + rest)[1..] == rest;
        assert Join([""] + rest, [d]) == [d] + Join(rest, [d]) by {
          if |rest| == 1 {
            assert Join(rest, [d]) == rest[0];
          }
        }
        assert s == [d] + s[1..];
      } else {
        assert [[s[0]] + rest[0]] + rest[1..] == [[s[0]] + rest[0]] + rest[1..];
        JoinConsHead([s[0]], rest[0], rest[1..], d);
        assert [rest[0]] + rest[1..] == rest;
        assert s == [s[0]] + s[1..];
      }
    }
  }

  /** The pieces of a split, run together, are the text without its separators. */
  lemma {:induction false} SplitOnFlatten(s: string, sep: char -> bool, keep: char -> bool)
    requires forall c :: keep(c) == !sep(c)
    ensures Flatten(SplitOn(s, sep)) == Filter(keep, s)
  {
    if |s| > 0 {
      SplitOnFlatten(s[1..], sep, keep);
      var rest := SplitOn(s[1..], sep);
      FlattenCons(rest[0], rest[1..]);
      assert [rest[0]] + rest[1..] == rest;
      if sep(s[0]) {
        FlattenCons("", rest);
      } else {
        FlattenCons([s[0]] + rest[0], rest[1..]);
      }
    }
  }

  // --------------------------------------------------------- parse_request

  predicate NonEmpty(s: string) { |s| > 0 }

  /** `request.split()` is the split at every whitespace character with the empty pieces dropped. */
  lemma {:induction false} WordsIsSplitOn(s: string)
    ensures Words(s) == Filter(NonEmpty, SplitOn(s, IsSpace))
  {
    if |s| > 0 {
      WordsIsSplitOn(s[1..]);
      var r := SplitOn(s[1..], IsSpace);
      if !IsSpace(s[0]) {
        if |s| > 1 && !IsSpace(s[1]) {
          assert r[0] == [s[1]] + SplitOn(s[2..], IsSpace)[0] by {
            assert s[1..][1..] == s[2..];
          }
          assert Filter(NonEmpty, r) == [r[0]] + Filter(NonEmpty, r[1..]) by {
            assert r == [r[0]] + r[1..];
          }
        } else if |s| > 1 {
          assert r == [""] + SplitOn(s[2..], IsSpace) by {
            assert s[1..][1..] == s[2..];
          }
          assert r[0] == "" && Filter(NonEmpty, r) == Filter(NonEmpty, r[1..]) by {
            assert r == [r[0]] + r[1..];
          }
          var split := SplitOn(s, IsSpace);
          assert [s[0]] + r[0] == [s[0]];
          assert split == [[s[0]]] + r[1..];
          assert split[1..] == r[1..];
        } else {
          assert s[1..] == "" && r == [""];
          assert [s[0]] + r[0] == [s[0]];
          assert SplitOn(s, IsSpace) == [[s[0]]];
        }
      }
    }
  }

  /** An access log record, as the CLF pattern's named groups give it. */
  datatype Access = Access(
    host: string, identity: string, user: string, time: string,
    request: string, status: string, bytes: string, userAgent: string)

  /** The request line: method, url and protocol. */
  datatype Request = Request(meth: string, url: string, protocol: string)

  /**
   * `parse_request`: the first word, the middle words joined by single
   * spaces, and the last word; a request without words has no `words[0]`.
   */
  function ParseRequest(request: string): (r: Outcome<Request>)
    ensures r.Raised? <==> |Words(request)| == 0
    ensures r.Raised? ==> r.exc == IndexError
  {
    var words := Words(request);
    if |words| == 0 then Raised(IndexError)
    else
      var middle := if |words| >= 2 then words[1..|words| - 1] else [];
      Ok(Request(words[0], Join(middle, " "), words[|words| - 1]))
  }

  predicate IsWord(w: string)
  {
    |w| > 0 && NoSep(w, IsSpace)
  }

  /** `" ".join(words).split()` gives back the words. */
  lemma WordsOfJoin(ws: seq<string>)
    requires |ws| > 0 && forall i :: 0 <= i < |ws| ==> IsWord(ws[i])
    ensures Words(Join(ws, " ")) == ws
  {
    WordsIsSplitOn(Join(ws, " "));
    SplitOnJoin(ws, IsSpace, ' ');
    FilterKeepsAll(NonEmpty, ws);
  }

  lemma {:induction false} FilterKeepsAll<T>(p: T -> bool, s: seq<T>)
    requires forall i :: 0 <= i < |s| ==> p(s[i])
    ensures Filter(p, s) == s
  {
    if |s| > 0 {
      FilterKeepsAll(p, s[1..]);
      assert s == [s[0]] + s[1..];
    }
  }

  /**
   * A request line written as method, the url's words and protocol, with
   * single spaces, parses back into exactly those parts.
   */
  lemma ParseRequestRoundTrip(meth: string, urlWords: seq<string>, protocol: string)
    requires IsWord(meth) && IsWord(protocol)
    requires forall i :: 0 <= i < |urlWords| ==> IsWord(urlWords[i])
    ensures ParseRequest(Join([meth] + urlWords + [protocol], " "))
         == Ok(Request(meth, Join(urlWords, " "), protocol))
  {
    var ws := [meth] + urlWords + [protocol];
    assert Words(Join(ws, " ")) == ws by {
      forall i | 0 <= i < |ws| ensures IsWord(ws[i]) {
        if 0 < i < |ws| - 1 {
          assert ws[i] == urlWords[i - 1];
        }
      }
      WordsOfJoin(ws);
    }
    assert ws[0] == meth && ws[|ws| - 1] == protocol && ws[1..|ws| - 1] == urlWords;
  }

  // -------------------------------------------------- access details

  /** An access with its request expanded; the url is reduced to its path. */
  datatype AccessDetails = AccessDetails(access: Access, meth: string, path: string, protocol: string)

  /**
   * `convert_to_accessdetail_tuple`.  Its argument comes from the `map`
   * version of `convert_to_access_tuples`, which gives None for a line the
   * log pattern rejects; `None.request` raises `AttributeError`.  An
   * `IndexError` from `parse_request` escapes as well; a time that does not
   * parse raises `ValueError`, which is caught and turns the result into None.
   */
  function ConvertToAccessDetail(record: Option<Access>, timeParses: string -> bool, urlPath: string -> string)
    : (r: Outcome<Option<AccessDetails>>)
    ensures r.Raised? <==> !WellFormed(record)
    ensures r.Raised? ==> r.exc == (if record.None? then AttributeError else IndexError)
    ensures r.Ok? && r.value.Some? ==> record == Some(r.value.value.access)
  {
    if record.None? then Raised(AttributeError)
    else
      var access := record.value;
      var req :- ParseRequest(access.request);
      if !timeParses(access.time) then Ok(None)
      else Ok(Some(AccessDetails(access, req.meth, urlPath(req.url), req.protocol)))
  }

  /** A record the pattern matched, whose request line has at least one word. */
  predicate WellFormed(record: Option<Access>)
  {
    record.Some? && |Words(record.value.request)| > 0
  }

  /** `filter(None, map(convert_to_accessdetail_tuple, iterable))`, drained. */
  function ConvertToAccessDetails(records: seq<Option<Access>>, timeParses: string -> bool, urlPath: string -> string)
    : Outcome<seq<AccessDetails>>
  {
    if |records| == 0 then Ok([])
    else
      var head :- ConvertToAccessDetail(records[0], timeParses, urlPath);
      var tail :- ConvertToAccessDetails(records[1..], timeParses, urlPath);
      Ok(if head.Some? then [head.value] + tail else tail)
  }

  /**
   * The conversion fails exactly when some record is not well formed, with
   * the exception of the first such record; otherwise it keeps, in order,
   * one detail for each record whose time parses.
   */
  lemma ConvertToAccessDetailsSpec(records: seq<Option<Access>>, timeParses: string -> bool, urlPath: string -> string)
    ensures ConvertToAccessDetails(records, timeParses, urlPath).Ok? <==>
              forall i :: 0 <= i < |records| ==> WellFormed(records[i])
    ensures ConvertToAccessDetails(records, timeParses, urlPath).Raised? ==>
              FirstFailure(records, ConvertToAccessDetails(records, timeParses, urlPath).exc)
    ensures ConvertToAccessDetails(records, timeParses, urlPath).Ok? ==>
              Map(AccessOf, ConvertToAccessDetails(records, timeParses, urlPath).value)
              == Filter((a: Option<Access>) => a.Some? && timeParses(a.value.time), records)
  {
    ConvertToAccessDetailsOk(records, timeParses, urlPath);
    if ConvertToAccessDetails(records, timeParses, urlPath).Ok? {
      ConvertToAccessDetailsKeeps(records, timeParses, urlPath);
    }
  }

  /**
   * Some record is not well formed, every one before it is, and `exc` is what
   * that record raises: AttributeError for None, IndexError for a request
   * without words.
   */
  predicate FirstFailure(records: seq<Option<Access>>, exc: Exc)
  {
    exists i :: 0 <= i < |records| && !WellFormed(records[i]) &&
      (forall j :: 0 <= j < i ==> WellFormed(records[j])) &&
      exc == (if records[i].None? then AttributeError else IndexError)
  }

  lemma {:induction false} ConvertToAccessDetailsOk(records: seq<Option<Access>>, timeParses: string -> bool, urlPath: string -> string)
    ensures ConvertToAccessDetails(records, timeParses, urlPath).Ok? <==>
              forall i :: 0 <= i < |records| ==> WellFormed(records[i])
    ensures ConvertToAccessDetails(records, timeParses, urlPath).Raised? ==>
              FirstFailure(records, ConvertToAccessDetails(records, timeParses, urlPath).exc)
  {
    if |records| > 0 {
      var r := ConvertToAccessDetails(records, timeParses, urlPath);
      ConvertToAccessDetailsOk(records[1..], timeParses, urlPath);
      assert forall i :: 1 <= i < |records| ==> records[i] == records[1..][i - 1];
      if !WellFormed(records[0]) {
        assert FirstFailure(records, r.exc) by {
          assert r.exc == (if records[0].None? then AttributeError else IndexError);
        }
      } else if r.Raised? {
        var rest := ConvertToAccessDetails(records[1..], timeParses, urlPath);
        assert r.exc == rest.exc;
        var k :| 0 <= k < |records[1..]| && !WellFormed(records[1..][k]) &&
          (forall j :: 0 <= j < k ==> WellFormed(records[1..][j])) &&
          rest.exc == (if records[1..][k].None? then AttributeError else IndexError);
        assert !WellFormed(records[k + 1]) && forall j :: 0 <= j < k + 1 ==> WellFormed(records[j]);
      }
    }
  }

  lemma {:induction false} ConvertToAccessDetailsKeeps(records: seq<Option<Access>>, timeParses: string -> bool, urlPath: string -> string)
    requires ConvertToAccessDetails(records, timeParses, urlPath).Ok?
    ensures Map(AccessOf, ConvertToAccessDetails(records, timeParses, urlPath).value)
            == Filter((a: Option<Access>) => a.Some? && timeParses(a.value.time), records)
  {
    if |records| > 0 {
      var head := ConvertToAccessDetail(records[0], timeParses, urlPath).value;
      var tail := ConvertToAccessDetails(records[1..], timeParses, urlPath).value;
      ConvertToAccessDetailsKeeps(records[1..], timeParses, urlPath);
      if head.Some? {
        assert Map(AccessOf, [head.value] + tail) == [records[0]] + Map(AccessOf, tail);
      }
    }
  }

  function AccessOf(d: AccessDetails): Option<Access> { Some(d.access) }

  // ---------------------------------------------------------- remove_fields

  /** `detail.url.path.split('/')`. */
  function Segments(path: string): (r: seq<string>)
    ensures |r| > 0
  {
    SplitOn(path, IsSlash)
  }

  predicate IsSlash(c: char) { c == '/' }

  predicate NotSlash(c: char) { c != '/' }

  const ExcludedNames: set<string> := {
    "favicon.ico", "robots.txt", "humans.txt", "crossdomain.xml",
    "_images", "search.html", "genindex.html",
    "searchindex.js", "modindex.html", "py-modindex.html"
  }

  const ExcludedExtensions: set<string> := {".png", ".js", ".css"}

  predicate EndsWith(s: string, suffix: string)
  {
    |suffix| <= |s| && s[|s| - |suffix|..] == suffix
  }

  /** `remove_fields`: the loop with its three `continue` tests written inline. */
  function RemoveFields(details: seq<AccessDetails>): seq<AccessDetails>
  {
    if |details| == 0 then []
    else
      var detail := details[0];
      var rest := RemoveFields(details[1..]);
      var path := Segments(detail.path);
      if !(exists i :: 0 <= i < |path| && path[i] != "") then rest
      else if exists i :: 0 <= i < |path| && path[i] in ExcludedNames then rest
      else
        var final := path[|path| - 1];
        if exists ext :: ext in ExcludedExtensions && EndsWith(final, ext) then rest
        else [detail] + rest
  }

  /** `is_nonempty_path`: `any(path)`. */
  predicate IsNonemptyPath(path: seq<string>)
  {
    exists i :: 0 <= i < |path| && |path[i]| > 0
  }

  /** `arethere_excluded_names`. */
  predicate AreThereExcludedNames(path: seq<string>)
  {
    exists i :: 0 <= i < |path| && path[i] in ExcludedNames
  }

  /** `arethere_excluded_extensions`. */
  predicate AreThereExcludedExtensions(s: string)
  {
    exists ext :: ext in ExcludedExtensions && EndsWith(s, ext)
  }

  /** `remove_fields_2`: the same loop through the three named predicates. */
  function RemoveFields2(details: seq<AccessDetails>): seq<AccessDetails>
  {
    if |details| == 0 then []
    else
      var detail := details[0];
      var rest := RemoveFields2(details[1..]);
      var path := Segments(detail.path);
      if !IsNonemptyPath(path) then rest
      else if AreThereExcludedNames(path) then rest
      else if AreThereExcludedExtensions(path[|path| - 1]) then rest
      else [detail] + rest
  }

  /**
   * Whether a detail survives, stated on the path text: it holds some
   * character other than '/', none of its segments is an excluded name, and
   * its last segment has no excluded extension.
   */
  predicate Kept(detail: AccessDetails)
  {
    var path := Segments(detail.path);
    (exists i :: 0 <= i < |detail.path| && detail.path[i] != '/')
    && !AreThereExcludedNames(path)
    && !AreThereExcludedExtensions(path[|path| - 1])
  }

  /** `any(path.split('/'))` holds exactly when the path is not all slashes. */
  lemma NonemptyPathHasNonSlash(p: string)
    ensures IsNonemptyPath(Segments(p)) <==> exists i :: 0 <= i < |p| && p[i] != '/'
  {
    var segs := Segments(p);
    var kept := Filter(NotSlash, p);
    assert Flatten(segs) == kept by {
      SplitOnFlatten(p, IsSlash, NotSlash);
    }
    if IsNonemptyPath(segs) {
      var i :| 0 <= i < |segs| && |segs[i]| > 0;
      assert |kept| > 0 by {
        FlattenHasPiece(segs, i);
      }
      assert NotSlash(kept[0]) && kept[0] in p by {
        FilterSound(NotSlash, p);
      }
    }
    if exists i :: 0 <= i < |p| && p[i] != '/' {
      var i :| 0 <= i < |p| && p[i] != '/';
      assert p[i] in kept by {
        FilterKeeps(NotSlash, p, p[i]);
      }
      if !IsNonemptyPath(segs) {
        FlattenEmpty(segs);
        assert false;
      }
    }
  }

  lemma {:induction false} FlattenHasPiece<T>(pieces: seq<seq<T>>, i: int)
    requires 0 <= i < |pieces| && |pieces[i]| > 0
    ensures |Flatten(pieces)| > 0
  {
    FlattenCons(pieces[0], pieces[1..]);
    assert [pieces[0]] + pieces[1..] == pieces;
    if i > 0 {
      FlattenHasPiece(pieces[1..], i - 1);
    }
  }

  lemma {:induction false} FlattenEmpty<T>(pieces: seq<seq<T>>)
    requires forall i :: 0 <= i < |pieces| ==> |pieces[i]| == 0
    ensures Flatten(pieces) == []
  {
    if |pieces| > 0 {
      FlattenCons(pieces[0], pieces[1..]);
      assert [pieces[0]] + pieces[1..] == pieces;
      FlattenEmpty(pieces[1..]);
    }
  }

  /**
   * `remove_fields` keeps exactly the details that pass the three tests, in
   * their input order, and `remove_fields_2` does the same.
   */
  lemma {:induction false} RemoveFieldsSpec(details: seq<AccessDetails>)
    ensures RemoveFields(details) == Filter(Kept, details)
    ensures RemoveFields2(details) == RemoveFields(details)
  {
    if |details| > 0 {
      RemoveFieldsSpec(details[1..]);
      var path := Segments(details[0].path);
      NonemptyPathHasNonSlash(details[0].path);
      assert IsNonemptyPath(path) <==> exists i :: 0 <= i < |path| && path[i] != "";
    }
  }

  /** Every detail `remove_fields` yields has a non-empty segment. */
  lemma RemoveFieldsNonempty(details: seq<AccessDetails>)
    ensures forall i :: 0 <= i < |RemoveFields(details)| ==>
              IsNonemptyPath(Segments(RemoveFields(details)[i].path))
  {
    RemoveFieldsSpec(details);
    FilterSound(Kept, details);
    forall i | 0 <= i < |RemoveFields(details)|
      ensures IsNonemptyPath(Segments(RemoveFields(details)[i].path))
    {
      NonemptyPathHasNonSlash(RemoveFields(details)[i].path);
    }
  }

  // ------------------------------------------------------------ filter_books

  /**
   * `isthere_book_in_path`: the first non-empty segment is "book" and there
   * is a second one; a path with no non-empty segment has no `paths[0]`.
   */
  function IsThereBookInPath(detail: AccessDetails): (r: Outcome<bool>)
    ensures r.Raised? <==> !IsNonemptyPath(Segments(detail.path))
    ensures r.Raised? ==> r.exc == IndexError
  {
    var paths := Filter(NonEmpty, Segments(detail.path));
    FilterNonEmptyIff(Segments(detail.path));
    if |paths| == 0 then Raised(IndexError)
    else Ok(paths[0] == "book" && |paths| > 1)
  }

  lemma {:induction false} FilterNonEmptyIff(segs: seq<string>)
    ensures |Filter(NonEmpty, segs)| > 0 <==> IsNonemptyPath(segs)
  {
    if |segs| > 0 {
      FilterNonEmptyIff(segs[1..]);
      if IsNonemptyPath(segs) && |segs[0]| == 0 {
        var i :| 0 <= i < |segs| && |segs[i]| > 0;
        assert |segs[1..][i - 1]| > 0;
      }
      if IsNonemptyPath(segs[1..]) {
        var i :| 0 <= i < |segs[1..]| && |segs[1..][i]| > 0;
        assert |segs[i + 1]| > 0;
      }
    }
  }

  /** `filter(isthere_book_in_path, iterable)`, drained: the first `IndexError` escapes. */
  function FilterBooks(details: seq<AccessDetails>): (r: Outcome<seq<AccessDetails>>)
    ensures r.Ok? <==> forall i :: 0 <= i < |details| ==> IsThereBookInPath(details[i]).Ok?
  {
    if |details| == 0 then Ok([])
    else
      var keep :- IsThereBookInPath(details[0]);
      var rest :- FilterBooks(details[1..]);
      assert forall i :: 1 <= i < |details| ==> details[i] == details[1..][i - 1];
      Ok(if keep then [details[0]] + rest else rest)
  }

  /** After `remove_fields`, selecting the book pages cannot fail. */
  lemma FilterBooksAfterRemoveFields(details: seq<AccessDetails>)
    ensures FilterBooks(RemoveFields(details)).Ok?
  {
    RemoveFieldsNonempty(details);
  }

  lemma BookInPathOn(detail: AccessDetails, paths: seq<string>)
    requires Filter(NonEmpty, Segments(detail.path)) == paths && |paths| > 0
    ensures IsThereBookInPath(detail) == Ok(paths[0] == "book" && |paths| > 1)
  {
  }

  /** "/book/index.html" is a book page. */
  lemma BookPageExample(detail: AccessDetails)
    requires detail.path == "/book/index.html"
    ensures IsThereBookInPath(detail) == Ok(true)
  {
    var paths := ["book", "index.html"];
    var segs := [""] + paths;
    assert Segments(detail.path) == segs by {
      assert Join(paths, "/") == "book/index.html" by {
        assert paths[1..] == ["index.html"];
      }
      assert Join(segs, "/") == "/book/index.html" by {
        assert segs[1..] == paths;
      }
      assert NoSep("index.html", IsSlash) && NoSep("book", IsSlash);
      SplitOnJoin(segs, IsSlash, '/');
    }
    assert Filter(NonEmpty, Segments(detail.path)) == paths by {
      FilterKeepsAll(NonEmpty, paths);
    }
    BookInPathOn(detail, paths);
  }

  /** "/book" alone has one non-empty segment, so it is no book page. */
  lemma BookRootExample(detail: AccessDetails)
    requires detail.path == "/book"
    ensures IsThereBookInPath(detail) == Ok(false)
  {
    var segs := ["", "book"];
    assert Segments(detail.path) == segs by {
      SplitOnJoin(segs, IsSlash, '/');
      assert Join(segs, "/") == "/book";
    }
    var paths := ["book"];
    assert Filter(NonEmpty, Segments(detail.path)) == paths by {
      assert segs == [""] + paths;
      FilterKeepsAll(NonEmpty, paths);
    }
    assert paths[0] == "book" && (|paths| > 1) == false;
    BookInPathOn(detail, paths);
  }

  // ------------------------------------------------------- reduce_book_total

  /** How many details have the given path. */
  function CountPath(details: seq<AccessDetails>, p: string): nat
  {
    |Filter((d: AccessDetails) => d.path == p, details)|
  }

  function PathOf(d: AccessDetails): string { d.path }

  /** `reduce_book_total`: `counts[detail.url.path] += 1` on a `Counter`, detail by detail. */
  function ReduceBookTotal(details: seq<AccessDetails>): (counts: map<string, nat>)
    ensures forall p :: p in counts <==> p in Map(PathOf, details)
  {
    if |details| == 0 then map[]
    else
      var counts := ReduceBookTotal(details[..|details| - 1]);
      var p := details[|details| - 1].path;
      MapSnoc(PathOf, details);
      counts[p := (if p in counts then counts[p] else 0) + 1]
  }

  lemma MapSnoc<T, U>(f: T -> U, s: seq<T>)
    requires |s| > 0
    ensures Map(f, s) == Map(f, s[..|s| - 1]) + [f(s[|s| - 1])]
  {
    assert s == s[..|s| - 1] + [s[|s| - 1]];
    MapAppend(f, s[..|s| - 1], [s[|s| - 1]]);
  }

  lemma {:induction false} MapAppend<T, U>(f: T -> U, a: seq<T>, b: seq<T>)
    ensures Map(f, a + b) == Map(f, a) + Map(f, b)
  {
    if |a| > 0 {
      MapAppend(f, a[1..], b);
      assert (a + b)[1..] == a[1..] + b;
    } else {
      assert a + b == b;
    }
  }

  /** Every path's count is the number of details with that path. */
  lemma {:induction false} ReduceBookTotalCounts(details: seq<AccessDetails>)
    ensures forall p :: p in ReduceBookTotal(details) ==> ReduceBookTotal(details)[p] == CountPath(details, p)
    ensures forall p :: p !in ReduceBookTotal(details) ==> CountPath(details, p) == 0
  {
    if |details| > 0 {
      var front := details[..|details| - 1];
      var last := details[|details| - 1];
      ReduceBookTotalCounts(front);
      assert details == front + [last];
      forall p ensures CountPath(details, p) == CountPath(front, p) + (if last.path == p then 1 else 0)
      {
        FilterAppend((d: AccessDetails) => d.path == p, front, [last]);
        FilterSingle((d: AccessDetails) => d.path == p, last);
      }
    }
  }

  /** The counts over the distinct paths add up to the number of details. */
  lemma CountsSumToTotal(details: seq<AccessDetails>, paths: seq<string>)
    requires forall i, j :: 0 <= i < j < |paths| ==> paths[i] != paths[j]
    requires forall i :: 0 <= i < |details| ==> details[i].path in paths
    ensures Sum(Map(CountOf(details), paths)) == |details|
  {
    CountsSumToTotalFrom(details, paths);
  }

  lemma {:induction false} CountsSumToTotalFrom(details: seq<AccessDetails>, paths: seq<string>)
    requires forall i, j :: 0 <= i < j < |paths| ==> paths[i] != paths[j]
    requires forall i :: 0 <= i < |details| ==> details[i].path in paths
    ensures Sum(Map(CountOf(details), paths)) == |details|
  {
    if |details| == 0 {
      SumZeros(Map(CountOf(details), paths));
    } else {
      var d := details[0];
      var rest := details[1..];
      var f := CountOf(details);
      var g := CountOf(rest);
      var h := Indicator(d.path);
      assert Sum(Map(g, paths)) == |rest| by {
        CountsSumToTotalFrom(rest, paths);
      }
      assert Sum(Map(h, paths)) == 1 by {
        SumIndicator(paths, d.path);
      }
      assert Sum(Map(f, paths)) == Sum(Map(g, paths)) + Sum(Map(h, paths)) by {
        forall p ensures f(p) == g(p) + h(p) {
          CountPathCons(details, p);
        }
        SumMapPlus(f, g, h, paths);
      }
    }
  }

  /** The per-path counts as a function, the `Counter` read with a default of 0. */
  function CountOf(details: seq<AccessDetails>): string -> int
  {
    p => CountPath(details, p)
  }

  function Indicator(q: string): string -> int
  {
    p => if q == p then 1 else 0
  }

  lemma CountPathCons(details: seq<AccessDetails>, p: string)
    requires |details| > 0
    ensures CountPath(details, p) == (if details[0].path == p then 1 else 0) + CountPath(details[1..], p)
  {
  }

  lemma {:induction false} SumZeros(s: seq<int>)
    requires forall i :: 0 <= i < |s| ==> s[i] == 0
    ensures Sum(s) == 0
  {
    if |s| > 0 {
      SumZeros(s[..|s| - 1]);
    }
  }

  /** Summing a pointwise sum splits into two sums. */
  lemma {:induction false} SumMapPlus<T>(f: T -> int, g: T -> int, h: T -> int, s: seq<T>)
    requires forall x :: f(x) == g(x) + h(x)
    ensures Sum(Map(f, s)) == Sum(Map(g, s)) + Sum(Map(h, s))
  {
    if |s| > 0 {
      var front := s[..|s| - 1];
      SumMapPlus(f, g, h, front);
      MapSnoc(f, s);
      MapSnoc(g, s);
      MapSnoc(h, s);
      assert (Map(f, front) + [f(s[|s| - 1])])[..|s| - 1] == Map(f, front);
      assert (Map(g, front) + [g(s[|s| - 1])])[..|s| - 1] == Map(g, front);
      assert (Map(h, front) + [h(s[|s| - 1])])[..|s| - 1] == Map(h, front);
    }
  }

  /** Over distinct keys, the indicator of a present key sums to one. */
  lemma {:induction false} SumIndicator(paths: seq<string>, q: string)
    requires forall i, j :: 0 <= i < j < |paths| ==> paths[i] != paths[j]
    requires q in paths
    ensures Sum(Map(Indicator(q), paths)) == 1
  {
    var h := Indicator(q);
    var front := paths[..|paths| - 1];
    var last := paths[|paths| - 1];
    MapSnoc(h, paths);
    assert (Map(h, front) + [h(last)])[..|paths| - 1] == Map(h, front);
    if last == q {
      assert q !in front;
      forall i | 0 <= i < |front| ensures Map(h, front)[i] == 0 {
        assert front[i] != q;
      }
      SumZeros(Map(h, front));
    } else {
      assert q in front by {
        assert paths == front + [last];
      }
      SumIndicator(front, q);
    }
  }

  // ---------------------------------------------------------- run_analysis

  /**
   * `run_analysis` on what the log lines parse to (None for a line the
   * pattern rejects): details, minus uninteresting paths, restricted to book
   * pages, counted per path.
   */
  function RunAnalysis(records: seq<Option<Access>>, timeParses: string -> bool, urlPath: string -> string)
    : Outcome<map<string, nat>>
  {
    var details :- ConvertToAccessDetails(records, timeParses, urlPath);
    var books :- FilterBooks(RemoveFields(details));
    Ok(ReduceBookTotal(books))
  }

  /**
   * The pipeline fails exactly when some log line is rejected by the pattern
   * or has a request line without words, and then with the exception of the
   * first such line; book selection never fails on what `remove_fields` lets
   * through.
   */
  lemma RunAnalysisFails(records: seq<Option<Access>>, timeParses: string -> bool, urlPath: string -> string)
    ensures RunAnalysis(records, timeParses, urlPath).Ok? <==>
              forall i :: 0 <= i < |records| ==> WellFormed(records[i])
    ensures RunAnalysis(records, timeParses, urlPath).Raised? ==>
              FirstFailure(records, RunAnalysis(records, timeParses, urlPath).exc)
  {
    ConvertToAccessDetailsSpec(records, timeParses, urlPath);
    var details := ConvertToAccessDetails(records, timeParses, urlPath);
    if details.Ok? {
      FilterBooksAfterRemoveFields(details.value);
    }
  }
}
