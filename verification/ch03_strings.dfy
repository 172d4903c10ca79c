/**
 * Chapter 3, strings as immutable objects: `str.replace` as a prefix function,
 * the recursive character remover `remove`, and three ways of cleaning "$" and
 * "," out of a currency string before converting it to a Decimal.
 */
module Ch03Strings {
  import opened Py

  /** Python's `text.replace(a, b)`: every non-overlapping `a`, left to right. */
  function Replace(text: string, a: string, b: string): string
    decreases |text|
  {
    if |a| == 0 then ReplaceEmpty(text, b)
    else if |text| < |a| then text
    else if text[..|a|] == a then b + Replace(text[|a|..], a, b)
    else [text[0]] + Replace(text[1..], a, b)
  }

  /** `text.replace("", b)` puts `b` before every character and at the end. */
  function ReplaceEmpty(text: string, b: string): string
  {
    if |text| == 0 then b else b + [text[0]] + ReplaceEmpty(text[1..], b)
  }

  /** The characters not in `cs`. */
  function NotIn(cs: string): char -> bool
  {
    c => c !in cs
  }

  /** Replacing a single character by "" deletes all its occurrences. */
  lemma {:induction false} ReplaceCharByNothing(text: string, c: char)
    ensures Replace(text, [c], "") == Filter(NotIn([c]), text)
  {
    if |text| > 0 {
      ReplaceCharByNothing(text[1..], c);
      if text[0] == c {
        assert text[..1] == [c];
      } else {
        assert text[..1] != [c];
      }
    }
  }

  /** `remove(text, characters)`: replaces each listed character by "" in turn. */
  function Remove(text: string, characters: string): string
    decreases |characters|
  {
    if |characters| > 0 then Remove(Replace(text, [characters[0]], ""), characters[1..])
    else text
  }

  lemma {:induction false} FilterNotInCons(c: char, rest: string, text: string)
    ensures Filter(NotIn(rest), Filter(NotIn([c]), text)) == Filter(NotIn([c] + rest), text)
  {
    if |text| > 0 {
      FilterNotInCons(c, rest, text[1..]);
    }
  }

  /** `remove` keeps exactly the characters not listed, in their original order. */
  lemma {:induction false} RemoveKeepsOthers(text: string, characters: string)
    ensures Remove(text, characters) == Filter(NotIn(characters), text)
    decreases |characters|
  {
    if |characters| == 0 {
      FilterAll(NotIn(characters), text);
    } else {
      var c := characters[0];
      ReplaceCharByNothing(text, c);
      RemoveKeepsOthers(Filter(NotIn([c]), text), characters[1..]);
      FilterNotInCons(c, characters[1..], text);
      assert [c] + characters[1..] == characters;
    }
  }

  lemma {:induction false} FilterAll<T>(p: T -> bool, s: seq<T>)
    requires forall x :: p(x)
    ensures Filter(p, s) == s
  {
    if |s| > 0 {
      FilterAll(p, s[1..]);
      assert s == [s[0]] + s[1..];
    }
  }

  lemma {:induction false} FilterTwice<T>(p: T -> bool, s: seq<T>)
    ensures Filter(p, Filter(p, s)) == Filter(p, s)
  {
    if |s| > 0 {
      FilterTwice(p, s[1..]);
    }
  }

  /** What `remove` promises: nothing listed survives, everything else does, in order. */
  lemma RemoveProperties(text: string, characters: string)
    ensures Remove(text, "") == text
    ensures forall i :: 0 <= i < |Remove(text, characters)| ==> Remove(text, characters)[i] !in characters
    ensures Remove(Remove(text, characters), characters) == Remove(text, characters)
  {
    RemoveKeepsOthers(text, "");
    RemoveKeepsOthers(text, characters);
    FilterSound(NotIn(characters), text);
    RemoveKeepsOthers(Remove(text, characters), characters);
    FilterTwice(NotIn(characters), text);
  }

  /** Lifts the conversion into the Optional result. */
  function Convert<D>(toDecimal: string -> Outcome<D>, cleaned: string): Outcome<Option<D>>
  {
    match toDecimal(cleaned)
    case Ok(v) => Ok(Some(v))
    case Raised(e) => Raised(e)
  }

  /**
   * `clean_decimal_1`: None stays None; otherwise `text.replace("$", "")
   * .replace(",", "")` is handed to `Decimal`, modelled by `toDecimal`.
   */
  function CleanDecimal1<D>(text: Option<string>, toDecimal: string -> Outcome<D>): (r: Outcome<Option<D>>)
    ensures text.None? ==> r == Ok(None)
    ensures text.Some? ==> r == Convert(toDecimal, Filter(NotIn("$,"), text.value))
  {
    match text
    case None => Ok(None)
    case Some(t) =>
      ReplaceCharByNothing(t, '$');
      ReplaceCharByNothing(Replace(t, "$", ""), ',');
      FilterNotInCons('$', ",", t);
      assert ['$'] + "," == "$,";
      Convert(toDecimal, Replace(Replace(t, "$", ""), ",", ""))
  }

  /** `clean_decimal_2`: the same, through the prefix `replace`. */
  function CleanDecimal2<D>(text: Option<string>, toDecimal: string -> Outcome<D>): (r: Outcome<Option<D>>)
    ensures r == CleanDecimal1(text, toDecimal)
  {
    match text
    case None => Ok(None)
    case Some(t) => Convert(toDecimal, Replace(Replace(t, "$", ""), ",", ""))
  }

  /** `clean_decimal_3`: the same, through `remove(text, "$,")`. */
  function CleanDecimal3<D>(text: Option<string>, toDecimal: string -> Outcome<D>): (r: Outcome<Option<D>>)
    ensures r == CleanDecimal1(text, toDecimal)
  {
    match text
    case None => Ok(None)
    case Some(t) =>
      RemoveKeepsOthers(t, "$,");
      Convert(toDecimal, Remove(t, "$,"))
  }

  /** The doctest input "$1,234.56" is cleaned to "1234.56" before conversion. */
  lemma CleanDoctest<D>(toDecimal: string -> Outcome<D>)
    ensures CleanDecimal1(Some("$1,234.56"), toDecimal) == Convert(toDecimal, "1234.56")
    ensures CleanDecimal2(Some("$1,234.56"), toDecimal) == Convert(toDecimal, "1234.56")
    ensures CleanDecimal3(Some("$1,234.56"), toDecimal) == Convert(toDecimal, "1234.56")
  {
    CleanedText(NotIn("$,"));
  }

  lemma CleanedText(p: char -> bool)
    requires forall c {:trigger p(c)} :: p(c) == (c != '$' && c != ',')
    ensures Filter(p, "$1,234.56") == "1234.56"
  {
    CleanedHead(p);
    CleanedTail(p);
    FilterAppend(p, "$1,2", "34.56");
    assert "$1,2" + "34.56" == "$1,234.56";
    assert "12" + "34.56" == "1234.56";
  }

  lemma CleanedHead(p: char -> bool)
    requires forall c {:trigger p(c)} :: p(c) == (c != '$' && c != ',')
    ensures Filter(p, "$1,2") == "12"
  {
    assert "$1,2"[1..] == "1,2";
    assert "1,2"[1..] == ",2";
    assert ",2"[1..] == "2";
    assert "2"[1..] == "";
  }

  lemma CleanedTail(p: char -> bool)
    requires forall c {:trigger p(c)} :: p(c) == (c != '$' && c != ',')
    ensures Filter(p, "34.56") == "34.56"
  {
    assert "34.56"[1..] == "4.56";
    assert "4.56"[1..] == ".56";
    assert ".56"[1..] == "56";
    assert "56"[1..] == "6";
    assert "6"[1..] == "";
  }
}
