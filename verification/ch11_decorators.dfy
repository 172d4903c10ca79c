/**
 * Chapter 11, decorators as higher-order functions: the `None`-tolerant
 * wrapper `nullable`, and the bad-data handlers `remove_commas`,
 * `remove_chars` and `then_convert`, which retry a failed conversion once on
 * a cleaned copy of the text. A decorated function is modelled as the plain
 * function that the decorator returns, with the wrapped function as a
 * parameter.
 */
module Ch11Decorators {
  import opened Py
  import Ch03Strings

  // ---------------------------------------------------------------- nullable

  /** `nullable(function)(arg)`: `None` passes through, anything else is converted. */
  function NullWrapper<A, B>(f: A -> Outcome<B>, arg: Option<A>): (r: Outcome<Option<B>>)
    ensures arg.None? ==> r == Ok(None)
    ensures arg.Some? && f(arg.value).Ok? ==> r == Ok(Some(f(arg.value).value))
    ensures arg.Some? && f(arg.value).Raised? ==> r == Raised(f(arg.value).exc)
  {
    match arg
    case None => Ok(None)
    case Some(a) =>
      var b :- f(a);
      Ok(Some(b))
  }

  /** `list(map(g, data))`: the first exception ends the list. */
  function MapAll<A, B>(g: A -> Outcome<B>, data: seq<A>): (r: Outcome<seq<B>>)
    ensures r.Ok? <==> forall i :: 0 <= i < |data| ==> g(data[i]).Ok?
    ensures r.Ok? ==> |r.value| == |data| && forall i :: 0 <= i < |data| ==> r.value[i] == g(data[i]).value
  {
    if |data| == 0 then Ok([])
    else
      var head :- g(data[0]);
      var tail :- MapAll(g, data[1..]);
      assert forall i :: 1 <= i < |data| ==> data[i] == data[1..][i - 1];
      Ok([head] + tail)
  }

  /** Mapping the null-aware wrapper keeps every `None` where it was. */
  lemma NullAwareMapKeepsNones<A, B>(f: A -> Outcome<B>, data: seq<Option<A>>)
    requires MapAll(a => NullWrapper(f, a), data).Ok?
    ensures var r := MapAll(a => NullWrapper(f, a), data).value;
      forall i :: 0 <= i < |data| ==> (r[i].None? <==> data[i].None?)
  {
    var r := MapAll(a => NullWrapper(f, a), data).value;
    forall i | 0 <= i < |data|
      ensures r[i].None? <==> data[i].None?
    {
      assert NullWrapper(f, data[i]).Ok?;
    }
  }

  /** Sequential composition of two fallible conversions. */
  function Then<A, B, C>(f: A -> Outcome<B>, g: B -> Outcome<C>): A -> Outcome<C>
  {
    a => match f(a) case Ok(b) => g(b) case Raised(e) => Raised(e)
  }

  /**
   * Composing two null-aware functions, as `round4(null_aware_log(v))` does,
   * is the same as making the composition null-aware: one `None` check suffices.
   */
  lemma NullableComposes<A, B, C>(f: A -> Outcome<B>, g: B -> Outcome<C>, arg: Option<A>)
    ensures (match NullWrapper(f, arg) case Ok(b) => NullWrapper(g, b) case Raised(e) => Raised(e))
            == NullWrapper(Then(f, g), arg)
  {
  }

  // ------------------------------------------------------ the bad-data retry

  /** The exceptions the bad-data handlers catch: `ValueError` and `InvalidOperation`. */
  predicate Caught(e: Exc)
  {
    e == ValueError || e == InvalidOperation
  }

  /**
   * `then_convert(convert)(clean)(text)`: try the conversion; on a caught
   * failure convert the cleaned text instead, with no second handler.
   */
  function ThenConvert<T>(convert: string -> Outcome<T>, clean: string -> string, text: string): Outcome<T>
  {
    match convert(text)
    case Ok(v) => Ok(v)
    case Raised(e) => if Caught(e) then convert(clean(text)) else Raised(e)
  }

  /**
   * What the retry promises: a first success is kept; an uncaught failure
   * escapes unchanged; a caught failure is replaced by whatever the cleaned
   * retry gives, its own failure included.
   */
  lemma ThenConvertSpec<T>(convert: string -> Outcome<T>, clean: string -> string, text: string)
    ensures convert(text).Ok? ==> ThenConvert(convert, clean, text) == convert(text)
    ensures convert(text).Raised? && !Caught(convert(text).exc) ==>
              ThenConvert(convert, clean, text) == convert(text)
    ensures convert(text).Raised? && Caught(convert(text).exc) ==>
              ThenConvert(convert, clean, text) == convert(clean(text))
    ensures ThenConvert(convert, clean, text).Ok? <==>
              convert(text).Ok? || (Caught(convert(text).exc) && convert(clean(text)).Ok?)
  {
  }

  /** When cleaning changes nothing the retry repeats the first attempt exactly. */
  lemma ThenConvertCleanText<T>(convert: string -> Outcome<T>, clean: string -> string, text: string)
    requires clean(text) == text
    ensures ThenConvert(convert, clean, text) == convert(text)
  {
  }

  /** Deleting every comma: `text.replace(",", "")`. */
  function NoCommas(text: string): string
  {
    Ch03Strings.Replace(text, ",", "")
  }

  /** `remove_commas(function)(text)`. */
  function RemoveCommas<T>(convert: string -> Outcome<T>, text: string): Outcome<T>
  {
    match convert(text)
    case Ok(v) => Ok(v)
    case Raised(e) => if Caught(e) then convert(NoCommas(text)) else Raised(e)
  }

  /** `remove_commas` is `then_convert` with the comma remover as the cleaner. */
  lemma RemoveCommasIsThenConvert<T>(convert: string -> Outcome<T>, text: string)
    ensures RemoveCommas(convert, text) == ThenConvert(convert, NoCommas, text)
  {
  }

  /** The retry sees the text with exactly its commas deleted. */
  lemma NoCommasDeletesCommas(text: string)
    ensures NoCommas(text) == Filter(Ch03Strings.NotIn(","), text)
    ensures forall i :: 0 <= i < |NoCommas(text)| ==> NoCommas(text)[i] != ','
  {
    Ch03Strings.ReplaceCharByNothing(text, ',');
    FilterSound(Ch03Strings.NotIn(","), text);
  }

  // ------------------------------------------------------------ remove_chars

  /** `clean_list(text, charList)`: replaces each listed string by "" in turn. */
  function CleanList(text: string, charList: seq<string>): string
    decreases |charList|
  {
    if |charList| > 0 then CleanList(Ch03Strings.Replace(text, charList[0], ""), charList[1..])
    else text
  }

  /** The characters of a list of one-character strings. */
  function Chars(charList: seq<string>): (cs: string)
    requires forall i :: 0 <= i < |charList| ==> |charList[i]| == 1
    ensures |cs| == |charList| && forall i :: 0 <= i < |cs| ==> charList[i] == [cs[i]]
  {
    if |charList| == 0 then [] else [charList[0][0]] + Chars(charList[1..])
  }

  /**
   * With single characters listed, `clean_list` is chapter 3's `remove`: it
   * keeps exactly the unlisted characters, in their order.
   */
  lemma {:induction false} CleanListKeepsOthers(text: string, charList: seq<string>)
    requires forall i :: 0 <= i < |charList| ==> |charList[i]| == 1
    ensures CleanList(text, charList) == Ch03Strings.Remove(text, Chars(charList))
    ensures CleanList(text, charList) == Filter(Ch03Strings.NotIn(Chars(charList)), text)
    decreases |charList|
  {
    if |charList| > 0 {
      var cs := Chars(charList);
      assert charList[0] == [cs[0]];
      assert Chars(charList[1..]) == cs[1..];
      CleanListKeepsOthers(Ch03Strings.Replace(text, charList[0], ""), charList[1..]);
    }
    Ch03Strings.RemoveKeepsOthers(text, Chars(charList));
  }

  /** An empty character list leaves the text alone. */
  lemma CleanListEmpty(text: string)
    ensures CleanList(text, []) == text
  {
  }

  /** `remove_chars(*charList)(function)(text)`. */
  function RemoveChars<T>(charList: seq<string>, convert: string -> Outcome<T>, text: string): Outcome<T>
  {
    match convert(text)
    case Ok(v) => Ok(v)
    case Raised(e) => if Caught(e) then convert(CleanList(text, charList)) else Raised(e)
  }

  /** `remove_chars` is `then_convert` with `clean_list` as the cleaner. */
  lemma RemoveCharsIsThenConvert<T>(charList: seq<string>, convert: string -> Outcome<T>, text: string)
    ensures RemoveChars(charList, convert, text) == ThenConvert(convert, t => CleanList(t, charList), text)
  {
  }

  /** `remove_chars(",")` behaves as `remove_commas`. */
  lemma RemoveCharsComma<T>(convert: string -> Outcome<T>, text: string)
    ensures RemoveChars([","], convert, text) == RemoveCommas(convert, text)
  {
  }

  /** `convert_to_currency`: `Decimal` retried without "$" and ",". */
  function ConvertToCurrency<D>(decimal: string -> Outcome<D>, text: string): Outcome<D>
  {
    RemoveChars(["$", ","], decimal, text)
  }

  /**
   * `convert_to_currency("$1,701.00")`: when `Decimal` rejects the raw text,
   * it is retried on "1701.00".
   */
  lemma ConvertToCurrencyExample<D>(decimal: string -> Outcome<D>, text: string)
    requires text == "$1,701.00"
    requires decimal(text) == Raised(InvalidOperation)
    ensures ConvertToCurrency(decimal, text) == decimal("1701.00")
  {
    var p := Ch03Strings.NotIn("$,");
    assert CleanList(text, ["$", ","]) == Filter(p, text) by {
      CleanListKeepsOthers(text, ["$", ","]);
      assert Chars(["$", ","]) == "$,";
    }
    assert Filter(p, text) == "1701.00" by {
      assert text == ['$'] + "1" + [','] + "701.00";
      DollarsCleaned(p, "1", "701.00");
      assert "1" + "701.00" == "1701.00";
    }
  }

  /** Cleaning "$a,b" leaves "ab" when neither part holds a "$" or ",". */
  lemma DollarsCleaned(p: char -> bool, a: string, b: string)
    requires !p('$') && !p(',')
    requires forall i :: 0 <= i < |a| ==> p(a[i])
    requires forall i :: 0 <= i < |b| ==> p(b[i])
    ensures Filter(p, ['$'] + a + [','] + b) == a + b
  {
    var t := a + [','] + b;
    assert Filter(p, t) == a + b by {
      FilterWithout(p, a, ',', b);
    }
    assert Filter(p, ['$'] + t) == Filter(p, t) by {
      FilterDropHead(p, '$', t);
    }
    assert ['$'] + a + [','] + b == ['$'] + t;
  }

  lemma FilterDropHead<T>(p: T -> bool, x: T, s: seq<T>)
    requires !p(x)
    ensures Filter(p, [x] + s) == Filter(p, s)
  {
    assert ([x] + s)[1..] == s;
  }

  /** Filtering out one rejected element between two runs of kept ones. */
  lemma FilterWithout<T>(p: T -> bool, a: seq<T>, x: T, b: seq<T>)
    requires forall i :: 0 <= i < |a| ==> p(a[i])
    requires forall i :: 0 <= i < |b| ==> p(b[i])
    requires !p(x)
    ensures Filter(p, a + [x] + b) == a + b
  {
    assert Filter(p, a + [x] + b) == Filter(p, a + [x]) + Filter(p, b) by {
      FilterAppend(p, a + [x], b);
    }
    assert Filter(p, a + [x]) == a by {
      FilterAppend(p, a, [x]);
      FilterKeepsAll(p, a);
      FilterSingle(p, x);
    }
    assert Filter(p, b) == b by {
      FilterKeepsAll(p, b);
    }
  }

  lemma {:induction false} FilterKeepsAll<T>(p: T -> bool, s: seq<T>)
    requires forall i :: 0 <= i < |s| ==> p(s[i])
    ensures Filter(p, s) == s
  {
    if |s| > 0 {
      FilterKeepsAll(p, s[1..]);
      assert s == [s[0]] + s[1..];
    }
  }

  // -------------------------------------------------------- then_convert(int)

  /** `int(text)` on decimal text; anything else raises `ValueError`. */
  function Int(text: string): (r: Outcome<int>)
    ensures r.Ok? <==> ParseInt(text).Some?
    ensures r.Raised? ==> r.exc == ValueError
  {
    match ParseInt(text)
    case Some(n) => Ok(n)
    case None => Raised(ValueError)
  }

  /** `remove_punctuation(text)`, the cleaner: deletes "," then "$". */
  function RemovePunctuation(text: string): string
  {
    Ch03Strings.Replace(Ch03Strings.Replace(text, ",", ""), "$", "")
  }

  /** `then_convert(int)(remove_punctuation)`. */
  function RemovePunctuationInt(text: string): Outcome<int>
  {
    ThenConvert(Int, RemovePunctuation, text)
  }

  /** The cleaner keeps every character except "," and "$", in order. */
  lemma RemovePunctuationKeepsOthers(text: string)
    ensures RemovePunctuation(text) == Filter(Ch03Strings.NotIn(",$"), text)
  {
    Ch03Strings.RemoveKeepsOthers(text, ",$");
    assert Ch03Strings.Remove(text, ",$") == RemovePunctuation(text) by {
      assert ",$"[1..] == "$";
    }
  }

  lemma ParseIntRejectsComma()
    ensures ParseInt("1,701").None?
  {
    var s := "1,701";
    assert Strip(s) == s by { StripNoSpace(s); }
    var t := Strip(s);
    assert t[1] == ',';
    assert !(forall i :: 0 <= i < |t| ==> IsDigit(t[i]));
  }

  /** `int` on a non-empty run of ASCII digits reads their decimal value. */
  lemma ParseIntOfDigits(s: string)
    requires |s| > 0 && forall i :: 0 <= i < |s| ==> IsDigit(s[i])
    ensures ParseInt(s) == Some(DigitsValue(s))
  {
    StripNoSpace(s);
  }

  lemma ParseInt1701()
    ensures ParseInt("1701") == Some(1701)
  {
    assert DigitsValue("1701") == 1701 by {
      assert DigitsValue("17") == 17 by {
        assert "17"[..1] == "1";
      }
      assert "1701"[..3] == "170";
      assert "170"[..2] == "17";
    }
    assert ParseInt("1701") == Some(DigitsValue("1701")) by {
      ParseIntOfDigits("1701");
    }
  }

  lemma ParseInt97()
    ensures ParseInt("97") == Some(97)
  {
    assert DigitsValue("97") == 97 by {
      assert "97"[..1] == "9";
    }
    assert ParseInt("97") == Some(DigitsValue("97")) by {
      ParseIntOfDigits("97");
    }
  }

  /** Text `int` rejects is converted after cleaning. */
  lemma RemovePunctuationIntRetries(text: string)
    requires ParseInt(text).None?
    ensures RemovePunctuationInt(text) == Int(RemovePunctuation(text))
  {
  }

  /** `remove_punctuation("1,701") == 1701`: `int` fails, the cleaned "1701" converts. */
  lemma RemovePunctuationCommaExample(text: string)
    requires text == "1,701"
    ensures RemovePunctuationInt(text) == Ok(1701)
  {
    assert RemovePunctuation(text) == "1701" by {
      RemovePunctuationKeepsOthers(text);
      assert text == "1" + [','] + "701";
      FilterWithout(Ch03Strings.NotIn(",$"), "1", ',', "701");
    }
    assert RemovePunctuationInt(text) == Int("1701") by {
      ParseIntRejectsComma();
      RemovePunctuationIntRetries(text);
    }
    assert Int("1701") == Ok(1701) by {
      ParseInt1701();
    }
  }

  /** `remove_punctuation("97") == 97`: the first conversion succeeds. */
  lemma RemovePunctuationPlainExample()
    ensures RemovePunctuationInt("97") == Ok(97)
  {
    ParseInt97();
  }
}
