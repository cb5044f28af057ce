/** Python's `int(text)` for text in base 10, and `str(n)` for an integer,
    as far as the session duration setting needs them. */
module PyInt {
  import opened Wrappers

  /** The whitespace `int()` strips around the number: the `str.isspace`
      characters except U+001C to U+001F. Below U+007F only tab, line feed,
      vertical tab, form feed, carriage return and space count; the
      Unicode spaces above it are turned into a space first. */
  predicate IsSpace(c: char) {
    c == ' ' || ('\t' <= c <= '\r') ||
    c == '\U{85}' || c == '\U{a0}' || c == '\U{1680}' || ('\U{2000}' <= c <= '\U{200a}') ||
    c == '\U{2028}' || c == '\U{2029}' || c == '\U{202f}' || c == '\U{205f}' || c == '\U{3000}'
  }

  predicate IsDigit(c: char) {
    '0' <= c <= '9'
  }

  /** `s` without its leading whitespace. */
  function StripStart(s: string): (t: string)
    ensures t == [] || !IsSpace(t[0])
  {
    if s != [] && IsSpace(s[0]) then StripStart(s[1..]) else s
  }

  /** `s` without its trailing whitespace. */
  function StripEnd(s: string): (t: string)
    ensures t == [] || !IsSpace(t[|t| - 1])
  {
    if s != [] && IsSpace(s[|s| - 1]) then StripEnd(s[..|s| - 1]) else s
  }

  function Strip(s: string): string {
    StripEnd(StripStart(s))
  }

  /** The digit part `int()` accepts: ASCII digits, with single
      underscores allowed between two digits. */
  predicate IsDigitString(d: string) {
    && |d| > 0 && IsDigit(d[0]) && IsDigit(d[|d| - 1])
    && (forall i :: 0 <= i < |d| ==> IsDigit(d[i]) || d[i] == '_')
    && (forall i, j :: 0 <= i < |d| && 0 <= j < |d| && j == i + 1 && d[i] == '_' ==> IsDigit(d[j]))
  }

  /** The number the digits of `d` spell in base 10, underscores skipped. */
  function DigitsValue(d: string): nat {
    if d == [] then 0
    else if d[|d| - 1] == '_' then DigitsValue(d[..|d| - 1])
    else 10 * DigitsValue(d[..|d| - 1]) + DigitValue(d[|d| - 1])
  }

  function DigitValue(c: char): nat {
    if IsDigit(c) then (c as int) - ('0' as int) else 0
  }

  /** `int(text)`: surrounding whitespace is ignored, then an optional sign
      and a digit string; anything else makes `int()` raise (None). */
  function ParseInt(text: string): (n: Option<int>)
    ensures n.Some? ==> Strip(text) != [] && IsDigit(Strip(text)[|Strip(text)| - 1])
    ensures n.Some? && Strip(text)[0] == '-' ==> n.value <= 0
    ensures n.Some? && Strip(text)[0] != '-' ==> n.value >= 0
    ensures n.Some? && IsDigit(Strip(text)[0]) ==> IsDigitString(Strip(text))
  {
    var t := Strip(text);
    if |t| > 0 && (t[0] == '+' || t[0] == '-') then
      if IsDigitString(t[1..]) then
        var magnitude: int := DigitsValue(t[1..]);
        Some(if t[0] == '-' then -magnitude else magnitude)
      else None
    else if IsDigitString(t) then
      Some(DigitsValue(t))
    else None
  }

  /** `str(n)` for a natural number. */
  function ShowNat(n: nat): (s: string)
    ensures |s| > 0
    ensures forall i :: 0 <= i < |s| ==> IsDigit(s[i])
  {
    if n < 10 then [DigitChar(n)] else ShowNat(n / 10) + [DigitChar(n % 10)]
  }

  function DigitChar(d: nat): (c: char)
    requires d < 10
    ensures IsDigit(c) && DigitValue(c) == d
  {
    ('0' as int + d) as char
  }

  /** `str(n)` for an integer. */
  function Show(n: int): string {
    if n < 0 then "-" + ShowNat(-n) else ShowNat(n)
  }

  lemma {:induction false} DigitsValueOfShowNat(n: nat)
    ensures DigitsValue(ShowNat(n)) == n
  {
    var s := ShowNat(n);
    if n >= 10 {
      assert s[..|s| - 1] == ShowNat(n / 10);
      DigitsValueOfShowNat(n / 10);
    }
  }

  lemma StripUnpadded(s: string)
    requires s != [] && !IsSpace(s[0]) && !IsSpace(s[|s| - 1])
    ensures Strip(s) == s
  {
  }

  /** `int(str(n)) == n`: the decimal form of every integer parses back to
      that integer. */
  lemma ParseIntOfShow(n: int)
    ensures ParseInt(Show(n)) == Some(n)
  {
    var s := Show(n);
    var m: nat := if n < 0 then -n else n;
    var digits := ShowNat(m);
    IsDigitStringOfShowNat(m);
    DigitsValueOfShowNat(m);
    assert !IsSpace(s[0]) && !IsSpace(s[|s| - 1]);
    StripUnpadded(s);
    if n < 0 {
      assert s[1..] == digits;
    } else {
      assert s == digits;
      assert IsDigit(s[0]);
    }
  }

  lemma IsDigitStringOfShowNat(n: nat)
    ensures IsDigitString(ShowNat(n))
  {
  }

  /** Text that is already stripped and is a digit string parses to the
      number its digits spell. */
  lemma ParseIntOfDigitString(text: string)
    requires Strip(text) == text && IsDigitString(text)
    ensures ParseInt(text) == Some(DigitsValue(text))
  {
    assert IsDigit(text[0]);
    assert text[0] != '+' && text[0] != '-';
  }

  /** Text that is already stripped, has no sign and is not a digit string
      does not parse. */
  lemma ParseIntOfNonDigitString(text: string)
    requires Strip(text) == text && !IsDigitString(text)
    requires text == [] || (text[0] != '+' && text[0] != '-')
    ensures ParseInt(text).None?
  {
  }

  predicate AllSpace(s: string) {
    forall i :: 0 <= i < |s| ==> IsSpace(s[i])
  }

  lemma {:induction false} StripStartPadded(pad: string, s: string)
    requires AllSpace(pad)
    requires s == [] || !IsSpace(s[0])
    ensures StripStart(pad + s) == s
  {
    if pad == [] {
      assert pad + s == s;
    } else {
      assert (pad + s)[0] == pad[0];
      assert (pad + s)[1..] == pad[1..] + s;
      StripStartPadded(pad[1..], s);
    }
  }

  lemma {:induction false} StripEndPadded(s: string, pad: string)
    requires AllSpace(pad)
    requires s == [] || !IsSpace(s[|s| - 1])
    ensures StripEnd(s + pad) == s
  {
    if pad == [] {
      assert s + pad == s;
    } else {
      var x := s + pad;
      assert x[|x| - 1] == pad[|pad| - 1];
      assert x[..|x| - 1] == s + pad[..|pad| - 1];
      StripEndPadded(s, pad[..|pad| - 1]);
    }
  }

  /** Surrounding whitespace is ignored: text with no space at either end
      parses the same with any whitespace before and after it. */
  lemma ParseIntOfPadded(before: string, text: string, after: string)
    requires AllSpace(before) && AllSpace(after)
    requires text != [] && !IsSpace(text[0]) && !IsSpace(text[|text| - 1])
    ensures ParseInt(before + text + after) == ParseInt(text)
  {
    assert before + text + after == before + (text + after);
    StripStartPadded(before, text + after);
    StripEndPadded(text, after);
    StripUnpadded(text);
  }

  /** Surrounding whitespace is ignored, for example `" 42\n"`. */
  lemma ParseIntPaddedExample()
    ensures ParseInt(" 42\n") == Some(42)
  {
    assert " 42\n" == " " + "42" + "\n";
    ParseIntOfPadded(" ", "42", "\n");
    assert Show(42) == "42";
    ParseIntOfShow(42);
  }

  /** A sign is accepted. */
  lemma ParseIntSignExample()
    ensures ParseInt("-7") == Some(-7)
  {
    assert Show(-7) == "-7";
    ParseIntOfShow(-7);
  }

  /** Single underscores between digit groups are accepted. */
  lemma ParseIntGroupsExample()
    ensures ParseInt("1_000") == Some(1000)
  {
    var text := "1_000";
    assert Strip(text) == text by { StripUnpadded(text); }
    assert IsDigitString(text);
    assert DigitsValue(text) == 1000 by {
      assert text[..4] == "1_00";
      assert "1_00"[..3] == "1_0";
      assert "1_0"[..2] == "1_";
      assert "1_"[..1] == "1";
      assert "1"[..0] == "";
    }
    ParseIntOfDigitString(text);
  }

  /** The empty string and a word are not integers. */
  lemma ParseIntRejectsWordsExample()
    ensures ParseInt("") == None
    ensures ParseInt("abc") == None
  {
    assert Strip("") == "";
    ParseIntOfNonDigitString("");
    var word := "abc";
    assert Strip(word) == word by { StripUnpadded(word); }
    assert !IsDigitString(word) by { assert !IsDigit(word[0]); }
    ParseIntOfNonDigitString(word);
  }

  /** A doubled underscore is not accepted. */
  lemma ParseIntRejectsDoubleUnderscoreExample()
    ensures ParseInt("1__0") == None
  {
    var text := "1__0";
    assert Strip(text) == text by { StripUnpadded(text); }
    assert !IsDigitString(text) by { assert text[1] == '_' && !IsDigit(text[2]); }
    ParseIntOfNonDigitString(text);
  }

  /** The separator controls U+001C to U+001F are not whitespace to
      `int()`, although `str.isspace` counts them. */
  lemma ParseIntRejectsSeparatorControlExample()
    ensures ParseInt("\U{1c}42") == None
  {
    var text := "\U{1c}42";
    assert Strip(text) == text by { StripUnpadded(text); }
    assert !IsDigitString(text) by { assert !IsDigit(text[0]); }
    ParseIntOfNonDigitString(text);
  }

  /** A fraction is not an integer. */
  lemma ParseIntRejectsFractionExample()
    ensures ParseInt("3.5") == None
  {
    var text := "3.5";
    assert Strip(text) == text by { StripUnpadded(text); }
    assert !IsDigitString(text) by { assert !IsDigit(text[1]) && text[1] != '_'; }
    ParseIntOfNonDigitString(text);
  }
}
