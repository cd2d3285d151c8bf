/** The escape codec used inside quoted PO strings: C-style escapes as in
    section 6.4.4.4 of ISO C11 (character constants), except that octal and
    hexadecimal runs have no length limit. */
module Strings {
  import opened Wrappers
  import opened Text

  const BEL: char := '\U{0007}'
  const BS: char := '\U{0008}'
  const FF: char := '\U{000C}'
  const VT: char := '\U{000B}'

  /** The nine characters the encoder rewrites: BEL, BS, FF, LF, CR, TAB, VT,
      backslash and double quote. */
  predicate IsSpecial(c: char) {
    c == BEL || c == BS || c == FF || c == '\n' || c == '\r' || c == '\t' || c == VT || c == '\\' || c == '"'
  }

  /** The seven control characters among them. */
  predicate IsControl(c: char) {
    c == BEL || c == BS || c == FF || c == '\n' || c == '\r' || c == '\t' || c == VT
  }

  /** Replacement text for one character. */
  function EscapeChar(c: char): string {
    if c == BEL then "\\a"
    else if c == BS then "\\b"
    else if c == FF then "\\f"
    else if c == '\n' then "\\n"
    else if c == '\r' then "\\r"
    else if c == '\t' then "\\t"
    else if c == VT then "\\v"
    else if c == '\\' then "\\\\"
    else if c == '"' then "\\\""
    else [c]
  }

  /** Number of special characters in `s`. */
  function CountSpecial(s: string): nat {
    if s == [] then 0 else (if IsSpecial(s[0]) then 1 else 0) + CountSpecial(s[1..])
  }

  /** Encodes `s` for use between double quotes. The result is one character
      longer per special character, contains no raw control character, and
      equals `s` when `s` has no special character. */
  function Escape(s: string): (r: string)
    ensures |r| == |s| + CountSpecial(s)
    ensures forall i :: 0 <= i < |r| ==> !IsControl(r[i])
    ensures (forall i :: 0 <= i < |s| ==> !IsSpecial(s[i])) ==> r == s
  {
    if s == [] then []
    else
      assert forall i :: 1 <= i < |s| ==> s[1..][i - 1] == s[i];
      EscapeChar(s[0]) + Escape(s[1..])
  }

  /** The errors of the decoder. `InvalidEscape` is the code's
      UnescapeError; `next` is the character after the backslash, or None
      when the backslash ends the text or precedes a line feed (the pattern's
      `.` does not match a line feed), which the code renders as `\None`.
      `NotAChar` is a code point that Python's `chr` rejects (above 0x10FFFF,
      a ValueError rather than an UnescapeError) or that is a surrogate, which
      `chr` accepts but a Dafny `char` cannot hold. */
  datatype UnescapeError = InvalidEscape(next: Option<char>) | NotAChar(code: nat)

  /** The single-letter codes of the first alternative of the pattern. */
  predicate IsSimpleCode(c: char) {
    c == 'a' || c == 'b' || c == 'f' || c == 'n' || c == 'r' || c == 't' || c == 'v' || c == '\\' || c == '"'
  }

  /** Character denoted by a single-letter code. */
  function SimpleCodeChar(code: char): char
    requires IsSimpleCode(code)
  {
    if code == 'a' then BEL
    else if code == 'b' then BS
    else if code == 'f' then FF
    else if code == 'n' then '\n'
    else if code == 'r' then '\r'
    else if code == 't' then '\t'
    else if code == 'v' then VT
    else code
  }

  predicate IsOctalDigit(c: char) {
    '0' <= c <= '7'
  }

  predicate IsHexDigit(c: char) {
    ('0' <= c <= '9') || ('a' <= c <= 'f') || ('A' <= c <= 'F')
  }

  /** Length of the longest prefix of `s` made of octal digits. */
  function OctalRun(s: string): (n: nat)
    ensures n <= |s|
    ensures forall i :: 0 <= i < n ==> IsOctalDigit(s[i])
    ensures n < |s| ==> !IsOctalDigit(s[n])
  {
    if s == [] || !IsOctalDigit(s[0]) then 0 else 1 + OctalRun(s[1..])
  }

  /** Length of the longest prefix of `s` made of hexadecimal digits. */
  function HexRun(s: string): (n: nat)
    ensures n <= |s|
    ensures forall i :: 0 <= i < n ==> IsHexDigit(s[i])
    ensures n < |s| ==> !IsHexDigit(s[n])
  {
    if s == [] || !IsHexDigit(s[0]) then 0 else 1 + HexRun(s[1..])
  }

  function HexDigitValue(c: char): nat
    requires IsHexDigit(c)
  {
    if '0' <= c <= '9' then c as int - '0' as int
    else if 'a' <= c <= 'f' then c as int - 'a' as int + 10
    else c as int - 'A' as int + 10
  }

  /** `int(digits, base=8)`. */
  function OctalValue(digits: string): nat
    requires forall i :: 0 <= i < |digits| ==> IsOctalDigit(digits[i])
  {
    if digits == [] then 0
    else
      assert IsOctalDigit(digits[|digits| - 1]);
      OctalValue(digits[..|digits| - 1]) * 8 + (digits[|digits| - 1] as int - '0' as int)
  }

  /** `int(digits, base=16)`. */
  function HexValue(digits: string): nat
    requires forall i :: 0 <= i < |digits| ==> IsHexDigit(digits[i])
  {
    if digits == [] then 0
    else HexValue(digits[..|digits| - 1]) * 16 + HexDigitValue(digits[|digits| - 1])
  }

  /** `chr(code)`, restricted to Unicode scalar values. */
  function CodePoint(code: nat): (r: Result<char, UnescapeError>)
    ensures r.Ok? <==> code < 0xD800 || 0xE000 <= code < 0x11_0000
    ensures r.Ok? ==> r.value as int == code
  {
    if code < 0xD800 || 0xE000 <= code < 0x11_0000 then Ok(code as char) else Err(NotAChar(code))
  }

  /** Decodes every backslash escape of `s`, left to right, as the code's
      pattern substitution does: a single-letter code, else a maximal octal
      run, else `x` and a maximal hexadecimal run, else an error. Decoding
      never lengthens the text, and text without a backslash decodes to
      itself. */
  function Unescape(s: string): (r: Result<string, UnescapeError>)
    ensures r.Ok? ==> |r.value| <= |s|
    ensures '\\' !in s ==> r == Ok(s)
    decreases |s|
  {
    if s == [] then Ok([])
    else if s[0] != '\\' then
      assert s == [s[0]] + s[1..];
      var rest :- Unescape(s[1..]);
      Ok([s[0]] + rest)
    else if |s| == 1 then Err(InvalidEscape(None))
    else if IsSimpleCode(s[1]) then
      var rest :- Unescape(s[2..]);
      Ok([SimpleCodeChar(s[1])] + rest)
    else if IsOctalDigit(s[1]) then
      var n := OctalRun(s[1..]);
      var c :- CodePoint(OctalValue(s[1..1 + n]));
      var rest :- Unescape(s[1 + n..]);
      Ok([c] + rest)
    else if s[1] == 'x' && |s| > 2 && IsHexDigit(s[2]) then
      var n := HexRun(s[2..]);
      var c :- CodePoint(HexValue(s[2..2 + n]));
      var rest :- Unescape(s[2 + n..]);
      Ok([c] + rest)
    else if s[1] == '\n' then Err(InvalidEscape(None))
    else Err(InvalidEscape(Some(s[1])))
  }

  /** Inverse law: decoding the encoding of any text gives the text back. */
  lemma {:induction false} UnescapeEscape(s: string)
    ensures Unescape(Escape(s)) == Ok(s)
  {
    if s != [] {
      UnescapeEscape(s[1..]);
      var c := s[0];
      var e := Escape(s);
      assert e == EscapeChar(c) + Escape(s[1..]);
      if IsSpecial(c) {
        assert |EscapeChar(c)| == 2 && EscapeChar(c)[0] == '\\';
        assert e[2..] == Escape(s[1..]);
        assert IsSimpleCode(e[1]) && SimpleCodeChar(e[1]) == c;
      } else {
        assert EscapeChar(c) == [c];
        assert e[1..] == Escape(s[1..]);
      }
      assert s == [c] + s[1..];
    }
  }

  /** Each of the nine two-character escapes decodes to its character. */
  lemma {:induction false} UnescapeSpecial(c: char)
    requires IsSpecial(c)
    ensures |EscapeChar(c)| == 2 && EscapeChar(c)[0] == '\\'
    ensures Unescape(EscapeChar(c)) == Ok([c])
  {
    UnescapeEscape([c]);
    assert Escape([c]) == EscapeChar(c) + Escape([]);
  }

  /** A backslash followed by a maximal run of octal digits, of any length,
      decodes to the character with that base-8 code point. */
  lemma {:induction false} OctalEscape(digits: string, rest: string)
    requires |digits| >= 1 && forall i :: 0 <= i < |digits| ==> IsOctalDigit(digits[i])
    requires rest == [] || !IsOctalDigit(rest[0])
    ensures Unescape("\\" + digits + rest) ==
      (var c :- CodePoint(OctalValue(digits)); var r :- Unescape(rest); Ok([c] + r))
  {
    var s := "\\" + digits + rest;
    assert s[1..] == digits + rest;
    OctalRunOf(digits, rest);
    assert s[1..1 + |digits|] == digits;
    assert s[1 + |digits|..] == rest;
  }

  lemma {:induction false} OctalRunOf(digits: string, rest: string)
    requires forall i :: 0 <= i < |digits| ==> IsOctalDigit(digits[i])
    requires rest == [] || !IsOctalDigit(rest[0])
    ensures OctalRun(digits + rest) == |digits|
  {
    if digits != [] {
      assert (digits + rest)[1..] == digits[1..] + rest;
      OctalRunOf(digits[1..], rest);
    }
  }

  lemma {:induction false} HexRunOf(digits: string, rest: string)
    requires forall i :: 0 <= i < |digits| ==> IsHexDigit(digits[i])
    requires rest == [] || !IsHexDigit(rest[0])
    ensures HexRun(digits + rest) == |digits|
  {
    if digits != [] {
      assert (digits + rest)[1..] == digits[1..] + rest;
      HexRunOf(digits[1..], rest);
    }
  }

  /** `\x` followed by a maximal run of hexadecimal digits, in either case,
      decodes to the character with that base-16 code point. */
  lemma {:induction false} HexEscape(digits: string, rest: string)
    requires |digits| >= 1 && forall i :: 0 <= i < |digits| ==> IsHexDigit(digits[i])
    requires rest == [] || !IsHexDigit(rest[0])
    ensures Unescape("\\x" + digits + rest) ==
      (var c :- CodePoint(HexValue(digits)); var r :- Unescape(rest); Ok([c] + r))
  {
    var s := "\\x" + digits + rest;
    assert s[2..] == digits + rest;
    HexRunOf(digits, rest);
    assert s[2..2 + |digits|] == digits;
    assert s[2 + |digits|..] == rest;
  }

  lemma {:induction false} OctalValueSnoc(digits: string, d: char)
    requires forall i :: 0 <= i < |digits| ==> IsOctalDigit(digits[i])
    requires IsOctalDigit(d)
    ensures OctalValue(digits + [d]) == OctalValue(digits) * 8 + (d as int - '0' as int)
  {
    assert (digits + [d])[..|digits|] == digits;
  }

  lemma {:induction false} HexValueSnoc(digits: string, d: char)
    requires forall i :: 0 <= i < |digits| ==> IsHexDigit(digits[i])
    requires IsHexDigit(d)
    ensures HexValue(digits + [d]) == HexValue(digits) * 16 + HexDigitValue(d)
  {
    assert (digits + [d])[..|digits|] == digits;
  }

  /** The octal examples of the codec's tests: `\145` is `e` and `\20254`
      is the euro sign. */
  lemma {:induction false} OctalExampleE()
    ensures Unescape("\\145") == Ok("e")
  {
    assert OctalValue("145") == 101 by {
      OctalValueSnoc("", '1');
      assert [] + ['1'] == "1";
      OctalValueSnoc("1", '4');
      assert "1" + ['4'] == "14";
      OctalValueSnoc("14", '5');
      assert "14" + ['5'] == "145";
    }
    OctalEscape("145", "");
    assert "\\" + "145" + "" == "\\145";
    assert Unescape("") == Ok([]);
    assert ['e'] + [] == ['e'];
  }

  lemma {:induction false} OctalValueEuro()
    ensures OctalValue("20254") == 0x20AC
  {
    assert OctalValue("2") == 2 by {
      OctalValueSnoc("", '2');
      assert [] + ['2'] == "2";
    }
    assert OctalValue("20") == 16 by {
      OctalValueSnoc("2", '0');
      assert "2" + ['0'] == "20";
    }
    assert OctalValue("202") == 130 by {
      OctalValueSnoc("20", '2');
      assert "20" + ['2'] == "202";
    }
    assert OctalValue("2025") == 1045 by {
      OctalValueSnoc("202", '5');
      assert "202" + ['5'] == "2025";
    }
    OctalValueSnoc("2025", '4');
    assert "2025" + ['4'] == "20254";
  }

  lemma {:induction false} OctalExampleEuro()
    ensures Unescape("\\20254") == Ok("€")
  {
    OctalValueEuro();
    OctalEscape("20254", "");
    assert "\\" + "20254" + "" == "\\20254";
    assert Unescape("") == Ok([]);
    assert ['€'] + [] == ['€'];
  }

  /** The hexadecimal examples of the codec's tests, in lower, upper and
      mixed case. */
  lemma {:induction false} HexExampleE()
    ensures Unescape("\\x65") == Ok("e")
  {
    assert HexValue("65") == 0x65 by {
      HexValueSnoc("", '6');
      assert [] + ['6'] == "6";
      HexValueSnoc("6", '5');
      assert "6" + ['5'] == "65";
    }
    HexEscape("65", "");
    assert "\\x" + "65" + "" == "\\x65";
    assert Unescape("") == Ok([]);
    assert ['e'] + [] == ['e'];
  }

  lemma {:induction false} HexValueTwenty()
    ensures HexValue("20") == 0x20
  {
    HexValueSnoc("", '2');
    assert [] + ['2'] == "2";
    HexValueSnoc("2", '0');
    assert "2" + ['0'] == "20";
  }

  lemma {:induction false} HexValueEuro(digits: string)
    requires digits == "20ac" || digits == "20AC" || digits == "20aC"
    ensures HexValue(digits) == 0x20AC
  {
    var a, c := digits[2], digits[3];
    assert HexDigitValue(a) == 10 && HexDigitValue(c) == 12;
    HexValueTwenty();
    HexValueSnoc("20", a);
    HexValueSnoc("20" + [a], c);
    assert "20" + [a] + [c] == digits;
  }

  lemma {:induction false} HexExampleEuro(digits: string)
    requires digits == "20ac" || digits == "20AC" || digits == "20aC"
    ensures Unescape("\\x" + digits) == Ok("€")
  {
    HexValueEuro(digits);
    HexEscape(digits, "");
    assert "\\x" + digits + "" == "\\x" + digits;
    assert Unescape("") == Ok([]);
    assert ['€'] + [] == ['€'];
  }

  /** A lone trailing backslash fails, and so does a backslash followed by
      any character that starts no escape, including `x` without a
      hexadecimal digit after it. */
  lemma {:induction false} InvalidEscapes(c: char, rest: string)
    requires !IsSimpleCode(c) && !IsOctalDigit(c)
    requires c == 'x' ==> rest == [] || !IsHexDigit(rest[0])
    ensures Unescape("\\") == Err(InvalidEscape(None))
    ensures Unescape("\\" + [c] + rest) == Err(InvalidEscape(if c == '\n' then None else Some(c)))
  {
    var s := "\\" + [c] + rest;
    assert s[1] == c;
    assert |s| > 2 ==> s[2] == rest[0];
  }
}
