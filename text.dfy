/**
 * String helpers shared by the form sanitiser and the capacity parser:
 * JavaScript's `trim`, the anchored regular expressions that strip runs of a
 * character, the `\d` character class, decimal values of digit strings and
 * `String(n)` for integers.
 */
module Text {

  /** The characters JavaScript's `String.prototype.trim` removes: the
      ECMAScript WhiteSpace (including every Unicode Zs character) and
      LineTerminator sets. */
  predicate IsWhitespace(c: char) {
    || c == '\t' || c == '\n' || c == '\U{000B}' || c == '\U{000C}' || c == '\r'
    || c == ' ' || c == '\U{00A0}' || c == '\U{1680}'
    || ('\U{2000}' <= c <= '\U{200A}')
    || c == '\U{2028}' || c == '\U{2029}' || c == '\U{202F}' || c == '\U{205F}'
    || c == '\U{3000}' || c == '\U{FEFF}'
  }

  /** The regular-expression class `\d` without the `u` flag: ASCII digits only. */
  predicate IsDigit(c: char) {
    '0' <= c <= '9'
  }

  predicate IsQuote(c: char) {
    c == '"'
  }

  predicate StartsWith(s: string, prefix: string) {
    |prefix| <= |s| && s[..|prefix|] == prefix
  }

  lemma PrefixedStartsWith(t: string)
    ensures StartsWith("https://" + t, "http")
  {
    assert ("https://" + t)[..4] == "http";
  }

  /** Removes the longest prefix whose characters all satisfy `p`. */
  function StripStart(s: string, p: char -> bool): (r: string)
    ensures |r| <= |s| && r == s[|s| - |r|..]
    ensures forall i :: 0 <= i < |s| - |r| ==> p(s[i])
    ensures r != [] ==> !p(r[0])
  {
    if s != [] && p(s[0]) then StripStart(s[1..], p) else s
  }

  /** Removes the longest suffix whose characters all satisfy `p`. */
  function StripEnd(s: string, p: char -> bool): (r: string)
    ensures |r| <= |s| && r == s[..|r|]
    ensures forall i :: |r| <= i < |s| ==> p(s[i])
    ensures r != [] ==> !p(r[|r| - 1])
  {
    if s != [] && p(s[|s| - 1]) then StripEnd(s[..|s| - 1], p) else s
  }

  lemma StripStartStops(s: string, p: char -> bool)
    requires s != [] && !p(s[0])
    ensures StripStart(s, p) == s
  {
  }

  lemma StripEndStops(s: string, p: char -> bool)
    requires s != [] && !p(s[|s| - 1])
    ensures StripEnd(s, p) == s
  {
  }

  lemma StripEndDrops(s: string, p: char -> bool)
    requires s != [] && p(s[|s| - 1])
    ensures StripEnd(s, p) == StripEnd(s[..|s| - 1], p)
  {
  }

  /** `s.trim()` */
  function Trim(s: string): string {
    StripEnd(StripStart(s, IsWhitespace), IsWhitespace)
  }

  /** `s.replace(/^"+|"+$/g, "")`: the leading run of quotes and, in what is
      left, the trailing run. A string made only of quotes becomes empty. */
  function StripQuotes(s: string): string {
    StripEnd(StripStart(s, IsQuote), IsQuote)
  }

  /** `s.replace(/[^\d]/g, "")`: the digits of `s`, in order. */
  function KeepDigits(s: string): (r: string)
    ensures |r| <= |s|
    ensures forall i :: 0 <= i < |r| ==> IsDigit(r[i])
  {
    if s == [] then []
    else (if IsDigit(s[0]) then [s[0]] else []) + KeepDigits(s[1..])
  }

  function DigitValue(c: char): nat
    requires IsDigit(c)
  {
    c as int - '0' as int
  }

  function DigitChar(d: nat): (c: char)
    requires d < 10
    ensures IsDigit(c) && DigitValue(c) == d
  {
    ('0' as int + d) as char
  }

  /** `parseInt(s, 10)` on a string of ASCII digits, leading zeros allowed. */
  function DigitsValue(s: string): nat
    requires forall i :: 0 <= i < |s| ==> IsDigit(s[i])
  {
    if s == [] then 0 else DigitsValue(s[..|s| - 1]) * 10 + DigitValue(s[|s| - 1])
  }

  /** The shortest decimal rendering of `n`. */
  function NatToDecimal(n: nat): (r: string)
    ensures r != []
    ensures forall i :: 0 <= i < |r| ==> IsDigit(r[i])
    ensures |r| > 1 ==> r[0] != '0'
  {
    if n < 10 then [DigitChar(n)] else NatToDecimal(n / 10) + [DigitChar(n % 10)]
  }

  /** `String(n)` for an integer `n`. */
  function IntToString(n: int): string {
    if n < 0 then "-" + NatToDecimal(-n) else NatToDecimal(n)
  }

  predicate NoNonzeroDigit(s: string) {
    forall i :: 0 <= i < |s| ==> !IsDigit(s[i]) || s[i] == '0'
  }

  /** Rendering a number in decimal and reading it back gives the number. */
  lemma {:induction false} DecimalRoundTrip(n: nat)
    ensures DigitsValue(NatToDecimal(n)) == n
  {
    if n >= 10 {
      var s := NatToDecimal(n);
      assert s[..|s| - 1] == NatToDecimal(n / 10);
      DecimalRoundTrip(n / 10);
    }
  }

  /** A string of digits keeps all of its characters. */
  lemma {:induction false} KeepDigitsOfDigits(s: string)
    requires forall i :: 0 <= i < |s| ==> IsDigit(s[i])
    ensures KeepDigits(s) == s
  {
    if s != [] {
      KeepDigitsOfDigits(s[1..]);
    }
  }

  /** A digit string reads as zero exactly when every digit is '0'. */
  lemma {:induction false} DigitsValueZero(s: string)
    requires forall i :: 0 <= i < |s| ==> IsDigit(s[i])
    ensures DigitsValue(s) == 0 <==> NoNonzeroDigit(s)
  {
    if s != [] {
      var t := s[..|s| - 1];
      DigitsValueZero(t);
      assert forall i :: 0 <= i < |t| ==> t[i] == s[i];
    }
  }

  lemma NoNonzeroConcat(a: string, b: string)
    ensures NoNonzeroDigit(a + b) <==> NoNonzeroDigit(a) && NoNonzeroDigit(b)
  {
    if NoNonzeroDigit(a + b) {
      forall i | 0 <= i < |a| ensures !IsDigit(a[i]) || a[i] == '0' {
        assert a[i] == (a + b)[i];
      }
      forall i | 0 <= i < |b| ensures !IsDigit(b[i]) || b[i] == '0' {
        assert b[i] == (a + b)[|a| + i];
      }
    } else if NoNonzeroDigit(a) && NoNonzeroDigit(b) {
      forall i | 0 <= i < |a + b| ensures !IsDigit((a + b)[i]) || (a + b)[i] == '0' {
        if i >= |a| {
          assert (a + b)[i] == b[i - |a|];
        }
      }
    }
  }

  /** Keeping the digits neither adds nor removes a nonzero digit. */
  lemma {:induction false} KeepDigitsNonzero(s: string)
    ensures NoNonzeroDigit(KeepDigits(s)) <==> NoNonzeroDigit(s)
  {
    if s != [] {
      KeepDigitsNonzero(s[1..]);
      var head := if IsDigit(s[0]) then [s[0]] else [];
      var rest := KeepDigits(s[1..]);
      assert KeepDigits(s) == head + rest;
      NoNonzeroConcat(head, rest);
      assert s == [s[0]] + s[1..];
      NoNonzeroConcat([s[0]], s[1..]);
    }
  }
}
