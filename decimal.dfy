/**
 Decimal rendering of a signed integer, as Rust's `Display` for `i64` writes
 it: an optional minus sign, then the digits of the magnitude with no leading
 zero. chrono's "%s" format writes a timestamp's epoch seconds this way.
 */
module Decimal {
  import opened Wrappers

  predicate IsDigit(c: char) {
    '0' <= c <= '9'
  }

  predicate AllDigits(s: string) {
    forall i :: 0 <= i < |s| ==> IsDigit(s[i])
  }

  function DigitChar(d: nat): (c: char)
    requires d < 10
    ensures IsDigit(c) && DigitValue(c) == d
  {
    ('0' as int + d) as char
  }

  function DigitValue(c: char): (d: nat)
    requires IsDigit(c)
    ensures d < 10
  {
    c as int - '0' as int
  }

  /** The number a string of decimal digits denotes, most significant digit first. */
  function DigitsValue(s: string): nat
    requires AllDigits(s)
  {
    if |s| == 0 then 0 else DigitsValue(s[..|s| - 1]) * 10 + DigitValue(s[|s| - 1])
  }

  /** The shortest decimal digit string of `n`: never empty, and with no leading zero except for 0 itself. */
  function NatDigits(n: nat): (s: string)
    ensures |s| > 0 && AllDigits(s)
    ensures s[0] == '0' ==> n == 0 && s == "0"
    decreases n
  {
    if n < 10 then [DigitChar(n)] else NatDigits(n / 10) + [DigitChar(n % 10)]
  }

  /** An optional '-', then at least one digit, with no leading zero except for "0" itself; "-0" is excluded. */
  predicate IsCanonical(s: string) {
    if |s| > 0 && s[0] == '-' then
      |s| > 1 && AllDigits(s[1..]) && s[1] != '0'
    else
      |s| > 0 && AllDigits(s) && (s[0] == '0' ==> s == "0")
  }

  /** Each character of a canonical decimal string is a digit or the sign. */
  lemma CanonicalChar(s: string, i: nat)
    requires IsCanonical(s) && i < |s|
    ensures IsDigit(s[i]) || s[i] == '-'
  {
    if s[0] == '-' && i > 0 {
      assert s[1..][i - 1] == s[i];
    }
  }

  /** `n` in decimal, with a leading '-' when it is negative. */
  function Render(n: int): (s: string)
    ensures IsCanonical(s) && (s[0] == '-' <==> n < 0)
  {
    if n < 0 then "-" + NatDigits(-n) else NatDigits(n)
  }

  /** Reads a decimal integer: an optional '-', then at least one digit; leading zeros are accepted. */
  function Parse(s: string): (r: Option<int>)
    ensures r.Some? ==> |s| > 0
  {
    if |s| > 1 && s[0] == '-' && AllDigits(s[1..]) then Some(-(DigitsValue(s[1..]) as int))
    else if |s| > 0 && AllDigits(s) then Some(DigitsValue(s))
    else None
  }

  /** The digits of `n` denote `n`. */
  lemma {:induction false} NatDigitsValue(n: nat)
    ensures DigitsValue(NatDigits(n)) == n
    decreases n
  {
    var s := NatDigits(n);
    if n >= 10 {
      NatDigitsValue(n / 10);
      assert s[..|s| - 1] == NatDigits(n / 10);
    }
  }

  /** Parsing undoes rendering. */
  lemma ParseRender(n: int)
    ensures Parse(Render(n)) == Some(n)
  {
    var s := Render(n);
    if n < 0 {
      assert s[1..] == NatDigits(-n);
      NatDigitsValue(-n);
    } else {
      NatDigitsValue(n);
    }
  }

  /** A digit string with no leading zero denotes a positive number. */
  lemma {:induction false} LeadingNonZeroPositive(s: string)
    requires |s| > 0 && AllDigits(s) && s[0] != '0'
    ensures DigitsValue(s) > 0
  {
    if |s| > 1 {
      LeadingNonZeroPositive(s[..|s| - 1]);
    }
  }

  /** The digits of the number a canonical digit string denotes are that string. */
  lemma {:induction false} NatDigitsOfValue(s: string)
    requires |s| > 0 && AllDigits(s) && (s[0] == '0' ==> s == "0")
    ensures NatDigits(DigitsValue(s)) == s
    decreases |s|
  {
    if |s| > 1 {
      var init := s[..|s| - 1];
      LeadingNonZeroPositive(init);
      NatDigitsOfValue(init);
      assert s == init + [s[|s| - 1]];
    }
  }

  /** Rendering undoes parsing on canonical strings, so Render writes every canonical string exactly once. */
  lemma RenderParse(s: string)
    requires IsCanonical(s)
    ensures Parse(s).Some? && Render(Parse(s).value) == s
  {
    if s[0] == '-' {
      NatDigitsOfValue(s[1..]);
      LeadingNonZeroPositive(s[1..]);
      assert s == "-" + s[1..];
    } else {
      NatDigitsOfValue(s);
    }
  }

  /** Two integers render alike exactly when they are equal. */
  lemma RenderInjective(a: int, b: int)
    ensures Render(a) == Render(b) <==> a == b
  {
    ParseRender(a);
    ParseRender(b);
  }
}
