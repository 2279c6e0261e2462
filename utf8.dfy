/**
 UTF-8 as the program relies on it: a dump's bytes are turned into text by
 Rust's `str::from_utf8`, which succeeds exactly on well-formed UTF-8 and
 otherwise reports how far the input was valid. Well-formedness is stated
 after the syntax of section 4 of RFC 3629; text is a Dafny `string`, whose
 characters are Unicode scalar values.
 */
module Utf8 {
  import opened Wrappers

  /** An octet, Rust's `u8`. */
  newtype byte = x: int | 0 <= x < 0x100

  /** UTF8-tail = %x80-BF */
  predicate IsTail(b: byte) {
    0x80 <= b <= 0xBF
  }

  /** `s` is exactly one UTF8-char of section 4 of RFC 3629 (the rules UTF8-1 to UTF8-4). */
  predicate IsUtf8Char(s: seq<byte>) {
    if |s| == 1 then
      s[0] <= 0x7F
    else if |s| == 2 then
      0xC2 <= s[0] <= 0xDF && IsTail(s[1])
    else if |s| == 3 then
      && (|| (s[0] == 0xE0 && 0xA0 <= s[1] <= 0xBF)
          || (0xE1 <= s[0] <= 0xEC && IsTail(s[1]))
          || (s[0] == 0xED && 0x80 <= s[1] <= 0x9F)
          || (0xEE <= s[0] <= 0xEF && IsTail(s[1])))
      && IsTail(s[2])
    else if |s| == 4 then
      && (|| (s[0] == 0xF0 && 0x90 <= s[1] <= 0xBF)
          || (0xF1 <= s[0] <= 0xF3 && IsTail(s[1]))
          || (s[0] == 0xF4 && 0x80 <= s[1] <= 0x8F))
      && IsTail(s[2]) && IsTail(s[3])
    else
      false
  }

  /** UTF8-octets = *( UTF8-char ): `s` splits into a sequence of UTF8-chars. */
  predicate WellFormed(s: seq<byte>)
    decreases |s|
  {
    || |s| == 0
    || (1 <= |s| && IsUtf8Char(s[..1]) && WellFormed(s[1..]))
    || (2 <= |s| && IsUtf8Char(s[..2]) && WellFormed(s[2..]))
    || (3 <= |s| && IsUtf8Char(s[..3]) && WellFormed(s[3..]))
    || (4 <= |s| && IsUtf8Char(s[..4]) && WellFormed(s[4..]))
  }

  /** The length of the UTF8-char a lead octet begins, or 0 when no UTF8-char begins with it. */
  function SequenceLength(lead: byte): (n: nat)
    ensures n <= 4
  {
    if lead <= 0x7F then 1
    else if 0xC2 <= lead <= 0xDF then 2
    else if 0xE0 <= lead <= 0xEF then 3
    else if 0xF0 <= lead <= 0xF4 then 4
    else 0
  }

  /** The lead octet of a UTF8-char says how long it is, so no UTF8-char is a prefix of another. */
  lemma CharLength(s: seq<byte>)
    requires IsUtf8Char(s)
    ensures 0 < |s| == SequenceLength(s[0])
  {
  }

  /** A non-empty well-formed sequence splits in one way only: after the UTF8-char its lead octet announces. */
  lemma WellFormedSplit(s: seq<byte>)
    requires WellFormed(s) && |s| > 0
    ensures var n := SequenceLength(s[0]); 0 < n <= |s| && IsUtf8Char(s[..n]) && WellFormed(s[n..])
  {
    var n :| 1 <= n <= 4 && n <= |s| && IsUtf8Char(s[..n]) && WellFormed(s[n..]);
    CharLength(s[..n]);
  }

  /** One UTF8-char followed by a well-formed sequence is well-formed. */
  lemma WellFormedCons(c: seq<byte>, s: seq<byte>)
    requires IsUtf8Char(c) && WellFormed(s)
    ensures WellFormed(c + s)
  {
    CharLength(c);
    assert (c + s)[..|c|] == c;
    assert (c + s)[|c|..] == s;
  }

  /** The Unicode scalar value a UTF8-char encodes. */
  function ScalarValue(s: seq<byte>): (v: int)
    requires IsUtf8Char(s)
    ensures 0 <= v < 0xD800 || 0xE000 <= v < 0x11_0000
    ensures |s| == 1 <==> v < 0x80
    ensures |s| == 2 <==> 0x80 <= v < 0x800
    ensures |s| == 3 <==> 0x800 <= v < 0x1_0000
    ensures |s| == 4 <==> 0x1_0000 <= v
  {
    if |s| == 1 then
      s[0] as int
    else if |s| == 2 then
      (s[0] as int - 0xC0) * 0x40 + (s[1] as int - 0x80)
    else if |s| == 3 then
      (s[0] as int - 0xE0) * 0x1000 + (s[1] as int - 0x80) * 0x40 + (s[2] as int - 0x80)
    else
      (s[0] as int - 0xF0) * 0x4_0000 + (s[1] as int - 0x80) * 0x1000
        + (s[2] as int - 0x80) * 0x40 + (s[3] as int - 0x80)
  }

  /** The UTF-8 encoding of one character. */
  function EncodeChar(c: char): (s: seq<byte>)
    ensures IsUtf8Char(s) && ScalarValue(s) == c as int
  {
    var v := c as int;
    if v < 0x80 then
      [v as byte]
    else if v < 0x800 then
      EncodeTwo(v);
      [(0xC0 + v / 0x40) as byte, (0x80 + v % 0x40) as byte]
    else if v < 0x1_0000 then
      EncodeThree(v);
      [(0xE0 + v / 0x1000) as byte, (0x80 + v / 0x40 % 0x40) as byte, (0x80 + v % 0x40) as byte]
    else
      EncodeFour(v);
      [(0xF0 + v / 0x4_0000) as byte, (0x80 + v / 0x1000 % 0x40) as byte,
       (0x80 + v / 0x40 % 0x40) as byte, (0x80 + v % 0x40) as byte]
  }

  lemma EncodeTwo(v: int)
    requires 0x80 <= v < 0x800
    ensures 0xC2 <= 0xC0 + v / 0x40 <= 0xDF && 0 <= v % 0x40 < 0x40
    ensures (v / 0x40) * 0x40 + v % 0x40 == v
  {
  }

  lemma EncodeThree(v: int)
    requires 0x800 <= v < 0xD800 || 0xE000 <= v < 0x1_0000
    ensures var s := [(0xE0 + v / 0x1000) as byte, (0x80 + v / 0x40 % 0x40) as byte, (0x80 + v % 0x40) as byte];
      IsUtf8Char(s) && ScalarValue(s) == v
  {
    var hi, mid, lo := v / 0x1000, v / 0x40 % 0x40, v % 0x40;
    assert v / 0x40 == hi * 0x40 + mid;
    assert v == hi * 0x1000 + mid * 0x40 + lo;
    assert hi == 0 ==> mid >= 0x20;
    assert hi == 0xD ==> mid < 0x20;
  }

  lemma EncodeFour(v: int)
    requires 0x1_0000 <= v < 0x11_0000
    ensures var s := [(0xF0 + v / 0x4_0000) as byte, (0x80 + v / 0x1000 % 0x40) as byte,
                      (0x80 + v / 0x40 % 0x40) as byte, (0x80 + v % 0x40) as byte];
      IsUtf8Char(s) && ScalarValue(s) == v
  {
    var top, hi, mid, lo := v / 0x4_0000, v / 0x1000 % 0x40, v / 0x40 % 0x40, v % 0x40;
    assert v / 0x1000 == top * 0x40 + hi;
    assert v / 0x40 == (top * 0x40 + hi) * 0x40 + mid;
    assert v == top * 0x4_0000 + hi * 0x1000 + mid * 0x40 + lo;
    assert top == 0 ==> hi >= 0x10;
    assert top == 4 ==> hi < 0x10;
  }

  /** Every UTF8-char is the encoding of the character it decodes to. */
  lemma EncodeScalarValue(s: seq<byte>)
    requires IsUtf8Char(s)
    ensures EncodeChar(ScalarValue(s) as char) == s
  {
    if |s| == 2 {
      EncodeScalarValueTwo(s);
    } else if |s| == 3 {
      EncodeScalarValueThree(s);
    } else if |s| == 4 {
      EncodeScalarValueFour(s);
    }
  }

  lemma EncodeScalarValueTwo(s: seq<byte>)
    requires |s| == 2 && IsUtf8Char(s)
    ensures EncodeChar(ScalarValue(s) as char) == s
  {
    var v := ScalarValue(s);
    DivMod(s[0] as int - 0xC0, s[1] as int - 0x80);
    assert EncodeChar(v as char) == [(0xC0 + v / 0x40) as byte, (0x80 + v % 0x40) as byte];
  }

  lemma EncodeScalarValueThree(s: seq<byte>)
    requires |s| == 3 && IsUtf8Char(s)
    ensures EncodeChar(ScalarValue(s) as char) == s
  {
    var hi, mid, lo := s[0] as int - 0xE0, s[1] as int - 0x80, s[2] as int - 0x80;
    var v := hi * 0x1000 + mid * 0x40 + lo;
    assert v == ScalarValue(s);
    DecodeThree(hi, mid, lo);
    assert 0x800 <= v < 0xD800 || 0xE000 <= v < 0x1_0000;
    assert EncodeChar(v as char) == [(0xE0 + hi) as byte, (0x80 + mid) as byte, (0x80 + lo) as byte];
    assert s == [s[0], s[1], s[2]];
  }

  lemma EncodeScalarValueFour(s: seq<byte>)
    requires |s| == 4 && IsUtf8Char(s)
    ensures EncodeChar(ScalarValue(s) as char) == s
  {
    var top, hi, mid, lo := s[0] as int - 0xF0, s[1] as int - 0x80, s[2] as int - 0x80, s[3] as int - 0x80;
    var v := top * 0x4_0000 + hi * 0x1000 + mid * 0x40 + lo;
    assert v == ScalarValue(s);
    DecodeFour(top, hi, mid, lo);
    assert 0x1_0000 <= v < 0x11_0000;
    assert EncodeChar(v as char)
      == [(0xF0 + top) as byte, (0x80 + hi) as byte, (0x80 + mid) as byte, (0x80 + lo) as byte];
    assert s == [s[0], s[1], s[2], s[3]];
  }

  lemma DecodeThree(hi: int, mid: int, lo: int)
    requires 0 <= hi < 0x10 && 0 <= mid < 0x40 && 0 <= lo < 0x40
    ensures var v := hi * 0x1000 + mid * 0x40 + lo;
      v / 0x1000 == hi && v / 0x40 % 0x40 == mid && v % 0x40 == lo
  {
    DivMod(hi * 0x40 + mid, lo);
    DivMod(hi, mid);
  }

  lemma DecodeFour(top: int, hi: int, mid: int, lo: int)
    requires 0 <= top < 8 && 0 <= hi < 0x40 && 0 <= mid < 0x40 && 0 <= lo < 0x40
    ensures var v := top * 0x4_0000 + hi * 0x1000 + mid * 0x40 + lo;
      v / 0x4_0000 == top && v / 0x1000 % 0x40 == hi && v / 0x40 % 0x40 == mid && v % 0x40 == lo
  {
    var v := top * 0x4_0000 + hi * 0x1000 + mid * 0x40 + lo;
    DivMod((top * 0x40 + hi) * 0x40 + mid, lo);
    DivMod(top * 0x40 + hi, mid);
    DivMod(top, hi);
    assert v / 0x1000 == top * 0x40 + hi;
  }

  lemma DivMod(q: int, r: int)
    requires 0 <= q && 0 <= r < 0x40
    ensures (q * 0x40 + r) / 0x40 == q && (q * 0x40 + r) % 0x40 == r
  {
  }

  /** The UTF-8 encoding of a text: its characters' encodings, in order. */
  function Encode(t: string): seq<byte>
  {
    if |t| == 0 then [] else EncodeChar(t[0]) + Encode(t[1..])
  }

  /** Every text encodes to well-formed UTF-8. */
  lemma {:induction false} EncodeWellFormed(t: string)
    ensures WellFormed(Encode(t))
  {
    if |t| > 0 {
      EncodeWellFormed(t[1..]);
      WellFormedCons(EncodeChar(t[0]), Encode(t[1..]));
    }
  }

  /** Rust's `Utf8Error`: how many leading bytes were valid UTF-8. */
  datatype Utf8Error = Utf8Error(validUpTo: nat)

  /**
   What `str::from_utf8` does with a byte slice: the text the bytes encode,
   or an error giving the longest valid prefix. Nothing is repaired or
   replaced: success returns text whose encoding is the input itself.
   */
  function Decode(b: seq<byte>): (r: Result<string, Utf8Error>)
    ensures r.Ok? ==> Encode(r.value) == b
    ensures r.Err? ==> r.error.validUpTo < |b|
    decreases |b|
  {
    if |b| == 0 then
      Ok([])
    else if !StartsWithChar(b) then
      Err(Utf8Error(0))
    else
      var n := SequenceLength(b[0]);
      match Decode(b[n..])
      case Ok(rest) =>
        EncodeAfterChar(b, n, rest);
        Ok([ScalarValue(b[..n]) as char] + rest)
      case Err(e) =>
        Err(Utf8Error(n + e.validUpTo))
  }

  /**
   A decoding error reports Rust's `valid_up_to`: the bytes before it are
   well-formed, and no longer prefix of the input is.
   */
  lemma {:induction false} DecodeErrorValidUpTo(b: seq<byte>)
    requires Decode(b).Err?
    ensures WellFormed(b[..Decode(b).error.validUpTo])
    ensures forall j :: Decode(b).error.validUpTo < j <= |b| ==> !WellFormed(b[..j])
    decreases |b|
  {
    if !StartsWithChar(b) {
      NoCharAtStart(b);
      assert b[..0] == [];
    } else {
      var n := SequenceLength(b[0]);
      DecodeErrorValidUpTo(b[n..]);
      ErrorAfterChar(b, n, Decode(b[n..]).error.validUpTo);
    }
  }

  /** A whole UTF8-char begins `b`. */
  predicate StartsWithChar(b: seq<byte>)
    requires |b| > 0
  {
    var n := SequenceLength(b[0]);
    0 < n <= |b| && IsUtf8Char(b[..n])
  }

  /** A first UTF8-char followed by the encoding of `rest` is the encoding of its character then `rest`. */
  lemma EncodeAfterChar(b: seq<byte>, n: nat, rest: string)
    requires 0 < n <= |b| && IsUtf8Char(b[..n]) && Encode(rest) == b[n..]
    ensures Encode([ScalarValue(b[..n]) as char] + rest) == b
  {
    var c := ScalarValue(b[..n]) as char;
    var t := [c] + rest;
    EncodeScalarValue(b[..n]);
    assert t[0] == c && t[1..] == rest;
    assert b == b[..n] + b[n..];
  }

  /** When no UTF8-char starts `b`, no non-empty prefix of `b` is well-formed. */
  lemma NoCharAtStart(b: seq<byte>)
    requires |b| > 0 && !StartsWithChar(b)
    ensures forall j :: 0 < j <= |b| ==> !WellFormed(b[..j])
  {
    var n := SequenceLength(b[0]);
    forall j | 0 < j <= |b| ensures !WellFormed(b[..j]) {
      if WellFormed(b[..j]) {
        WellFormedSplit(b[..j]);
        assert false;
      }
    }
  }

  /** A decoding error found after a first complete UTF8-char is an error of `b`, shifted by that char. */
  lemma ErrorAfterChar(b: seq<byte>, n: nat, k: nat)
    requires 0 < n <= |b| && n == SequenceLength(b[0]) && IsUtf8Char(b[..n])
    requires k < |b| - n && WellFormed(b[n..][..k])
    requires forall j :: k < j <= |b| - n ==> !WellFormed(b[n..][..j])
    ensures WellFormed(b[..n + k])
    ensures forall j :: n + k < j <= |b| ==> !WellFormed(b[..j])
  {
    assert b[..n + k] == b[..n] + b[n..][..k];
    WellFormedCons(b[..n], b[n..][..k]);
    forall j | n + k < j <= |b| ensures !WellFormed(b[..j]) {
      if WellFormed(b[..j]) {
        SuffixAfterChar(b, n, j);
        assert false;
      }
    }
  }

  /** Removing the first UTF8-char from a well-formed prefix leaves a well-formed sequence. */
  lemma SuffixAfterChar(b: seq<byte>, n: nat, j: nat)
    requires 0 < n <= j <= |b| && n == SequenceLength(b[0]) && WellFormed(b[..j])
    ensures WellFormed(b[n..][..j - n])
  {
    WellFormedSplit(b[..j]);
    assert b[..j][n..] == b[n..][..j - n];
  }

  /** Decoding succeeds exactly on well-formed UTF-8. */
  lemma DecodeSucceedsIffWellFormed(b: seq<byte>)
    ensures Decode(b).Ok? <==> WellFormed(b)
  {
    match Decode(b)
    case Ok(t) => EncodeWellFormed(t);
    case Err(_) =>
      DecodeErrorValidUpTo(b);
      assert b[..|b|] == b;
  }

  /** Decoding the encoding of a text gives the text back. */
  lemma {:induction false} DecodeEncode(t: string)
    ensures Decode(Encode(t)) == Ok(t)
  {
    if |t| > 0 {
      var b, e := Encode(t), EncodeChar(t[0]);
      CharLength(e);
      assert b[..|e|] == e && b[|e|..] == Encode(t[1..]);
      DecodeEncode(t[1..]);
      assert [t[0]] + t[1..] == t;
    }
  }
}
