/** UTF-8 as far as the text adapters need it: which byte sequences are valid
    `str` contents, and which encoded characters are Unicode white space. */
module Utf8 {
  import opened Platform

  predicate IsContinuation(b: Byte) {
    0x80 <= b <= 0xBF
  }

  /** Width of the well-formed UTF-8 character at the front of `s` (Table 3-7
      of the Unicode Standard, chapter 3), or 0 if `s` does not start with one. */
  function CharWidth(s: seq<Byte>): (k: nat)
    ensures k <= 4 && k <= |s|
  {
    if |s| == 0 then 0
    else if s[0] <= 0x7F then 1
    else if 0xC2 <= s[0] <= 0xDF then
      if |s| >= 2 && IsContinuation(s[1]) then 2 else 0
    else if 0xE0 <= s[0] <= 0xEF then
      var lo: Byte := if s[0] == 0xE0 then 0xA0 else 0x80;
      var hi: Byte := if s[0] == 0xED then 0x9F else 0xBF;
      if |s| >= 3 && lo <= s[1] <= hi && IsContinuation(s[2]) then 3 else 0
    else if 0xF0 <= s[0] <= 0xF4 then
      var lo: Byte := if s[0] == 0xF0 then 0x90 else 0x80;
      var hi: Byte := if s[0] == 0xF4 then 0x8F else 0xBF;
      if |s| >= 4 && lo <= s[1] <= hi && IsContinuation(s[2]) && IsContinuation(s[3]) then 4 else 0
    else 0
  }

  /** `s` is a sequence of well-formed UTF-8 characters: the invariant of
      every Rust `String` and `str`. */
  predicate ValidUtf8(s: seq<Byte>)
    decreases |s|
  {
    |s| == 0 || (CharWidth(s) > 0 && ValidUtf8(s[CharWidth(s)..]))
  }

  /** The code points with the Unicode White_Space property, which
      `char::is_whitespace` (and so `str::trim`) recognises. */
  const WhiteSpace: set<nat> := {
    0x09, 0x0A, 0x0B, 0x0C, 0x0D, 0x20, 0x85, 0xA0, 0x1680,
    0x2000, 0x2001, 0x2002, 0x2003, 0x2004, 0x2005, 0x2006, 0x2007, 0x2008, 0x2009, 0x200A,
    0x2028, 0x2029, 0x202F, 0x205F, 0x3000 }

  /** The UTF-8 encoding of code point `c`. */
  function EncodeScalar(c: nat): (w: seq<Byte>)
    requires c < 0x11_0000
    ensures 1 <= |w| <= 4
  {
    if c < 0x80 then [c as Byte]
    else if c < 0x800 then [(0xC0 + c / 0x40) as Byte, (0x80 + c % 0x40) as Byte]
    else if c < 0x1_0000 then
      [(0xE0 + c / 0x1000) as Byte, (0x80 + c / 0x40 % 0x40) as Byte, (0x80 + c % 0x40) as Byte]
    else
      [(0xF0 + c / 0x4_0000) as Byte, (0x80 + c / 0x1000 % 0x40) as Byte,
       (0x80 + c / 0x40 % 0x40) as Byte, (0x80 + c % 0x40) as Byte]
  }

  /** The width of a white-space character whose encoding starts with `b`, or 0
      when no white-space character starts with `b`. */
  function WsLeadWidth(b: Byte): (k: nat)
    ensures k <= 3
  {
    if b < 0x80 then 1 else if b == 0xC2 then 2 else if 0xE1 <= b <= 0xE3 then 3 else 0
  }

  /** `w` is, byte for byte, the encoding of one white-space character. */
  predicate IsWsChar(w: seq<Byte>) {
    if |w| == 1 then w[0] == 0x20 || 0x09 <= w[0] <= 0x0D
    else if |w| == 2 then w[0] == 0xC2 && (w[1] == 0x85 || w[1] == 0xA0)
    else if |w| == 3 then IsWs3(w[0], w[1], w[2])
    else false
  }

  /** The three-byte white-space encodings: U+1680, U+2000 to U+200A, U+2028,
      U+2029, U+202F, U+205F and U+3000. */
  predicate IsWs3(b0: Byte, b1: Byte, b2: Byte) {
    || (b0 == 0xE1 && b1 == 0x9A && b2 == 0x80)
    || (b0 == 0xE2 && b1 == 0x80 && (0x80 <= b2 <= 0x8A || b2 == 0xA8 || b2 == 0xA9 || b2 == 0xAF))
    || (b0 == 0xE2 && b1 == 0x81 && b2 == 0x9F)
    || (b0 == 0xE3 && b1 == 0x80 && b2 == 0x80)
  }

  /** The first byte of a white-space encoding fixes its width. */
  lemma WsCharWidth(w: seq<Byte>)
    requires IsWsChar(w)
    ensures |w| == WsLeadWidth(w[0])
  {
  }

  /** Every White_Space code point is encoded as a sequence `IsWsChar` accepts. */
  lemma WhiteSpaceEncodingsRecognised(c: nat)
    requires c in WhiteSpace
    ensures IsWsChar(EncodeScalar(c))
  {
  }

  /** Only encodings of White_Space code points are accepted by `IsWsChar`. */
  lemma RecognisedAreWhiteSpaceEncodings(w: seq<Byte>)
    requires IsWsChar(w)
    ensures exists c :: c in WhiteSpace && EncodeScalar(c) == w
  {
    var c: nat;
    if |w| == 1 {
      c := w[0] as nat;
    } else if |w| == 2 {
      c := 0x80 + (w[1] as nat - 0x80);
    } else if w[0] == 0xE1 {
      c := 0x1680;
    } else if w[0] == 0xE3 {
      c := 0x3000;
    } else if w[1] == 0x81 {
      c := 0x205F;
    } else {
      c := 0x2000 + (w[2] as nat - 0x80);
    }
    assert EncodeScalar(c) == w;
  }

  /** A white-space encoding is itself one well-formed character whose width
      is fixed by its first byte; it never starts with a continuation byte. */
  lemma WsCharIsOneChar(s: seq<Byte>, k: nat)
    requires k <= |s| && IsWsChar(s[..k])
    ensures CharWidth(s) == k
    ensures !IsContinuation(s[0])
  {
  }
}
