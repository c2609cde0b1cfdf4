/** Characters, hexadecimal digits, UTF-16 surrogates and UTF-8 byte
    sequences, shared by the JSON stream parser and the older client's
    unicode decoder.

    Every `char` in this model stands for one byte of the C `char` type:
    the firmware handles text as raw bytes and never validates encodings.
    Bit operations of the C code (`>>`, `&`, `|` on disjoint bit ranges)
    are written here as division, remainder and addition. */
module Chars {

  datatype Option<T> = None | Some(value: T)

  const NUL: char := '\0'

  /** The content of a C string: everything before its terminator. */
  type CStr = s: seq<char> | NUL !in s

  /** `s` up to (excluding) its first NUL: what `c_str()`/`strcmp` see. */
  function UntilNul(s: seq<char>): (r: CStr)
    ensures |r| <= |s| && r == s[..|r|]
    ensures |r| < |s| ==> s[|r|] == NUL
  {
    if |s| == 0 then []
    else if s[0] == NUL then []
    else [s[0]] + UntilNul(s[1..])
  }

  predicate IsByte(c: char) { c as int < 256 }

  predicate AllBytes(s: seq<char>) { forall i :: 0 <= i < |s| ==> IsByte(s[i]) }

  /** The four whitespace characters JSON (and both JSON components) skip. */
  predicate IsJsonSpace(c: char) { c == ' ' || c == '\n' || c == '\r' || c == '\t' }

  /** C `isspace` in the "C" locale. */
  predicate IsCSpace(c: char) { IsJsonSpace(c) || c == '\U{0B}' || c == '\U{0C}' }

  predicate IsDigit(c: char) { '0' <= c <= '9' }

  predicate IsHexDigit(c: char) { '0' <= c <= '9' || 'a' <= c <= 'f' || 'A' <= c <= 'F' }

  function HexDigitValue(c: char): (v: nat)
    requires IsHexDigit(c)
    ensures v < 16
  {
    if '0' <= c <= '9' then c as int - '0' as int
    else if 'a' <= c <= 'f' then c as int - 'a' as int + 10
    else c as int - 'A' as int + 10
  }

  function HexDigitChar(v: nat): (c: char)
    requires v < 16
    ensures IsHexDigit(c) && HexDigitValue(c) == v
  {
    if v < 10 then ('0' as int + v) as char else ('a' as int + v - 10) as char
  }

  /** Four hexadecimal digits, as read after `\u`. */
  predicate IsHex4(h: seq<char>) { |h| == 4 && forall i :: 0 <= i < 4 ==> IsHexDigit(h[i]) }

  function Hex4Value(h: seq<char>): (v: nat)
    requires IsHex4(h)
    ensures v < 0x10000
  {
    HexDigitValue(h[0]) * 0x1000 + HexDigitValue(h[1]) * 0x100 + HexDigitValue(h[2]) * 0x10 + HexDigitValue(h[3])
  }

  /** The four lower-case hex digits of a UTF-16 code unit; inverse of `Hex4Value`. */
  function Hex4(v: nat): (h: seq<char>)
    requires v < 0x10000
    ensures IsHex4(h) && Hex4Value(h) == v
  {
    var h := [HexDigitChar(v / 0x1000), HexDigitChar(v / 0x100 % 0x10), HexDigitChar(v / 0x10 % 0x10), HexDigitChar(v % 0x10)];
    HexPlaces(v);
    h
  }

  lemma HexPlaces(v: nat)
    requires v < 0x10000
    ensures v / 0x1000 < 16
    ensures v == (v / 0x1000) * 0x1000 + (v / 0x100 % 0x10) * 0x100 + (v / 0x10 % 0x10) * 0x10 + v % 0x10
  {
    var a, b, c, d := v / 0x1000, v / 0x100 % 0x10, v / 0x10 % 0x10, v % 0x10;
    assert v / 0x100 == a * 0x10 + b;
    assert v / 0x10 == (v / 0x100) * 0x10 + c;
    assert v == (v / 0x10) * 0x10 + d;
  }

  // ---------------------------------------------------------------------
  // UTF-16 surrogates (section 2 of RFC 2781)

  predicate IsHighSurrogate(u: int) { 0xD800 <= u <= 0xDBFF }
  predicate IsLowSurrogate(u: int) { 0xDC00 <= u <= 0xDFFF }

  /** `0x10000 + ((hi - 0xD800) << 10) + (lo - 0xDC00)`: the decoding step of
      section 2.2 of RFC 2781. */
  function CombineSurrogates(hi: int, lo: int): (cp: int)
    requires IsHighSurrogate(hi) && IsLowSurrogate(lo)
    ensures 0x10000 <= cp <= 0x10FFFF
  {
    0x10000 + (hi - 0xD800) * 1024 + (lo - 0xDC00)
  }

  /** The encoding step of section 2.1 of RFC 2781. */
  function SplitSurrogates(cp: int): (pair: (int, int))
    requires 0x10000 <= cp <= 0x10FFFF
    ensures IsHighSurrogate(pair.0) && IsLowSurrogate(pair.1)
  {
    (0xD800 + (cp - 0x10000) / 1024, 0xDC00 + (cp - 0x10000) % 1024)
  }

  lemma SurrogatesRoundTrip(hi: int, lo: int, cp: int)
    requires IsHighSurrogate(hi) && IsLowSurrogate(lo)
    requires 0x10000 <= cp <= 0x10FFFF
    ensures SplitSurrogates(CombineSurrogates(hi, lo)) == (hi, lo)
    ensures CombineSurrogates(SplitSurrogates(cp).0, SplitSurrogates(cp).1) == cp
  {
  }

  // ---------------------------------------------------------------------
  // UTF-8 (RFC 3629)

  /** The bytes both decoders emit for a single `\uXXXX` code unit: one byte
      below 0x80, two below 0x800, otherwise three (section 3 of RFC 3629). */
  function Utf8Bmp(cp: nat): (r: seq<char>)
    requires cp < 0x10000
    ensures |r| == (if cp < 0x80 then 1 else if cp < 0x800 then 2 else 3)
    ensures AllBytes(r)
  {
    if cp < 0x80 then [cp as char]
    else if cp < 0x800 then [(0xC0 + cp / 64) as char, (0x80 + cp % 64) as char]
    else [(0xE0 + cp / 4096 % 16) as char, (0x80 + cp / 64 % 64) as char, (0x80 + cp % 64) as char]
  }

  /** The four bytes emitted for a combined surrogate pair. */
  function Utf8Supplementary(cp: nat): (r: seq<char>)
    requires 0x10000 <= cp <= 0x10FFFF
    ensures |r| == 4 && AllBytes(r)
  {
    [(0xF0 + cp / 262144 % 8) as char, (0x80 + cp / 4096 % 64) as char,
     (0x80 + cp / 64 % 64) as char, (0x80 + cp % 64) as char]
  }

  predicate IsTail(c: char) { 0x80 <= c as int <= 0xBF }

  predicate InRange(c: char, lo: int, hi: int) { lo <= c as int <= hi }

  /** One well-formed UTF-8 character, following the `UTF8-char` rule of the
      syntax in section 4 of RFC 3629 (no overlong forms, no surrogates,
      nothing above U+10FFFF). */
  predicate WellFormedUtf8Char(b: seq<char>)
  {
    || (|b| == 1 && b[0] as int <= 0x7F)
    || (|b| == 2 && InRange(b[0], 0xC2, 0xDF) && IsTail(b[1]))
    || (|b| == 3 && IsTail(b[2]) &&
        (|| (b[0] as int == 0xE0 && InRange(b[1], 0xA0, 0xBF))
         || (InRange(b[0], 0xE1, 0xEC) && IsTail(b[1]))
         || (b[0] as int == 0xED && InRange(b[1], 0x80, 0x9F))
         || (InRange(b[0], 0xEE, 0xEF) && IsTail(b[1]))))
    || (|b| == 4 && IsTail(b[2]) && IsTail(b[3]) &&
        (|| (b[0] as int == 0xF0 && InRange(b[1], 0x90, 0xBF))
         || (InRange(b[0], 0xF1, 0xF3) && IsTail(b[1]))
         || (b[0] as int == 0xF4 && InRange(b[1], 0x80, 0x8F))))
  }

  /** The code point a 1- to 4-byte sequence carries in its payload bits. */
  function Utf8Value(b: seq<char>): int
    requires 1 <= |b| <= 4
  {
    if |b| == 1 then b[0] as int
    else if |b| == 2 then (b[0] as int - 0xC0) * 64 + (b[1] as int - 0x80)
    else if |b| == 3 then (b[0] as int - 0xE0) * 4096 + (b[1] as int - 0x80) * 64 + (b[2] as int - 0x80)
    else (b[0] as int - 0xF0) * 262144 + (b[1] as int - 0x80) * 4096 + (b[2] as int - 0x80) * 64 + (b[3] as int - 0x80)
  }

  /** A code unit outside the surrogate range is encoded as well-formed
      UTF-8 that decodes back to it. */
  lemma Utf8BmpRoundTrip(cp: nat)
    requires cp < 0x10000 && !(0xD800 <= cp <= 0xDFFF)
    ensures WellFormedUtf8Char(Utf8Bmp(cp))
    ensures Utf8Value(Utf8Bmp(cp)) == cp
  {
    if cp < 0x80 {
    } else if cp < 0x800 {
      assert cp == (cp / 64) * 64 + cp % 64;
      assert 2 <= cp / 64 < 32;
    } else {
      var a, b := cp / 4096, cp / 64 % 64;
      assert cp / 64 == a * 64 + b;
      assert cp == (cp / 64) * 64 + cp % 64;
      assert a < 16 && a % 16 == a;
      assert a == 0 ==> b >= 32;
      assert a == 13 ==> b < 32;
    }
  }

  /** A lone surrogate (the decoders' fallback when no low surrogate
      follows a high one) becomes the three bytes ED A0..BF xx, which the
      UTF-8 syntax of RFC 3629 forbids. */
  lemma Utf8LoneSurrogateIllFormed(cp: nat)
    requires 0xD800 <= cp <= 0xDFFF
    ensures !WellFormedUtf8Char(Utf8Bmp(cp))
    ensures Utf8Value(Utf8Bmp(cp)) == cp
  {
  }

  /** A combined surrogate pair is encoded as well-formed 4-byte UTF-8 that
      decodes back to the code point. */
  lemma Utf8SupplementaryRoundTrip(cp: nat)
    requires 0x10000 <= cp <= 0x10FFFF
    ensures WellFormedUtf8Char(Utf8Supplementary(cp))
    ensures Utf8Value(Utf8Supplementary(cp)) == cp
  {
    var a, b, c, d := cp / 262144, cp / 4096 % 64, cp / 64 % 64, cp % 64;
    assert cp / 4096 == a * 64 + b;
    assert cp / 64 == (cp / 4096) * 64 + c;
    assert cp == (cp / 64) * 64 + d;
    assert a <= 4 && a % 8 == a;
    assert a == 0 ==> b >= 16;
    assert a == 4 ==> b < 16;
  }
}
