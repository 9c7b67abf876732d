/*
 * Unicode vocabulary shared by the UTF-8 and UTF-16 converters of the
 * Node-API layer, the JSI helpers and the lexer: bytes, UTF-16 code units,
 * surrogates (RFC 2781, section 2) and the UTF-8 encoding of a code point
 * (RFC 3629, section 3).
 */
module Unicode {

  type Byte = x: int | 0 <= x < 0x100
  type CodeUnit = x: int | 0 <= x < 0x1_0000

  /** The byte at `k` of a zero-terminated buffer whose bytes before the
      terminator are `s`: the terminating zero at and past the end. */
  function At(s: seq<Byte>, k: int): Byte
  {
    if 0 <= k < |s| then s[k] else 0
  }

  const ReplacementCharacter: int := 0xFFFD
  const UnicodeMaxValue: int := 0x10FFFF

  predicate IsHighSurrogate(c: int)
  {
    0xD800 <= c <= 0xDBFF
  }

  predicate IsLowSurrogate(c: int)
  {
    0xDC00 <= c <= 0xDFFF
  }

  /** A code point: a value from U+0000 to U+10FFFF, surrogates included. */
  predicate IsCodePoint(cp: int)
  {
    0 <= cp <= UnicodeMaxValue
  }

  /** A code point that UTF-8 and UTF-16 can both represent: not a surrogate. */
  predicate IsScalarValue(cp: int)
  {
    IsCodePoint(cp) && !IsHighSurrogate(cp) && !IsLowSurrogate(cp)
  }

  /** The code point that a high and a low surrogate stand for (RFC 2781, section 2.2). */
  function SurrogatePairToCodePoint(hi: int, lo: int): (cp: int)
    requires IsHighSurrogate(hi) && IsLowSurrogate(lo)
    ensures 0x10000 <= cp <= UnicodeMaxValue
  {
    0x10000 + (hi - 0xD800) * 0x400 + (lo - 0xDC00)
  }

  /** The number of bytes UTF-8 spends on a code point. */
  function Utf8Width(cp: int): int
  {
    if cp <= 0x7F then 1 else if cp <= 0x7FF then 2 else if cp <= 0xFFFF then 3 else 4
  }

  /** A byte of the form 10xxxxxx. */
  predicate IsContinuation(b: int)
  {
    0x80 <= b <= 0xBF
  }

  /** The UTF-8 encoding of a code point (RFC 3629, section 3). */
  function EncodeUTF8(cp: int): (bytes: seq<Byte>)
    requires 0 <= cp <= UnicodeMaxValue
    ensures |bytes| == Utf8Width(cp)
  {
    if cp <= 0x7F then
      [cp]
    else if cp <= 0x7FF then
      [0xC0 + cp / 0x40, 0x80 + cp % 0x40]
    else if cp <= 0xFFFF then
      [0xE0 + cp / 0x1000, 0x80 + cp / 0x40 % 0x40, 0x80 + cp % 0x40]
    else
      [0xF0 + cp / 0x4_0000, 0x80 + cp / 0x1000 % 0x40, 0x80 + cp / 0x40 % 0x40, 0x80 + cp % 0x40]
  }

  /** The lead byte announces the length of the encoding, and every other byte
      is a continuation byte (RFC 3629, section 3). */
  lemma EncodeUTF8Shape(cp: int)
    requires 0 <= cp <= UnicodeMaxValue
    ensures var bytes := EncodeUTF8(cp);
      && (forall k :: 1 <= k < |bytes| ==> IsContinuation(bytes[k]))
      && (|bytes| == 1 <==> bytes[0] <= 0x7F)
      && (|bytes| == 2 <==> 0xC2 <= bytes[0] <= 0xDF)
      && (|bytes| == 3 <==> 0xE0 <= bytes[0] <= 0xEF)
      && (|bytes| == 4 <==> 0xF0 <= bytes[0] <= 0xF4)
  {
  }

  /** The UTF-8 encoding of a sequence of code points. */
  function EncodeAllUTF8(cps: seq<int>): (bytes: seq<Byte>)
    requires forall i :: 0 <= i < |cps| ==> IsCodePoint(cps[i])
  {
    if |cps| == 0 then [] else assert IsCodePoint(cps[0]); EncodeUTF8(cps[0]) + EncodeAllUTF8(cps[1..])
  }

  /** Encoding a concatenation encodes the parts one after the other. */
  lemma {:induction false} EncodeAllUTF8Append(a: seq<int>, b: seq<int>)
    requires forall i :: 0 <= i < |a| ==> IsCodePoint(a[i])
    requires forall i :: 0 <= i < |b| ==> IsCodePoint(b[i])
    ensures EncodeAllUTF8(a + b) == EncodeAllUTF8(a) + EncodeAllUTF8(b)
  {
    if |a| == 0 {
      assert a + b == b;
    } else {
      assert (a + b)[1..] == a[1..] + b;
      EncodeAllUTF8Append(a[1..], b);
    }
  }

  /** The UTF-16 encoding of one code point (RFC 2781, section 2.1). */
  function EncodeUTF16(cp: int): (units: seq<CodeUnit>)
    requires 0 <= cp <= UnicodeMaxValue
    ensures |units| == (if cp < 0x10000 then 1 else 2)
    ensures |units| == 2 ==> IsHighSurrogate(units[0]) && IsLowSurrogate(units[1])
                             && SurrogatePairToCodePoint(units[0], units[1]) == cp
  {
    if cp < 0x10000 then [cp]
    else
      var v := cp - 0x10000;
      [0xD800 + v / 0x400 % 0x400, 0xDC00 + v % 0x400]
  }

  /** The UTF-16 encoding of a sequence of code points; a surrogate code
      point becomes the code unit of the same value. */
  function EncodeAllUTF16(cps: seq<int>): seq<CodeUnit>
    requires forall i :: 0 <= i < |cps| ==> IsCodePoint(cps[i])
  {
    if |cps| == 0 then [] else assert IsCodePoint(cps[0]); EncodeUTF16(cps[0]) + EncodeAllUTF16(cps[1..])
  }
}
