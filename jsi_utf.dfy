/*
 * The string helpers of the JavaScript Interface layer: a UTF-8 decoder
 * that replaces malformed input by U+FFFD (RFC 3629, section 3), the UTF-16
 * encoder (RFC 2781, section 2.1), the conversion built from the two, and
 * the helpers that spell out UTF-16 code units as `\uXXXX` escapes.
 *
 * The decoder reads a zero-terminated buffer (`At`): the byte after the last
 * one is a zero, and the decoder's bounds checks rely on it.
 */
module JsiUtf {
  import opened Unicode
  import Arith

  /** Decodes the code point starting at `i` as the decoder is written, and
      returns it with the position after it. A malformed sequence gives
      U+FFFD and skips the bytes read up to the offending one; an overlong
      encoding or one beyond U+10FFFF gives U+FFFD and skips the whole
      sequence. A three-byte encoding of a surrogate is let through.
      What comes out is a code point, and the position moves on by one to
      four bytes. */
  function DecodeUTF8AsWritten(s: seq<Byte>, i: int): (r: (int, int))
    ensures IsCodePoint(r.0) && i < r.1 <= i + 4
  {
    var ch := At(s, i);
    if ch <= 0x7F then (ch, i + 1)
    else if 0xC0 <= ch <= 0xDF then
      var ch1 := At(s, i + 1);
      if !IsContinuation(ch1) then (ReplacementCharacter, i + 1)
      else
        var ret := (ch % 0x20) * 0x40 + ch1 % 0x40;
        if ret <= 0x7F then (ReplacementCharacter, i + 2) else (ret, i + 2)
    else if 0xE0 <= ch <= 0xEF then
      var ch1 := At(s, i + 1);
      if !IsContinuation(ch1) then (ReplacementCharacter, i + 1)
      else
        var ch2 := At(s, i + 2);
        if !IsContinuation(ch2) then (ReplacementCharacter, i + 2)
        else
          var ret := (ch % 0x10) * 0x1000 + (ch1 % 0x40) * 0x40 + ch2 % 0x40;
          if ret <= 0x7FF then (ReplacementCharacter, i + 3) else (ret, i + 3)
    else if 0xF0 <= ch <= 0xF7 then
      var ch1 := At(s, i + 1);
      if !IsContinuation(ch1) then (ReplacementCharacter, i + 1)
      else
        var ch2 := At(s, i + 2);
        if !IsContinuation(ch2) then (ReplacementCharacter, i + 2)
        else
          var ch3 := At(s, i + 3);
          if !IsContinuation(ch3) then (ReplacementCharacter, i + 3)
          else
            var ret := (ch % 0x8) * 0x4_0000 + (ch1 % 0x40) * 0x1000 + (ch2 % 0x40) * 0x40 + ch3 % 0x40;
            if ret <= 0xFFFF then (ReplacementCharacter, i + 4)
            else if ret > UnicodeMaxValue then (ReplacementCharacter, i + 4)
            else (ret, i + 4)
    else (ReplacementCharacter, i + 1)
  }

  /** The decoder with encoded surrogates, which RFC 3629 forbids, replaced
      by U+FFFD like every other malformed sequence. */
  function DecodeUTF8(s: seq<Byte>, i: int): (r: (int, int))
    ensures IsScalarValue(r.0)
  {
    var (cp, next) := DecodeUTF8AsWritten(s, i);
    if IsHighSurrogate(cp) || IsLowSurrogate(cp) then (ReplacementCharacter, next) else (cp, next)
  }

  /** The decoder always makes progress and never goes past the terminating
      zero, and it yields a code point. */
  lemma DecodeUTF8Bounds(s: seq<Byte>, i: int)
    requires 0 <= i < |s|
    ensures var (cp, next) := DecodeUTF8AsWritten(s, i);
      i < next <= |s| && 0 <= cp <= UnicodeMaxValue
  {
  }

  /** A three-byte encoding of the surrogate U+D800 decodes, as written, to
      the surrogate itself rather than to U+FFFD. */
  lemma DecodeUTF8AsWrittenLetsSurrogateThrough()
    ensures DecodeUTF8AsWritten([0xED, 0xA0, 0x80], 0) == (0xD800, 3)
    ensures IsHighSurrogate(DecodeUTF8AsWritten([0xED, 0xA0, 0x80], 0).0)
    ensures DecodeUTF8([0xED, 0xA0, 0x80], 0) == (ReplacementCharacter, 3)
  {
  }

  /** A well-formed two-byte sequence decodes to its payload. */
  lemma DecodeTwoBytes(s: seq<Byte>, i: int, hi: int, lo: int)
    requires 2 <= hi < 0x20 && 0 <= lo < 0x40
    requires At(s, i) == 0xC0 + hi && At(s, i + 1) == 0x80 + lo
    ensures DecodeUTF8AsWritten(s, i) == (hi * 0x40 + lo, i + 2)
  {
    Arith.DivModUnique(0xC0 + hi, 0x20, 6, hi);
    Arith.DivModUnique(0x80 + lo, 0x40, 2, lo);
  }

  /** A well-formed, not overlong three-byte sequence decodes to its payload. */
  lemma DecodeThreeBytes(s: seq<Byte>, i: int, a: int, b: int, c: int)
    requires 0 <= a < 0x10 && 0 <= b < 0x40 && 0 <= c < 0x40 && a * 0x1000 + b * 0x40 + c > 0x7FF
    requires At(s, i) == 0xE0 + a && At(s, i + 1) == 0x80 + b && At(s, i + 2) == 0x80 + c
    ensures DecodeUTF8AsWritten(s, i) == (a * 0x1000 + b * 0x40 + c, i + 3)
  {
    Arith.DivModUnique(0xE0 + a, 0x10, 14, a);
    Arith.DivModUnique(0x80 + b, 0x40, 2, b);
    Arith.DivModUnique(0x80 + c, 0x40, 2, c);
  }

  /** A well-formed four-byte sequence of a supplementary code point decodes
      to its payload. */
  lemma DecodeFourBytes(s: seq<Byte>, i: int, a: int, b: int, c: int, d: int)
    requires 0 <= a < 0x8 && 0 <= b < 0x40 && 0 <= c < 0x40 && 0 <= d < 0x40
    requires 0xFFFF < a * 0x4_0000 + b * 0x1000 + c * 0x40 + d <= UnicodeMaxValue
    requires At(s, i) == 0xF0 + a && At(s, i + 1) == 0x80 + b && At(s, i + 2) == 0x80 + c && At(s, i + 3) == 0x80 + d
    ensures DecodeUTF8AsWritten(s, i) == (a * 0x4_0000 + b * 0x1000 + c * 0x40 + d, i + 4)
  {
    Arith.DivModUnique(0xF0 + a, 0x8, 30, a);
    Arith.DivModUnique(0x80 + b, 0x40, 2, b);
    Arith.DivModUnique(0x80 + c, 0x40, 2, c);
    Arith.DivModUnique(0x80 + d, 0x40, 2, d);
  }

  /** `x` in base 64, from the digit at 64^2 down. */
  lemma ThreeDigits(x: int)
    requires 0 <= x
    ensures x == (x / 0x1000) * 0x1000 + (x / 0x40 % 0x40) * 0x40 + x % 0x40
  {
    Arith.DivDiv(x, 0x40, 0x40);
    assert x / 0x40 == (x / 0x40 / 0x40) * 0x40 + x / 0x40 % 0x40;
  }

  /** `x` in base 64, from the digit at 64^3 down. */
  lemma FourDigits(x: int)
    requires 0 <= x
    ensures x == (x / 0x4_0000) * 0x4_0000 + (x / 0x1000 % 0x40) * 0x1000 + (x / 0x40 % 0x40) * 0x40 + x % 0x40
  {
    Arith.DivDiv(x, 0x1000, 0x40);
    assert x / 0x1000 == (x / 0x1000 / 0x40) * 0x40 + x / 0x1000 % 0x40;
    ThreeDigits(x);
  }

  /** The bytes at `i` are those of `e`. */
  lemma BytesAt(s: seq<Byte>, i: int, e: seq<Byte>)
    requires 0 <= i && i + |e| <= |s| && s[i..i + |e|] == e
    ensures forall k :: 0 <= k < |e| ==> At(s, i + k) == e[k]
  {
    forall k | 0 <= k < |e| ensures At(s, i + k) == e[k] {
      assert s[i..i + |e|][k] == s[i + k];
    }
  }

  /** The decoder as written inverts the UTF-8 encoder on every code point
      up to U+10FFFF, surrogates included. */
  lemma DecodeAsWrittenEncode(s: seq<Byte>, i: int, cp: int)
    requires 0 <= cp <= UnicodeMaxValue
    requires 0 <= i && i + |EncodeUTF8(cp)| <= |s| && s[i..i + |EncodeUTF8(cp)|] == EncodeUTF8(cp)
    ensures DecodeUTF8AsWritten(s, i) == (cp, i + |EncodeUTF8(cp)|)
  {
    var e := EncodeUTF8(cp);
    BytesAt(s, i, e);
    if cp <= 0x7F {
      assert At(s, i) == e[0] == cp;
    } else if cp <= 0x7FF {
      assert At(s, i) == 0xC0 + cp / 0x40 && At(s, i + 1) == 0x80 + cp % 0x40 by {
        assert At(s, i) == e[0] && At(s, i + 1) == e[1];
      }
      DecodeTwoBytes(s, i, cp / 0x40, cp % 0x40);
    } else if cp <= 0xFFFF {
      assert At(s, i) == 0xE0 + cp / 0x1000 && At(s, i + 1) == 0x80 + cp / 0x40 % 0x40 && At(s, i + 2) == 0x80 + cp % 0x40 by {
        assert At(s, i) == e[0] && At(s, i + 1) == e[1] && At(s, i + 2) == e[2];
      }
      ThreeDigits(cp);
      DecodeThreeBytes(s, i, cp / 0x1000, cp / 0x40 % 0x40, cp % 0x40);
    } else {
      assert At(s, i) == 0xF0 + cp / 0x4_0000 && At(s, i + 1) == 0x80 + cp / 0x1000 % 0x40
          && At(s, i + 2) == 0x80 + cp / 0x40 % 0x40 && At(s, i + 3) == 0x80 + cp % 0x40 by {
        assert At(s, i) == e[0] && At(s, i + 1) == e[1] && At(s, i + 2) == e[2] && At(s, i + 3) == e[3];
      }
      FourDigits(cp);
      DecodeFourBytes(s, i, cp / 0x4_0000, cp / 0x1000 % 0x40, cp / 0x40 % 0x40, cp % 0x40);
    }
  }

  /** Decoding the UTF-8 encoding of a scalar value gives the value back and
      moves past its encoding. */
  lemma DecodeEncodeUTF8(s: seq<Byte>, i: int, cp: int)
    requires IsScalarValue(cp)
    requires 0 <= i && i + |EncodeUTF8(cp)| <= |s| && s[i..i + |EncodeUTF8(cp)|] == EncodeUTF8(cp)
    ensures DecodeUTF8(s, i) == (cp, i + |EncodeUTF8(cp)|)
  {
    DecodeAsWrittenEncode(s, i, cp);
  }

  /** The code points the decoder as written reads from `s` from `i` on;
      an encoded surrogate among them stays a surrogate. */
  ghost function DecodeAllFrom(s: seq<Byte>, i: int): (cps: seq<int>)
    requires 0 <= i <= |s|
    ensures forall k :: 0 <= k < |cps| ==> IsCodePoint(cps[k])
    ensures |cps| <= |s| - i
    decreases |s| - i
  {
    if i == |s| then []
    else
      DecodeUTF8Bounds(s, i);
      var (cp, next) := DecodeUTF8AsWritten(s, i);
      [cp] + DecodeAllFrom(s, next)
  }

  /** Decoding a concatenation of encodings gives back the code points,
      surrogates included. */
  lemma {:induction false} DecodeAllOfEncoded(s: seq<Byte>, i: int, cps: seq<int>)
    requires forall k :: 0 <= k < |cps| ==> IsCodePoint(cps[k])
    requires 0 <= i <= |s| && s[i..] == EncodeAllUTF8(cps)
    ensures DecodeAllFrom(s, i) == cps
    decreases |cps|
  {
    if cps == [] {
      assert |s[i..]| == 0;
    } else {
      var n := SplitFirstEncoding(s, i, cps);
      DecodeAsWrittenEncode(s, i, cps[0]);
      DecodeAllOfEncoded(s, n, cps[1..]);
      DecodeAllFromStep(s, i, cps[0], n);
      assert [cps[0]] + cps[1..] == cps;
    }
  }

  /** The encoding of the first code point starts at `i`, the rest follows. */
  lemma SplitFirstEncoding(s: seq<Byte>, i: int, cps: seq<int>) returns (n: int)
    requires forall k :: 0 <= k < |cps| ==> IsCodePoint(cps[k])
    requires cps != [] && 0 <= i <= |s| && s[i..] == EncodeAllUTF8(cps)
    ensures n == i + |EncodeUTF8(cps[0])| <= |s|
    ensures s[i..n] == EncodeUTF8(cps[0]) && s[n..] == EncodeAllUTF8(cps[1..])
  {
    var e := EncodeUTF8(cps[0]);
    assert s[i..] == e + EncodeAllUTF8(cps[1..]);
    n := i + |e|;
    assert s[i..n] == s[i..][..|e|];
    assert s[n..] == s[i..][|e|..];
  }

  /** One step of whole-string decoding. */
  lemma DecodeAllFromStep(s: seq<Byte>, i: int, cp: int, n: int)
    requires 0 <= i < |s| && DecodeUTF8AsWritten(s, i) == (cp, n)
    ensures n <= |s| && DecodeAllFrom(s, i) == [cp] + DecodeAllFrom(s, n)
  {
    DecodeUTF8Bounds(s, i);
  }

  lemma EncodeAllUTF16Cons(cp: int, cps: seq<int>)
    requires IsCodePoint(cp) && forall k :: 0 <= k < |cps| ==> IsCodePoint(cps[k])
    ensures EncodeAllUTF16([cp] + cps) == EncodeUTF16(cp) + EncodeAllUTF16(cps)
  {
    assert ([cp] + cps)[1..] == cps;
  }

  /** The conversion loop from `i` on, with `out` converted so far. */
  ghost function ConvertFrom(s: seq<Byte>, i: int, out: seq<CodeUnit>): seq<CodeUnit>
    requires 0 <= i <= |s|
    decreases |s| - i
  {
    if i == |s| then out
    else
      DecodeUTF8Bounds(s, i);
      var (cp, next) := DecodeUTF8AsWritten(s, i);
      ConvertFrom(s, next, out + EncodeUTF16(cp))
  }

  /** One step of decoding, as both the whole-string decoding and the
      conversion loop take it. */
  lemma StepAt(s: seq<Byte>, i: int, out: seq<CodeUnit>) returns (cp: int, n: int)
    requires 0 <= i < |s|
    ensures i < n <= |s| && IsCodePoint(cp)
    ensures DecodeAllFrom(s, i) == [cp] + DecodeAllFrom(s, n)
    ensures ConvertFrom(s, i, out) == ConvertFrom(s, n, out + EncodeUTF16(cp))
  {
    DecodeUTF8Bounds(s, i);
    cp, n := DecodeUTF8AsWritten(s, i).0, DecodeUTF8AsWritten(s, i).1;
  }

  /** The conversion appends the UTF-16 encoding of the decoded code points. */
  lemma {:induction false} ConvertFromMeaning(s: seq<Byte>, i: int, out: seq<CodeUnit>)
    requires 0 <= i <= |s|
    ensures ConvertFrom(s, i, out) == out + EncodeAllUTF16(DecodeAllFrom(s, i))
    decreases |s| - i
  {
    if i == |s| {
      assert out + [] == out;
    } else {
      var cp, next := StepAt(s, i, out);
      ConvertFromMeaning(s, next, out + EncodeUTF16(cp));
      var cps := DecodeAllFrom(s, next);
      EncodeAllUTF16Cons(cp, cps);
      assert out + EncodeUTF16(cp) + EncodeAllUTF16(cps) == out + (EncodeUTF16(cp) + EncodeAllUTF16(cps));
    }
  }

  /** Converts UTF-8 to UTF-16 one code point at a time, with the decoder
      as written: the UTF-16 encoding of the code points it decodes. */
  method ConvertUTF8ToUTF16(utf8: seq<Byte>) returns (ret: seq<CodeUnit>)
    ensures ret == EncodeAllUTF16(DecodeAllFrom(utf8, 0))
  {
    ret := [];
    var curr := 0;
    while curr < |utf8|
      invariant 0 <= curr <= |utf8|
      invariant ConvertFrom(utf8, curr, ret) == ConvertFrom(utf8, 0, [])
      decreases |utf8| - curr
    {
      DecodeUTF8Bounds(utf8, curr);
      var cp, next := DecodeUTF8Step(utf8, curr);
      ret := ret + EncodeUTF16(cp);
      curr := next;
    }
    ConvertFromMeaning(utf8, 0, []);
  }

  /** One call of the decoder, as the conversion makes it. */
  method DecodeUTF8Step(s: seq<Byte>, i: int) returns (cp: int, next: int)
    ensures (cp, next) == DecodeUTF8AsWritten(s, i)
  {
    var r := DecodeUTF8AsWritten(s, i);
    cp, next := r.0, r.1;
  }

  /** Converting the UTF-8 encoding of any code points gives back the same
      code points, so the UTF-16 encoding of them. */
  lemma ConvertRoundTrip(cps: seq<int>)
    requires forall k :: 0 <= k < |cps| ==> IsCodePoint(cps[k])
    ensures DecodeAllFrom(EncodeAllUTF8(cps), 0) == cps
  {
    var s := EncodeAllUTF8(cps);
    assert s[0..] == s;
    DecodeAllOfEncoded(s, 0, cps);
  }

  /** The conversion turns the encoded surrogate ED A0 80, which is not
      UTF-8, into the lone code unit 0xD800 instead of U+FFFD. */
  lemma ConvertLetsSurrogateThrough()
    ensures EncodeAllUTF16(DecodeAllFrom([0xED, 0xA0, 0x80], 0)) == [0xD800]
  {
    assert EncodeAllUTF8([0xD800]) == [0xED, 0xA0, 0x80];
    ConvertRoundTrip([0xD800]);
  }

  // ---------------------------------------------------------------------------
  // Spelling out code units.
  // ---------------------------------------------------------------------------

  /** The upper-case hexadecimal digit for a value below 16. */
  function HexDigit(x: int): (c: char)
    requires 0 <= x < 16
    ensures '0' <= c <= '9' || 'A' <= c <= 'F'
  {
    if x < 10 then (48 + x) as char else (65 + (x - 10)) as char
  }

  /** The value of a hexadecimal digit of either case, -1 for anything else. */
  function HexValue(c: char): int
  {
    if '0' <= c <= '9' then c as int - 48
    else if 'A' <= c <= 'F' then c as int - 55
    else if 'a' <= c <= 'f' then c as int - 87
    else -1
  }

  /** A digit reads back as the value it was made from. */
  lemma HexDigitRoundTrip(x: int)
    requires 0 <= x < 16
    ensures HexValue(HexDigit(x)) == x
  {
  }

  /** Whether every code unit is ASCII. */
  method IsAllASCII(utf16: seq<CodeUnit>) returns (b: bool)
    ensures b <==> forall k :: 0 <= k < |utf16| ==> utf16[k] <= 0x7F
  {
    var i := 0;
    while i != |utf16|
      invariant 0 <= i <= |utf16|
      invariant forall k :: 0 <= k < i ==> utf16[k] <= 0x7F
    {
      if utf16[i] > 0x7F {
        return false;
      }
      i := i + 1;
    }
    return true;
  }

  /** `\uXXXX` for one code unit. */
  function CodeUnitEscape(ch: CodeUnit): (e: seq<char>)
    ensures |e| == 6
  {
    ['\\', 'u', HexDigit(ch / 0x1000 % 0x10), HexDigit(ch / 0x100 % 0x10), HexDigit(ch / 0x10 % 0x10), HexDigit(ch % 0x10)]
  }

  /** The escapes of a sequence of code units, one after the other. */
  function EscapesOf(units: seq<CodeUnit>): (s: seq<char>)
    ensures |s| == 6 * |units|
  {
    if units == [] then [] else CodeUnitEscape(units[0]) + EscapesOf(units[1..])
  }

  /** The quoted string of escapes that stands for `units`. */
  function Utf16CodeUnitString(units: seq<CodeUnit>): (s: seq<char>)
    ensures |s| == 6 * |units| + 2
  {
    ['\''] + EscapesOf(units) + ['\'']
  }

  /** Every escape reads back as its code unit. */
  lemma CodeUnitEscapeExpressesUnit(ch: CodeUnit)
    ensures var e := CodeUnitEscape(ch);
      && e[0] == '\\' && e[1] == 'u'
      && HexValue(e[2]) * 0x1000 + HexValue(e[3]) * 0x100 + HexValue(e[4]) * 0x10 + HexValue(e[5]) == ch
  {
    HexDigitRoundTrip(ch / 0x1000 % 0x10);
    HexDigitRoundTrip(ch / 0x100 % 0x10);
    HexDigitRoundTrip(ch / 0x10 % 0x10);
    HexDigitRoundTrip(ch % 0x10);
    HexDigits(ch);
  }

  /** `x` in base 16, four digits. */
  lemma HexDigits(x: int)
    requires 0 <= x < 0x1_0000
    ensures x == (x / 0x1000 % 0x10) * 0x1000 + (x / 0x100 % 0x10) * 0x100 + (x / 0x10 % 0x10) * 0x10 + x % 0x10
  {
    Arith.DivDiv(x, 0x10, 0x10);
    Arith.DivDiv(x, 0x100, 0x10);
    assert x / 0x10 == (x / 0x10 / 0x10) * 0x10 + x / 0x10 % 0x10;
    assert x / 0x100 == (x / 0x100 / 0x10) * 0x10 + x / 0x100 % 0x10;
    assert x / 0x1000 % 0x10 == x / 0x1000;
  }

  /** The escape of unit `j` sits at positions 6j to 6j+5. */
  lemma {:induction false} EscapesOfAt(units: seq<CodeUnit>, j: int, d: int)
    requires 0 <= j < |units| && 0 <= d < 6
    ensures EscapesOf(units)[6 * j + d] == CodeUnitEscape(units[j])[d]
    decreases j
  {
    if j > 0 {
      EscapesOfAt(units[1..], j - 1, d);
      assert units[1..][j - 1] == units[j];
    }
  }

  /** Builds the quoted escape string in a buffer of the final size. */
  method GetUtf16CodeUnitString(utf16: seq<CodeUnit>) returns (s: seq<char>)
    ensures s == Utf16CodeUnitString(utf16)
  {
    var length := |utf16|;
    ghost var escapes := EscapesOf(utf16);
    var buf := new char[6 * length + 2]((_) => 0 as char);
    buf[0] := '\'';
    var i := 0;
    while i != length
      invariant 0 <= i <= length
      invariant buf[0] == '\''
      invariant forall k :: 1 <= k < 6 * i + 1 ==> buf[k] == escapes[k - 1]
    {
      WriteEscape(buf, 6 * i + 1, utf16[i]);
      forall k | 6 * i + 1 <= k < 6 * i + 7 ensures buf[k] == escapes[k - 1] {
        EscapesOfAt(utf16, i, k - 1 - 6 * i);
      }
      i := i + 1;
    }
    buf[6 * length + 1] := '\'';
    s := buf[..];
  }

  /** Writes the escape of `ch` at `start`, leaving the rest alone. */
  method WriteEscape(buf: array<char>, start: int, ch: CodeUnit)
    requires 0 <= start && start + 6 <= buf.Length
    modifies buf
    ensures forall k :: start <= k < start + 6 ==> buf[k] == CodeUnitEscape(ch)[k - start]
    ensures forall k :: 0 <= k < buf.Length && !(start <= k < start + 6) ==> buf[k] == old(buf[k])
  {
    buf[start] := '\\';
    buf[start + 1] := 'u';
    buf[start + 2] := HexDigit(ch / 0x1000 % 0x10);
    buf[start + 3] := HexDigit(ch / 0x100 % 0x10);
    buf[start + 4] := HexDigit(ch / 0x10 % 0x10);
    buf[start + 5] := HexDigit(ch % 0x10);
  }

  /** How a string made from UTF-16 reaches the runtime: all-ASCII text as
      its bytes, anything else as source text that evaluates to it. */
  datatype StringSource = FromAscii(bytes: seq<Byte>) | FromEval(code: seq<char>)

  /** Takes the ASCII path exactly when every unit is ASCII, copying the
      units one to one; otherwise it hands over the quoted escape string. */
  method CreateStringFromUtf16(utf16: seq<CodeUnit>) returns (r: StringSource)
    ensures r.FromAscii? <==> forall k :: 0 <= k < |utf16| ==> utf16[k] <= 0x7F
    ensures r.FromAscii? ==> r.bytes == utf16
    ensures r.FromEval? ==> r.code == Utf16CodeUnitString(utf16)
  {
    var ascii := IsAllASCII(utf16);
    if ascii {
      var buffer: seq<Byte> := [];
      var i := 0;
      while i < |utf16|
        invariant 0 <= i <= |utf16| && buffer == utf16[..i]
      {
        buffer := buffer + [utf16[i]];
        i := i + 1;
      }
      assert utf16[..i] == utf16;
      return FromAscii(buffer);
    }
    var code := GetUtf16CodeUnitString(utf16);
    return FromEval(code);
  }
}
