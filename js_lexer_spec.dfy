/*
 * What the JavaScript lexer's scanners compute, as functions of the source
 * buffer and the cursor. The buffer is zero-terminated (`At`), which is what
 * stops every scanner at the end. The UTF-8 decoder the lexer falls back on
 * for non-ASCII bytes is not part of this model: it is the parameter
 * `decode`, of which all that is known is that it moves forward and stays
 * inside the buffer.
 *
 * Storage is kept as a sequence of code points; the lexer's own storage
 * holds their UTF-8 encoding, which this model does not spell out.
 */
module JSLexerSpec {
  import opened Unicode
  import JsiUtf

  datatype Option<T> = None | Some(value: T)

  /** One more than the largest unsigned 32-bit value. */
  const Uint32Limit: int := 0x1_0000_0000

  const LineFeed: int := 0x0A
  const CarriageReturn: int := 0x0D

  /** The lexer's fallback UTF-8 decoder, called at a byte that starts a
      multi-byte sequence, gives a code point and the position after it. */
  ghost predicate DecodeAdvances(s: seq<Byte>, decode: (seq<Byte>, int) -> (int, int))
  {
    forall i :: 0 <= i < |s| ==> i < decode(s, i).1 <= |s|
  }

  predicate IsDecimalDigit(b: int)
  {
    '0' as int <= b <= '9' as int
  }

  predicate IsOctalDigit(b: int)
  {
    '0' as int <= b <= '7' as int
  }

  /** A byte that starts a multi-byte UTF-8 sequence. */
  predicate IsUTF8Start(b: int)
  {
    b >= 0x80
  }

  /** `b | 32`: the byte with the bit set that makes an ASCII letter lower
      case. That bit (32) is clear exactly in the first half of each block
      of 64 byte values. */
  function LowerCaseBit(b: Byte): int
  {
    if b < 0x20 || 0x40 <= b < 0x60 || 0x80 <= b < 0xA0 || 0xC0 <= b < 0xE0 then b + 32 else b
  }

  /** A hexadecimal digit as the fixed-length hex reader sees it: a decimal
      digit, or a letter from a to f once the lower-case bit is set; -1 for
      anything else. */
  function HexDigitOf(b: Byte): int
  {
    if IsDecimalDigit(b) then b - '0' as int
    else if 'a' as int <= LowerCaseBit(b) <= 'f' as int then LowerCaseBit(b) - 'a' as int + 10
    else -1
  }

  /** Setting the lower-case bit reads exactly the digits of either case. */
  lemma HexDigitOfMeaning(b: Byte)
    ensures HexDigitOf(b) == JsiUtf.HexValue(b as char)
  {
  }

  /** The value of a digit in base 8 or 16, -1 for a byte that is not one. */
  function DigitValue(b: Byte, radix: int): (d: int)
    ensures -1 <= d < radix || (radix != 8 && radix != 16 && d == -1)
  {
    if radix == 16 then HexDigitOf(b)
    else if radix == 8 && IsOctalDigit(b) then b - '0' as int
    else -1
  }

  ghost predicate AllDigits(s: seq<Byte>, i: int, len: nat, radix: int)
  {
    forall k :: i <= k < i + len ==> DigitValue(At(s, k), radix) >= 0
  }

  /** How many digits follow at `i`, counting at most `n`. */
  function DigitRun(s: seq<Byte>, i: int, n: nat, radix: int): (k: nat)
    ensures k <= n && AllDigits(s, i, k, radix)
    ensures k < n ==> DigitValue(At(s, i + k), radix) < 0
    decreases n
  {
    if n == 0 || DigitValue(At(s, i), radix) < 0 then 0
    else 1 + DigitRun(s, i + 1, n - 1, radix)
  }

  /** The number the `len` digits at `i` spell, most significant first. */
  function Number(s: seq<Byte>, i: int, len: nat, radix: int): nat
    requires AllDigits(s, i, len, radix)
    decreases len
  {
    if len == 0 then 0 else Number(s, i, len - 1, radix) * radix + DigitValue(At(s, i + len - 1), radix)
  }

  function Pow(b: nat, n: nat): nat
  {
    if n == 0 then 1 else b * Pow(b, n - 1)
  }

  /** `len` digits spell a number below radix^len. */
  lemma {:induction false} NumberBound(s: seq<Byte>, i: int, len: nat, radix: int)
    requires (radix == 8 || radix == 16) && AllDigits(s, i, len, radix)
    ensures Number(s, i, len, radix) < Pow(radix, len)
    decreases len
  {
    if len > 0 {
      NumberBound(s, i, len - 1, radix);
      var n, p := Number(s, i, len - 1, radix), Pow(radix, len - 1);
      var d := DigitValue(At(s, i + len - 1), radix);
      if radix == 8 {
        assert n * 8 + d <= (p - 1) * 8 + 7;
      } else {
        assert n * 16 + d <= (p - 1) * 16 + 15;
      }
    }
  }

  /** A run of digits never reaches the terminating zero. */
  lemma DigitRunInside(s: seq<Byte>, i: int, n: nat, radix: int)
    requires 0 <= i <= |s|
    ensures i + DigitRun(s, i, n, radix) <= |s|
  {
    var k := DigitRun(s, i, n, radix);
    if k > 0 {
      assert DigitValue(At(s, i + k - 1), radix) >= 0;
    }
  }

  // ---------------------------------------------------------------------------
  // The escape readers.
  // ---------------------------------------------------------------------------

  /** Reading exactly `n` hex digits at `i`: their value (kept in 32 bits),
      or none with the position of the first byte that is not a digit. */
  function ScanHex(s: seq<Byte>, i: int, n: nat): (Option<int>, int)
  {
    var k := DigitRun(s, i, n, 16);
    if k == n then (Some(Number(s, i, n, 16) % Uint32Limit), i + n) else (None, i + k)
  }

  /** The position of the first `}` at or after `j`, or the end of the
      buffer. */
  function BraceEnd(s: seq<Byte>, j: int): (e: int)
    requires 0 <= j <= |s|
    ensures j <= e <= |s| && (e < |s| ==> s[e] == '}' as int)
    ensures forall k :: j <= k < e ==> s[k] != '}' as int
    decreases |s| - j
  {
    if j == |s| || s[j] == '}' as int then j else BraceEnd(s, j + 1)
  }

  /** Reading a braced code point whose `{` is at `i`: the code point when
      the braces hold one or more hex digits and nothing else, worth at most
      U+10FFFF; the reader stops after the closing brace, or at the end of
      the buffer when there is none. */
  function ScanBraced(s: seq<Byte>, i: int): (Option<int>, int)
    requires 0 <= i < |s|
  {
    var e := BraceEnd(s, i + 1);
    if e == |s| then (None, e)
    else if e > i + 1 && DigitRun(s, i + 1, e - i - 1, 16) == e - i - 1 && Number(s, i + 1, e - i - 1, 16) <= UnicodeMaxValue then
      (Some(Number(s, i + 1, e - i - 1, 16)), e + 1)
    else (None, e + 1)
  }

  /** Reading a `\u` escape whose backslash is at `i`, either braced or
      with four hex digits. */
  function ScanUnicodeEscape(s: seq<Byte>, i: int): (Option<int>, int)
    requires 0 <= i < |s|
  {
    if At(s, i + 1) != 'u' as int then (None, i + 1)
    else if At(s, i + 2) == '{' as int then ScanBraced(s, i + 2)
    else ScanHex(s, i + 2, 4)
  }

  /** Reading a legacy octal escape whose first digit is at `i`, at most
      `maxLen` digits, kept in a byte. */
  function ScanOctal(s: seq<Byte>, i: int, maxLen: nat): (int, int)
  {
    var k := DigitRun(s, i, maxLen, 8);
    (Number(s, i, k, 8) % 256, i + k)
  }

  /** What the fixed-length hex reader promises: it succeeds exactly when `n`
      digits of either case follow, and then moves past them and yields
      their value; otherwise it stops at the first non-digit. */
  lemma ScanHexMeaning(s: seq<Byte>, i: int, n: nat)
    requires n == 2 || n == 4
    ensures var (r, next) := ScanHex(s, i, n);
      && (r.Some? <==> forall k :: i <= k < i + n ==> JsiUtf.HexValue(At(s, k) as char) >= 0)
      && (r.Some? ==> next == i + n && r.value == Number(s, i, n, 16) < Pow(16, n))
      && (r.None? ==> i <= next < i + n && JsiUtf.HexValue(At(s, next) as char) < 0)
  {
    var k := DigitRun(s, i, n, 16);
    HexDigitsMeaning(s, i, n);
    if k == n {
      SmallNumberKept(s, i, n);
    } else {
      HexDigitOfMeaning(At(s, i + k));
    }
  }

  /** A run of hex digits in the lexer's sense is one in the JSI helpers'
      sense. */
  lemma HexDigitsMeaning(s: seq<Byte>, i: int, n: nat)
    ensures AllDigits(s, i, n, 16) <==> forall k :: i <= k < i + n ==> JsiUtf.HexValue(At(s, k) as char) >= 0
    ensures DigitRun(s, i, n, 16) == n <==> AllDigits(s, i, n, 16)
  {
    forall j | i <= j < i + n ensures HexDigitOf(At(s, j)) == JsiUtf.HexValue(At(s, j) as char) {
      HexDigitOfMeaning(At(s, j));
    }
    var k := DigitRun(s, i, n, 16);
    if k < n {
      assert DigitValue(At(s, i + k), 16) < 0;
    }
  }

  /** Two or four hex digits spell a number that 32 bits hold unchanged. */
  lemma SmallNumberKept(s: seq<Byte>, i: int, n: nat)
    requires (n == 2 || n == 4) && AllDigits(s, i, n, 16)
    ensures Number(s, i, n, 16) < Pow(16, n) <= 0x1_0000
    ensures Number(s, i, n, 16) % Uint32Limit == Number(s, i, n, 16)
  {
    NumberBound(s, i, n, 16);
    PowSixteenSmall();
  }

  /** The widths the lexer reads hex escapes in fit a 32-bit word. */
  lemma PowSixteenSmall()
    ensures Pow(16, 2) == 0x100 && Pow(16, 4) == 0x1_0000
  {
    assert Pow(16, 1) == 16;
    assert Pow(16, 3) == 0x1000;
  }

  /** The four digits a `\uXXXX` escape of the JSI helpers spells read back,
      through the fixed-length hex reader, as the code unit they spell. */
  lemma ScanHexReadsEscape(s: seq<Byte>, i: int, ch: CodeUnit)
    requires 0 <= i && i + 4 <= |s|
    requires forall k :: i <= k < i + 4 ==> s[k] as char == JsiUtf.CodeUnitEscape(ch)[k - i + 2]
    ensures ScanHex(s, i, 4) == (Some(ch as int), i + 4)
  {
    JsiUtf.CodeUnitEscapeExpressesUnit(ch);
    var e := JsiUtf.CodeUnitEscape(ch);
    forall k | i <= k < i + 4 ensures HexDigitOf(At(s, k)) == JsiUtf.HexValue(e[k - i + 2]) {
      HexDigitOfMeaning(s[k]);
    }
    assert DigitRun(s, i, 4, 16) == 4;
    var n := FourHexDigits(s, i);
    assert n == ch;
  }

  /** The value of four hex digits. */
  lemma FourHexDigits(s: seq<Byte>, i: int) returns (n: int)
    requires AllDigits(s, i, 4, 16)
    ensures n == Number(s, i, 4, 16) == Number(s, i, 4, 16) % Uint32Limit
    ensures n == HexDigitOf(At(s, i)) * 0x1000 + HexDigitOf(At(s, i + 1)) * 0x100 + HexDigitOf(At(s, i + 2)) * 0x10 + HexDigitOf(At(s, i + 3))
  {
    var d0, d1, d2, d3 := HexDigitOf(At(s, i)), HexDigitOf(At(s, i + 1)), HexDigitOf(At(s, i + 2)), HexDigitOf(At(s, i + 3));
    assert Number(s, i, 1, 16) == d0;
    assert Number(s, i, 2, 16) == d0 * 16 + d1;
    assert Number(s, i, 3, 16) == (d0 * 16 + d1) * 16 + d2;
    assert Number(s, i, 4, 16) == ((d0 * 16 + d1) * 16 + d2) * 16 + d3;
    n := ((d0 * 16 + d1) * 16 + d2) * 16 + d3;
  }

  /** The braced reader yields a code point exactly when the braces are
      closed and hold one or more hex digits and nothing else, whose value is
      at most U+10FFFF; it always moves past the `{`, and past the closing
      brace when there is one. */
  lemma ScanBracedMeaning(s: seq<Byte>, i: int)
    requires 0 <= i < |s|
    ensures var (r, next) := ScanBraced(s, i);
      && i < next <= |s|
      && (next < |s| ==> s[next - 1] == '}' as int)
      && (r.Some? <==> exists e :: i + 1 < e < |s| && s[e] == '}' as int && IsBracedHex(s, i + 1, e))
      && (r.Some? ==> r.value <= UnicodeMaxValue)
  {
    BraceEndUnique(s, i + 1);
    var e := BraceEnd(s, i + 1);
    if ScanBraced(s, i).0.Some? {
      assert IsBracedHex(s, i + 1, e);
    }
  }

  /** The brace the braced reader stops at is the only one with no brace
      before it. */
  lemma BraceEndUnique(s: seq<Byte>, j: int)
    requires 0 <= j <= |s|
    ensures forall e :: j <= e < |s| && s[e] == '}' as int && (forall k :: j <= k < e ==> s[k] != '}' as int) ==> e == BraceEnd(s, j)
  {
  }

  /** The bytes from `a` to the brace at `b` are hex digits worth at most
      U+10FFFF, with no brace among them. */
  ghost predicate IsBracedHex(s: seq<Byte>, a: int, b: int)
    requires 0 <= a < b <= |s|
  {
    && (forall k :: a <= k < b ==> s[k] != '}' as int)
    && DigitRun(s, a, b - a, 16) == b - a
    && Number(s, a, b - a, 16) <= UnicodeMaxValue
  }

  /** An escape the optional reader rejects leaves nothing consumed; one it
      accepts yields a code point of at most U+10FFFF. */
  lemma ScanUnicodeEscapeBound(s: seq<Byte>, i: int)
    requires 0 <= i < |s|
    ensures var (r, next) := ScanUnicodeEscape(s, i);
      i < next && (r.Some? ==> 0 <= r.value <= UnicodeMaxValue && next <= |s|)
  {
    if At(s, i + 1) == 'u' as int && At(s, i + 2) != '{' as int {
      ScanHexMeaning(s, i + 2, 4);
      PowSixteenSmall();
    }
  }

  /** A legacy octal escape that starts with 0 to 3 and reads at most three
      digits, or starts with 4 to 7 and reads at most two, never needs the
      truncation to a byte: its value is at most 255. */
  lemma OctalEscapeFitsByte(s: seq<Byte>, i: int, maxLen: nat)
    requires 0 <= i && IsOctalDigit(At(s, i))
    requires (maxLen == 3 && At(s, i) <= '3' as int) || (maxLen == 2 && At(s, i) >= '4' as int)
    ensures var (v, next) := ScanOctal(s, i, maxLen);
      && i + 1 <= next <= i + maxLen && next <= |s|
      && v == Number(s, i, next - i, 8) <= 255
  {
    var k := DigitRun(s, i, maxLen, 8);
    DigitRunInside(s, i, maxLen, 8);
    var n := OctalRunValue(s, i, k, maxLen);
    assert n % 256 == n;
  }

  /** The value of the digits an octal escape reads. */
  lemma OctalRunValue(s: seq<Byte>, i: int, k: nat, maxLen: nat) returns (n: int)
    requires IsOctalDigit(At(s, i)) && 1 <= k <= maxLen && AllDigits(s, i, k, 8)
    requires (maxLen == 3 && At(s, i) <= '3' as int) || (maxLen == 2 && At(s, i) >= '4' as int)
    ensures n == Number(s, i, k, 8) && 0 <= n <= 255
  {
    var d0, d1, d2 := DigitValue(At(s, i), 8), DigitValue(At(s, i + 1), 8), DigitValue(At(s, i + 2), 8);
    assert Number(s, i, 1, 8) == d0 <= 3 || maxLen == 2;
    if k == 1 {
      n := d0;
    } else if k == 2 {
      assert Number(s, i, 2, 8) == d0 * 8 + d1;
      n := d0 * 8 + d1;
    } else {
      assert Number(s, i, 2, 8) == d0 * 8 + d1;
      assert Number(s, i, 3, 8) == (d0 * 8 + d1) * 8 + d2;
      n := (d0 * 8 + d1) * 8 + d2;
    }
  }

  // ---------------------------------------------------------------------------
  // String literals.
  // ---------------------------------------------------------------------------

  /** One turn of the string scanner: what it appends, where it moves, whether
      the literal ends there, and how many errors it reports. */
  datatype StringStep = StringStep(value: seq<int>, next: int, stop: bool, errors: nat)

  /** The bytes E2 80 A8 and E2 80 A9 at `i`: U+2028 LINE SEPARATOR and U+2029
      PARAGRAPH SEPARATOR, both line terminators. */
  predicate IsUnicodeLineTerminatorAt(s: seq<Byte>, i: int)
  {
    At(s, i) == 0xE2 && At(s, i + 1) == 0x80 && (At(s, i + 2) == 0xA8 || At(s, i + 2) == 0xA9)
  }

  /** The characters that open and close a string literal. */
  predicate IsQuote(c: int)
  {
    c == '\'' as int || c == '"' as int
  }

  /** One turn of the string scanner at `i`, inside a literal quoted by
      `quote`. */
  function StringStepAt(s: seq<Byte>, decode: (seq<Byte>, int) -> (int, int), i: int, quote: int, strict: bool): StringStep
    requires 0 <= i <= |s| && DecodeAdvances(s, decode)
  {
    var c := At(s, i);
    if c == quote then StringStep([], i + 1, true, 0)
    else if c == '\\' as int then StringEscapeAt(s, decode, i, strict)
    else if c == LineFeed || c == CarriageReturn then StringStep([], i, true, 1)
    else if c == 0 && i == |s| then StringStep([], i, true, 1)
    else if IsUTF8Start(c) then StringStep([decode(s, i).0], decode(s, i).1, false, 0)
    else StringStep([c], i + 1, false, 0)
  }

  /** The escape whose backslash is at `i`. */
  function StringEscapeAt(s: seq<Byte>, decode: (seq<Byte>, int) -> (int, int), i: int, strict: bool): StringStep
    requires 0 <= i < |s| && DecodeAdvances(s, decode)
  {
    var e := At(s, i + 1);
    if e == '\'' as int || e == '"' as int || e == '\\' as int then StringStep([e], i + 2, false, 0)
    else if e == 'b' as int then StringStep([8], i + 2, false, 0)
    else if e == 'f' as int then StringStep([12], i + 2, false, 0)
    else if e == 'n' as int then StringStep([10], i + 2, false, 0)
    else if e == 'r' as int then StringStep([13], i + 2, false, 0)
    else if e == 't' as int then StringStep([9], i + 2, false, 0)
    else if e == 'v' as int then StringStep([11], i + 2, false, 0)
    else if e == 0 && i + 1 == |s| then StringStep([], i + 1, true, 1)
    else if e == '0' as int && !IsOctalDigit(At(s, i + 2)) then StringStep([0], i + 2, false, 0)
    else if IsOctalDigit(e) then
      var (v, next) := ScanOctal(s, i + 1, if e <= '3' as int then 3 else 2);
      StringStep([v], next, false, if strict then 1 else 0)
    else if e == 'x' as int then
      var (v, next) := ScanHex(s, i + 2, 2);
      StringStep([if v.Some? then v.value else 0], next, false, if v.Some? then 0 else 1)
    else if e == 'u' as int then
      var (v, next) := ScanUnicodeEscape(s, i);
      StringStep([if v.Some? then v.value else ReplacementCharacter], next, false, if v.Some? then 0 else 1)
    else if e == LineFeed then StringStep([], i + 2, false, 0)
    else if e == CarriageReturn then StringStep([], if At(s, i + 2) == LineFeed then i + 3 else i + 2, false, 0)
    else if IsUnicodeLineTerminatorAt(s, i + 1) then StringStep([], i + 4, false, 0)
    else if IsUTF8Start(e) then StringStep([decode(s, i + 1).0], decode(s, i + 1).1, false, 0)
    else StringStep([e], i + 2, false, 0)
  }

  /** A turn that does not end the literal moves forward; none leaves the
      buffer. */
  lemma StringStepAdvances(s: seq<Byte>, decode: (seq<Byte>, int) -> (int, int), i: int, quote: int, strict: bool)
    requires 0 <= i <= |s| && DecodeAdvances(s, decode)
    requires IsQuote(quote)
    ensures var st := StringStepAt(s, decode, i, quote, strict);
      i <= st.next <= |s| && (!st.stop ==> i < st.next)
  {
    var c := At(s, i);
    if c == '\\' as int && c != quote {
      var e := At(s, i + 1);
      if e != '\'' as int && e != '"' as int && e != '\\' as int && !(e == 0 && i + 1 == |s|) {
        if IsOctalDigit(e) && !(e == '0' as int && !IsOctalDigit(At(s, i + 2))) {
          OctalEscapeFitsByte(s, i + 1, if e <= '3' as int then 3 else 2);
        } else if e == 'x' as int {
          DigitRunInside(s, i + 2, 2, 16);
        } else if e == 'u' as int {
          ScanUnicodeEscapeBound(s, i);
          StringEscapeUnicodeInside(s, i);
        }
      }
    }
  }

  /** A `\u` escape never reads past the terminating zero. */
  lemma StringEscapeUnicodeInside(s: seq<Byte>, i: int)
    requires 0 <= i < |s| && At(s, i + 1) == 'u' as int
    ensures ScanUnicodeEscape(s, i).1 <= |s|
  {
    if At(s, i + 2) == '{' as int {
      ScanBracedMeaning(s, i + 2);
    } else {
      DigitRunInside(s, i + 2, 4, 16);
    }
  }

  /** The state of the string scanner: the value so far, where it is, whether
      it has seen an escape, and how many errors it has reported. */
  datatype StringScan = StringScan(value: seq<int>, next: int, escapes: bool, errors: nat)

  /** The state after one more turn, which began with a backslash when
      `escape` holds. */
  function StringThen(acc: StringScan, st: StringStep, escape: bool): StringScan
  {
    StringScan(acc.value + st.value, st.next, acc.escapes || escape, acc.errors + st.errors)
  }

  /** The string scanner from `i` on, having gathered `acc` so far. */
  function ScanStringFrom(s: seq<Byte>, decode: (seq<Byte>, int) -> (int, int), i: int, quote: int, strict: bool, acc: StringScan): StringScan
    requires 0 <= i <= |s| && DecodeAdvances(s, decode)
    requires IsQuote(quote)
    decreases |s| - i
  {
    StringStepAdvances(s, decode, i, quote, strict);
    var st := StringStepAt(s, decode, i, quote, strict);
    var acc' := StringThen(acc, st, At(s, i) == '\\' as int);
    if st.stop then acc' else ScanStringFrom(s, decode, st.next, quote, strict, acc')
  }

  /** The value ECMAScript gives each single-character escape (ECMAScript
      2015, section 11.8.4.3, table 34). */
  function SingleEscapeValue(c: int): Option<int>
  {
    if c == 'b' as int then Some(0x08)
    else if c == 't' as int then Some(0x09)
    else if c == 'n' as int then Some(0x0A)
    else if c == 'v' as int then Some(0x0B)
    else if c == 'f' as int then Some(0x0C)
    else if c == 'r' as int then Some(0x0D)
    else if c == '"' as int then Some(0x22)
    else if c == '\'' as int then Some(0x27)
    else if c == '\\' as int then Some(0x5C)
    else None
  }

  /** Single-character escapes give the value of the table and take two
      bytes; escaped line terminators (LF, CR, CR LF, U+2028 and U+2029)
      give nothing; a legacy octal escape reads at most three digits and is
      at most 255. */
  lemma StringEscapes(s: seq<Byte>, decode: (seq<Byte>, int) -> (int, int), i: int, strict: bool)
    requires 0 <= i < |s| && DecodeAdvances(s, decode)
    ensures var st := StringEscapeAt(s, decode, i, strict);
      var e := At(s, i + 1);
      && (SingleEscapeValue(e).Some? ==> st == StringStep([SingleEscapeValue(e).value], i + 2, false, 0))
      && (e == LineFeed ==> st == StringStep([], i + 2, false, 0))
      && (e == CarriageReturn ==> st == StringStep([], if At(s, i + 2) == LineFeed then i + 3 else i + 2, false, 0))
      && (IsUnicodeLineTerminatorAt(s, i + 1) ==> st == StringStep([], i + 4, false, 0))
      && (IsOctalDigit(e) ==> |st.value| == 1 && 0 <= st.value[0] <= 255 && i + 2 <= st.next <= i + 4)
  {
    var e := At(s, i + 1);
    if IsOctalDigit(e) && !(e == '0' as int && !IsOctalDigit(At(s, i + 2))) {
      OctalEscapeFitsByte(s, i + 1, if e <= '3' as int then 3 else 2);
    }
  }

  /** The scanner only ever stops at the closing quote, in which case it
      moves past it, or with an error; and the errors only grow. */
  lemma {:induction false} ScanStringEnds(s: seq<Byte>, decode: (seq<Byte>, int) -> (int, int), i: int, quote: int, strict: bool, acc: StringScan)
    requires 0 <= i <= |s| && DecodeAdvances(s, decode)
    requires IsQuote(quote)
    ensures var r := ScanStringFrom(s, decode, i, quote, strict, acc);
      && i <= r.next <= |s| && r.errors >= acc.errors
      && (r.errors == acc.errors ==> r.next > i && At(s, r.next - 1) == quote)
    decreases |s| - i
  {
    StringStepAdvances(s, decode, i, quote, strict);
    var st := StringStepAt(s, decode, i, quote, strict);
    var acc' := StringThen(acc, st, At(s, i) == '\\' as int);
    if !st.stop {
      ScanStringEnds(s, decode, st.next, quote, strict, acc');
    } else if st.errors == 0 {
      StringStopsAtQuote(s, decode, i, quote, strict);
    }
  }

  /** A turn that ends the literal without an error has just passed the
      closing quote. */
  lemma StringStopsAtQuote(s: seq<Byte>, decode: (seq<Byte>, int) -> (int, int), i: int, quote: int, strict: bool)
    requires 0 <= i <= |s| && DecodeAdvances(s, decode)
    requires IsQuote(quote)
    requires StringStepAt(s, decode, i, quote, strict).stop && StringStepAt(s, decode, i, quote, strict).errors == 0
    ensures StringStepAt(s, decode, i, quote, strict).next == i + 1 && At(s, i) == quote
  {
  }
}
