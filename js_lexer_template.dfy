/*
 * What the JavaScript lexer computes for a template literal: the cooked
 * value (the template value, with escapes interpreted), the raw value (the
 * characters as written, with line terminators normalised), whether an
 * escape was not a valid escape sequence (which leaves the literal without a
 * cooked value), and which of the four template tokens it is.
 */
module JSLexerTemplate {
  import opened Unicode
  import opened JSLexerSpec

  /** The raw value of a character: CR becomes LF, anything else stays. */
  function Trv(c: int): (r: int)
    ensures r != CarriageReturn
    ensures c != CarriageReturn ==> r == c
  {
    if c == CarriageReturn then LineFeed else c
  }

  /** One turn of the template scanner: what it adds to the cooked and the
      raw value, where it goes next, whether it ends the literal (and then
      whether with a backquote, making it a tail), whether it saw something
      that is not an escape sequence, and how many errors it reported. */
  datatype TemplateStep = TemplateStep(cooked: seq<int>, raw: seq<int>, next: int, stop: bool, tail: bool, notEscape: bool, errors: nat)

  /** Template characters that go into both values unchanged. */
  function Plain(v: seq<int>, next: int): TemplateStep
  {
    TemplateStep(v, v, next, false, false, false, 0)
  }

  /** One turn of the template scanner at `i`. */
  function TemplateStepAt(s: seq<Byte>, decode: (seq<Byte>, int) -> (int, int), i: int): TemplateStep
    requires 0 <= i <= |s| && DecodeAdvances(s, decode)
  {
    var c := At(s, i);
    if c == '`' as int then TemplateStep([], [], i + 1, true, true, false, 0)
    else if c == '$' as int && At(s, i + 1) == '{' as int then TemplateStep([], [], i + 2, true, false, false, 0)
    else if c == '\\' as int then TemplateEscapeAt(s, decode, i)
    else if c == 0 && i == |s| then TemplateStep([], [], i, true, false, false, 1)
    else if c == CarriageReturn then Plain([LineFeed], if At(s, i + 1) == LineFeed then i + 2 else i + 1)
    else if IsUTF8Start(c) then Plain([decode(s, i).0], decode(s, i).1)
    else Plain([c], i + 1)
  }

  /** The escape whose backslash is at `i`. The raw value always gets the
      backslash and the raw value of the next byte, except where a decoded
      code point stands for that byte. */
  function TemplateEscapeAt(s: seq<Byte>, decode: (seq<Byte>, int) -> (int, int), i: int): TemplateStep
    requires 0 <= i < |s| && DecodeAdvances(s, decode)
  {
    var e := At(s, i + 1);
    var raw := ['\\' as int, Trv(e)];
    if SingleEscapeValue(e).Some? then TemplateStep([SingleEscapeValue(e).value], raw, i + 2, false, false, false, 0)
    else if e == 0 && i + 1 == |s| then TemplateStep([], raw, i + 1, true, false, false, 1)
    else if e == 0 then TemplateStep([0], raw, i + 2, false, false, false, 0)
    else if e == '0' as int && !IsDecimalDigit(At(s, i + 2)) then TemplateStep([0], raw, i + 2, false, false, false, 0)
    else if IsDecimalDigit(e) then TemplateStep([], raw, i + 2, false, false, true, 0)
    else if e == 'x' as int then
      DigitRunInside(s, i + 2, 2, 16);
      var (v, next) := ScanHex(s, i + 2, 2);
      TemplateStep([if v.Some? then v.value else 0], raw + s[i + 2..next], next, false, false, v.None?, 0)
    else if e == 'u' as int then
      ScanUnicodeEscapeBound(s, i);
      StringEscapeUnicodeInside(s, i);
      var (v, next) := ScanUnicodeEscape(s, i);
      if v.Some? then TemplateStep([v.value], raw + s[i + 2..next], next, false, false, false, 0)
      else TemplateStep([], raw, i + 2, false, false, true, 0)
    else if e == LineFeed then TemplateStep([], raw, i + 2, false, false, false, 0)
    else if e == CarriageReturn then TemplateStep([], raw, if At(s, i + 2) == LineFeed then i + 3 else i + 2, false, false, false, 0)
    else if IsUTF8Start(e) then
      var (cp, next) := decode(s, i + 1);
      TemplateStep(if IsUnicodeLineTerminatorAt(s, i + 1) then [] else [cp], ['\\' as int, cp], next, false, false, false, 0)
    else TemplateStep([e], raw, i + 2, false, false, false, 0)
  }

  /** A turn that does not end the literal moves forward; none leaves the
      buffer. */
  lemma TemplateStepAdvances(s: seq<Byte>, decode: (seq<Byte>, int) -> (int, int), i: int)
    requires 0 <= i <= |s| && DecodeAdvances(s, decode)
    ensures var st := TemplateStepAt(s, decode, i);
      i <= st.next <= |s| && (!st.stop ==> i < st.next)
  {
    if At(s, i) == '\\' as int && At(s, i + 1) == 'u' as int {
      ScanUnicodeEscapeBound(s, i);
    }
  }

  /** The state of the template scanner. */
  datatype TemplateScan = TemplateScan(cooked: seq<int>, raw: seq<int>, next: int, tail: bool, notEscape: bool, errors: nat)

  /** The state after one more turn. */
  function Then(acc: TemplateScan, st: TemplateStep): TemplateScan
  {
    TemplateScan(acc.cooked + st.cooked, acc.raw + st.raw, st.next, st.tail, acc.notEscape || st.notEscape, acc.errors + st.errors)
  }

  /** The template scanner from `i` on, having gathered `acc` so far. */
  function TemplateFrom(s: seq<Byte>, decode: (seq<Byte>, int) -> (int, int), i: int, acc: TemplateScan): TemplateScan
    requires 0 <= i <= |s| && DecodeAdvances(s, decode)
    decreases |s| - i
  {
    TemplateStepAdvances(s, decode, i);
    var st := TemplateStepAt(s, decode, i);
    if st.stop then Then(acc, st) else TemplateFrom(s, decode, st.next, Then(acc, st))
  }

  /** One turn of the template scanner, unfolded. */
  lemma TemplateScanStep(s: seq<Byte>, decode: (seq<Byte>, int) -> (int, int), i: int, acc: TemplateScan)
    requires 0 <= i <= |s| && DecodeAdvances(s, decode)
    ensures var st := TemplateStepAt(s, decode, i);
      && i <= st.next <= |s| && (!st.stop ==> i < st.next)
      && TemplateFrom(s, decode, i, acc) == if st.stop then Then(acc, st) else TemplateFrom(s, decode, st.next, Then(acc, st))
  {
    TemplateStepAdvances(s, decode, i);
  }

  /** The four template tokens. */
  datatype TemplateKind = NoSubstitutionTemplate | TemplateHead | TemplateMiddle | TemplateTail

  /** A template token: its kind, its cooked value (none when it holds
      something that is not an escape sequence) and its raw value. */
  datatype TemplateToken = TemplateToken(kind: TemplateKind, cooked: Option<seq<int>>, raw: seq<int>)

  /** The token kind for a literal that opened with a backquote (`isHead`)
      or a closing brace, and closed with a backquote (`isTail`) or `${`. */
  function KindOf(isHead: bool, isTail: bool): (k: TemplateKind)
    ensures k.NoSubstitutionTemplate? <==> isHead && isTail
    ensures k.TemplateHead? <==> isHead && !isTail
    ensures k.TemplateMiddle? <==> !isHead && !isTail
    ensures k.TemplateTail? <==> !isHead && isTail
  {
    if isHead then (if isTail then NoSubstitutionTemplate else TemplateHead)
    else if isTail then TemplateTail else TemplateMiddle
  }

  /** The template literal, or its continuation after a substitution, that
      starts at `i`, with the position after it and the errors reported. */
  function ScanTemplate(s: seq<Byte>, decode: (seq<Byte>, int) -> (int, int), i: int): (TemplateToken, int, nat)
    requires 0 <= i < |s| && DecodeAdvances(s, decode)
    requires s[i] == '`' as int || s[i] == '}' as int
  {
    var r := TemplateFrom(s, decode, i + 1, TemplateScan([], [], i + 1, false, false, 0));
    (TemplateToken(KindOf(s[i] == '`' as int, r.tail), if r.notEscape then None else Some(r.cooked), r.raw), r.next, r.errors)
  }

  // ---------------------------------------------------------------------------
  // What the template scanner promises.
  // ---------------------------------------------------------------------------

  /** The scanner ends a literal only at a backquote, which makes it a tail,
      at `${`, which does not, or with an error; it never leaves the buffer;
      an escape that is not one is never forgotten. */
  lemma {:induction false} TemplateEnds(s: seq<Byte>, decode: (seq<Byte>, int) -> (int, int), i: int, acc: TemplateScan)
    requires 0 <= i <= |s| && DecodeAdvances(s, decode)
    ensures var r := TemplateFrom(s, decode, i, acc);
      && i <= r.next <= |s| && r.errors >= acc.errors
      && (acc.notEscape ==> r.notEscape)
      && (r.errors == acc.errors ==>
            if r.tail then r.next > i && At(s, r.next - 1) == '`' as int
            else r.next > i + 1 && At(s, r.next - 2) == '$' as int && At(s, r.next - 1) == '{' as int)
    decreases |s| - i
  {
    TemplateScanStep(s, decode, i, acc);
    var st := TemplateStepAt(s, decode, i);
    if !st.stop {
      TemplateEnds(s, decode, st.next, Then(acc, st));
    } else if st.errors == 0 {
      TemplateStopsAtCloser(s, decode, i);
    }
  }

  /** A turn that ends the literal without an error has just passed a
      backquote or `${`. */
  lemma TemplateStopsAtCloser(s: seq<Byte>, decode: (seq<Byte>, int) -> (int, int), i: int)
    requires 0 <= i <= |s| && DecodeAdvances(s, decode)
    requires TemplateStepAt(s, decode, i).stop && TemplateStepAt(s, decode, i).errors == 0
    ensures var st := TemplateStepAt(s, decode, i);
      if st.tail then st.next == i + 1 && At(s, i) == '`' as int
      else st.next == i + 2 && At(s, i) == '$' as int && At(s, i + 1) == '{' as int
  {
  }

  /** Escape sequences that are not escapes: a decimal digit other than a
      lone `\0`, a malformed `\x` or `\u`. They add to the raw value only
      (`\x` also gives the cooked value a zero, which is never used). */
  lemma NotEscapeSequences(s: seq<Byte>, decode: (seq<Byte>, int) -> (int, int), i: int)
    requires 0 <= i < |s| && DecodeAdvances(s, decode)
    ensures var st := TemplateEscapeAt(s, decode, i);
      var e := At(s, i + 1);
      && ('1' as int <= e <= '9' as int ==> st.notEscape && st.cooked == [] && st.next == i + 2)
      && (e == '0' as int && IsDecimalDigit(At(s, i + 2)) ==> st.notEscape && st.cooked == [])
      && (e == '0' as int && !IsDecimalDigit(At(s, i + 2)) ==> !st.notEscape && st.cooked == [0])
      && (e == 'x' as int ==> (st.notEscape <==> ScanHex(s, i + 2, 2).0.None?))
      && (e == 'u' as int ==> (st.notEscape <==> ScanUnicodeEscape(s, i).0.None?))
      && (e == 'u' as int && st.notEscape ==> st.next == i + 2 && st.raw == ['\\' as int, 'u' as int])
  {
  }

  /** The raw value never holds a CR: CR and CR LF become LF, escaped or
      not, provided the decoder never yields a CR. */
  lemma {:induction false} RawHasNoCarriageReturn(s: seq<Byte>, decode: (seq<Byte>, int) -> (int, int), i: int, acc: TemplateScan)
    requires 0 <= i <= |s| && DecodeAdvances(s, decode)
    requires forall j :: 0 <= j < |s| ==> decode(s, j).0 != CarriageReturn
    requires CarriageReturn !in acc.raw
    ensures CarriageReturn !in TemplateFrom(s, decode, i, acc).raw
    decreases |s| - i
  {
    TemplateStepAdvances(s, decode, i);
    var st := TemplateStepAt(s, decode, i);
    StepRawHasNoCarriageReturn(s, decode, i);
    assert CarriageReturn !in acc.raw + st.raw;
    if !st.stop {
      RawHasNoCarriageReturn(s, decode, st.next, Then(acc, st));
    }
  }

  /** A `\x` escape in a template literal. */
  lemma TemplateHexAt(s: seq<Byte>, decode: (seq<Byte>, int) -> (int, int), i: int)
    requires 0 <= i < |s| && DecodeAdvances(s, decode) && At(s, i + 1) == 'x' as int
    ensures var (v, next) := ScanHex(s, i + 2, 2);
      && i + 2 <= next <= |s|
      && TemplateEscapeAt(s, decode, i) == TemplateStep([if v.Some? then v.value else 0], ['\\' as int, 'x' as int] + s[i + 2..next], next, false, false, v.None?, 0)
  {
    DigitRunInside(s, i + 2, 2, 16);
  }

  /** A `\u` escape in a template literal. */
  lemma TemplateUnicodeAt(s: seq<Byte>, decode: (seq<Byte>, int) -> (int, int), i: int)
    requires 0 <= i < |s| && DecodeAdvances(s, decode) && At(s, i + 1) == 'u' as int
    ensures var (v, next) := ScanUnicodeEscape(s, i);
      && i + 2 <= next <= |s|
      && TemplateEscapeAt(s, decode, i) ==
        if v.Some? then TemplateStep([v.value], ['\\' as int, 'u' as int] + s[i + 2..next], next, false, false, false, 0)
        else TemplateStep([], ['\\' as int, 'u' as int], i + 2, false, false, true, 0)
  {
    ScanUnicodeEscapeBound(s, i);
    StringEscapeUnicodeInside(s, i);
  }

  /** One turn adds no CR to the raw value. */
  lemma StepRawHasNoCarriageReturn(s: seq<Byte>, decode: (seq<Byte>, int) -> (int, int), i: int)
    requires 0 <= i <= |s| && DecodeAdvances(s, decode)
    requires forall j :: 0 <= j < |s| ==> decode(s, j).0 != CarriageReturn
    ensures CarriageReturn !in TemplateStepAt(s, decode, i).raw
  {
    var c := At(s, i);
    if c == '\\' as int && i < |s| {
      var e := At(s, i + 1);
      if e == 'x' as int {
        TemplateHexAt(s, decode, i);
        HexRunHasNoCarriageReturn(s, i + 2, ScanHex(s, i + 2, 2).1);
      } else if e == 'u' as int {
        TemplateUnicodeAt(s, decode, i);
        var (v, next) := ScanUnicodeEscape(s, i);
        if v.Some? {
          if At(s, i + 2) == '{' as int {
            BracedHasNoCarriageReturn(s, i + 2);
          } else {
            HexRunHasNoCarriageReturn(s, i + 2, next);
          }
        }
      }
    }
  }

  /** The bytes a successful `\u{...}` escape spans are digits and braces. */
  lemma BracedHasNoCarriageReturn(s: seq<Byte>, i: int)
    requires 0 <= i < |s| && s[i] == '{' as int && ScanBraced(s, i).0.Some?
    ensures ScanBraced(s, i).1 <= |s| && CarriageReturn !in s[i..ScanBraced(s, i).1]
  {
    var e := BraceEnd(s, i + 1);
    assert AllDigits(s, i + 1, e - i - 1, 16);
    forall k | i <= k < e + 1 ensures s[k] != CarriageReturn {
      if i < k < e {
        assert DigitValue(At(s, k), 16) >= 0;
      }
    }
  }

  /** Hex digits read by the fixed-length reader are not CR. */
  lemma HexRunHasNoCarriageReturn(s: seq<Byte>, i: int, next: int)
    requires 0 <= i <= next <= |s| && AllDigits(s, i, next - i, 16)
    ensures CarriageReturn !in s[i..next]
  {
    forall k | i <= k < next ensures s[k] != CarriageReturn {
      assert DigitValue(At(s, k), 16) >= 0;
    }
  }

  /** Without a backslash there is nothing to cook: the cooked value is the
      raw value, and every escape is a valid one. */
  lemma {:induction false} NoEscapeCookedIsRaw(s: seq<Byte>, decode: (seq<Byte>, int) -> (int, int), i: int, acc: TemplateScan)
    requires 0 <= i <= |s| && DecodeAdvances(s, decode)
    requires forall k :: i <= k < |s| ==> s[k] != '\\' as int
    requires acc.cooked == acc.raw && !acc.notEscape
    ensures var r := TemplateFrom(s, decode, i, acc);
      r.cooked == r.raw && !r.notEscape
    decreases |s| - i
  {
    TemplateStepAdvances(s, decode, i);
    var st := TemplateStepAt(s, decode, i);
    assert st.cooked == st.raw && !st.notEscape;
    if !st.stop {
      NoEscapeCookedIsRaw(s, decode, st.next, Then(acc, st));
    }
  }

  /** The token kind follows from how the literal opened and closed; the
      cooked value is missing exactly when an escape was not one. */
  lemma ScanTemplateMeaning(s: seq<Byte>, decode: (seq<Byte>, int) -> (int, int), i: int)
    requires 0 <= i < |s| && DecodeAdvances(s, decode)
    requires s[i] == '`' as int || s[i] == '}' as int
    ensures var (token, next, errors) := ScanTemplate(s, decode, i);
      var r := TemplateFrom(s, decode, i + 1, TemplateScan([], [], i + 1, false, false, 0));
      && i < next <= |s|
      && (token.cooked.None? <==> r.notEscape)
      && (errors == 0 && s[i] == '`' as int ==> token.kind == (if At(s, next - 1) == '`' as int && r.tail then NoSubstitutionTemplate else TemplateHead))
      && (errors == 0 && token.kind.TemplateHead? ==> At(s, next - 2) == '$' as int && At(s, next - 1) == '{' as int)
      && (errors == 0 && (token.kind.NoSubstitutionTemplate? || token.kind.TemplateTail?) ==> At(s, next - 1) == '`' as int)
  {
    TemplateEnds(s, decode, i + 1, TemplateScan([], [], i + 1, false, false, 0));
  }
}
