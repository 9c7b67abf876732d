/*
 * The JavaScript lexer's scanners as they run: a cursor moving over a
 * zero-terminated buffer, storage the scanners append to, an error count,
 * and the current token. Each scanner is proved to do what the functions
 * of the lexer specification modules say.
 */
module JSLexer {
  import opened Unicode
  import opened JSLexerSpec
  import opened JSLexerTemplate
  import opened JSLexerTokens
  import opened JSLexerNumber
  import Arith

  datatype Token =
    | NoToken
    | Punctuator(text: string)
    | StringLiteral(value: seq<int>, escapes: bool)
    | TemplateLiteral(template: TemplateToken)
    | NumericLiteral(shape: NumberShape, radix: int)

  class Lexer {
    /** The source text; the byte after its end reads as 0. */
    const buffer: seq<Byte>
    /** The UTF-8 decoder the scanners fall back on. */
    const decode: (seq<Byte>, int) -> (int, int)
    var strictMode: bool
    /** The cursor. */
    var cur: int
    /** The value of the literal being scanned. */
    var tmpStorage: seq<int>
    /** The raw value of the template literal being scanned. */
    var rawStorage: seq<int>
    /** The errors reported so far. */
    var errors: nat
    var token: Token

    ghost predicate Valid()
      reads this
    {
      0 <= cur <= |buffer| && DecodeAdvances(buffer, decode)
    }

    constructor (buffer: seq<Byte>, decode: (seq<Byte>, int) -> (int, int), strictMode: bool)
      requires DecodeAdvances(buffer, decode)
      ensures Valid() && this.buffer == buffer && this.decode == decode && this.strictMode == strictMode
      ensures cur == 0 && tmpStorage == [] && rawStorage == [] && errors == 0 && token == NoToken
    {
      this.buffer := buffer;
      this.decode := decode;
      this.strictMode := strictMode;
      cur := 0;
      tmpStorage := [];
      rawStorage := [];
      errors := 0;
      token := NoToken;
    }

    /** Reads exactly `requiredLen` hex digits into a 32-bit word; at the
        first byte that is not one it stops there and fails, reporting an
        error if asked to. */
    method ConsumeHex(requiredLen: nat, errorOnFail: bool) returns (r: Option<int>)
      requires Valid()
      modifies this`cur, this`errors
      ensures Valid()
      ensures (r, cur) == ScanHex(buffer, old(cur), requiredLen)
      ensures errors == old(errors) + (if errorOnFail && r.None? then 1 else 0)
    {
      var start := cur;
      var cp := 0;
      var i := 0;
      while i != requiredLen
        invariant 0 <= i <= requiredLen && cur == start + i <= |buffer| && errors == old(errors)
        invariant AllDigits(buffer, start, i, 16)
        invariant cp == Number(buffer, start, i, 16) % Uint32Limit
      {
        var ch := At(buffer, cur);
        var d;
        if '0' as int <= ch <= '9' as int {
          d := ch - '0' as int;
        } else {
          var low := LowerCaseBit(ch);
          if 'a' as int <= low <= 'f' as int {
            d := low - 'a' as int + 10;
          } else {
            if errorOnFail {
              errors := errors + 1;
            }
            DigitRunStops(buffer, start, i, requiredLen, 16);
            return None;
          }
        }
        Arith.ShiftAddModulo(Number(buffer, start, i, 16), 16, d, Uint32Limit);
        cp := (cp * 16 + d) % Uint32Limit;
        cur := cur + 1;
        i := i + 1;
      }
      DigitRunStops(buffer, start, i, requiredLen, 16);
      return Some(cp);
    }

    /** Reads a braced code point whose `{` is under the cursor, up to and
        including the `}`. It fails on an empty body, a byte that is not a
        hex digit, or a value above U+10FFFF, reporting one error for the
        first failure if asked to; at the end of the buffer it stops there.
        The value is kept in a 32-bit word, which cannot wrap before it
        exceeds U+10FFFF. */
    method ConsumeBracedCodePoint(errorOnFail: bool) returns (r: Option<int>)
      requires Valid() && cur < |buffer| && buffer[cur] == '{' as int
      modifies this`cur, this`errors
      ensures Valid()
      ensures (r, cur) == ScanBraced(buffer, old(cur))
      ensures errors == old(errors) + (if errorOnFail && r.None? then 1 else 0)
    {
      ghost var open := cur;
      cur := cur + 1;
      var start := cur;
      var failed, cp, atEnd := ConsumeBracedBody(errorOnFail);
      BracedEnd(buffer, open);
      if atEnd {
        return None;
      }
      if cur == start {
        if !failed && errorOnFail {
          errors := errors + 1;
        }
        failed := true;
      }
      cur := cur + 1;
      if failed {
        return None;
      }
      return Some(cp);
    }

    /** The body of a braced code point, from the cursor to the `}` or the
        end of the buffer: whether it failed, its value if not, and whether
        the buffer ended first (which reports an error unless one was
        reported already). */
    method ConsumeBracedBody(errorOnFail: bool) returns (failed: bool, cp: int, atEnd: bool)
      requires Valid()
      modifies this`cur, this`errors
      ensures Valid()
      ensures var e := BraceEnd(buffer, old(cur));
        && cur == e && (atEnd <==> e == |buffer|)
        && (failed <==> !BracedOk(buffer, old(cur), cur - old(cur)))
        && (!failed ==> cp == Number(buffer, old(cur), cur - old(cur), 16))
        && errors == old(errors) + (if errorOnFail && (failed || atEnd) then 1 else 0)
    {
      var s := buffer;
      var start := cur;
      ghost var e := BraceEnd(s, start);
      failed := false;
      cp := 0;
      while At(s, cur) != '}' as int
        invariant start <= cur <= e
        invariant failed <==> !BracedOk(s, start, cur - start)
        invariant !failed ==> cp == Number(s, start, cur - start, 16)
        invariant errors == old(errors) + (if errorOnFail && failed then 1 else 0)
        decreases e - cur
      {
        var ch := At(s, cur);
        BracedStep(s, start, cur - start);
        var d := JsiUtf.HexValue(ch as char);
        if d < 0 {
          if cur == |s| {
            if !failed && errorOnFail {
              errors := errors + 1;
            }
            return failed, cp, true;
          }
          if !failed && errorOnFail {
            errors := errors + 1;
          }
          failed := true;
          cur := cur + 1;
          continue;
        }
        if !failed {
          cp := cp * 16 + d;
          if cp > UnicodeMaxValue {
            if errorOnFail {
              errors := errors + 1;
            }
            failed := true;
          }
        }
        cur := cur + 1;
      }
      return failed, cp, false;
    }

    /** Reads a `\u` escape whose backslash is under the cursor; anything
        else after the backslash, or a malformed escape, is an error and
        reads as U+FFFD. */
    method ConsumeUnicodeEscape() returns (cp: int)
      requires Valid() && cur < |buffer| && buffer[cur] == '\\' as int
      modifies this`cur, this`errors
      ensures Valid()
      ensures var (v, next) := ScanUnicodeEscape(buffer, old(cur));
        && cp == (if v.Some? then v.value else ReplacementCharacter)
        && cur == next
        && errors == old(errors) + (if v.None? then 1 else 0)
    {
      cur := cur + 1;
      if At(buffer, cur) != 'u' as int {
        errors := errors + 1;
        return ReplacementCharacter;
      }
      cur := cur + 1;
      if At(buffer, cur) == '{' as int {
        var r := ConsumeBracedCodePoint(true);
        if r.None? {
          return ReplacementCharacter;
        }
        return r.value;
      }
      var r := ConsumeHex(4, true);
      if r.None? {
        return ReplacementCharacter;
      }
      return r.value;
    }

    /** Reads a `\u` escape whose backslash is under the cursor without
        reporting anything; when there is none, the cursor goes back to the
        backslash. */
    method ConsumeUnicodeEscapeOptional() returns (r: Option<int>)
      requires Valid() && cur < |buffer| && buffer[cur] == '\\' as int
      modifies this`cur, this`errors
      ensures Valid() && errors == old(errors)
      ensures var (v, next) := ScanUnicodeEscape(buffer, old(cur));
        r == v && cur == (if v.Some? then next else old(cur))
    {
      var start := cur;
      cur := cur + 1;
      if At(buffer, cur) != 'u' as int {
        cur := start;
        return None;
      }
      cur := cur + 1;
      if At(buffer, cur) == '{' as int {
        r := ConsumeBracedCodePoint(false);
        if r.None? {
          cur := start;
        }
        return;
      }
      r := ConsumeHex(4, false);
      if r.None? {
        cur := start;
      }
    }

    /** Reads a legacy octal escape whose first digit is under the cursor,
        at most `maxLen` digits, into a byte; in strict mode it is an
        error. */
    method ConsumeOctal(maxLen: nat) returns (v: int)
      requires Valid() && 1 <= maxLen && IsOctalDigit(At(buffer, cur))
      modifies this`cur, this`errors
      ensures Valid()
      ensures (v, cur) == ScanOctal(buffer, old(cur), maxLen)
      ensures errors == old(errors) + (if strictMode then 1 else 0)
    {
      if strictMode {
        errors := errors + 1;
      }
      v := ConsumeOctalDigits(maxLen);
    }

    /** The digits of a legacy octal escape, at most `maxLen` of them. */
    method ConsumeOctalDigits(maxLen: nat) returns (v: int)
      requires Valid()
      modifies this`cur
      ensures Valid()
      ensures (v, cur) == ScanOctal(buffer, old(cur), maxLen)
    {
      var s := buffer;
      var start := cur;
      var k := 0;
      v := 0;
      while k != maxLen && IsOctalDigit(At(s, start + k))
        invariant 0 <= k <= maxLen && start + k <= |s|
        invariant AllDigits(s, start, k, 8)
        invariant v == Number(s, start, k, 8) % 256
      {
        var d := At(s, start + k) - '0' as int;
        OctalStep(s, start, k);
        Arith.ShiftAddModulo(Number(s, start, k, 8), 8, d, 256);
        v := (v * 8 + d) % 256;
        k := k + 1;
      }
      DigitRunStops(s, start, k, maxLen, 8);
      cur := start + k;
    }
    /** Scans a string literal whose opening quote is under the cursor, up
        to and including the closing quote, into the storage; a line break
        or the end of the buffer ends it with an error. */
    method ScanString()
      requires Valid() && IsQuote(At(buffer, cur))
      modifies this`cur, this`errors, this`tmpStorage, this`token
      ensures Valid()
      ensures var r := ScanStringFrom(buffer, decode, old(cur) + 1, At(buffer, old(cur)), strictMode, StringScan([], old(cur) + 1, false, 0));
        && token == StringLiteral(r.value, r.escapes) && tmpStorage == r.value
        && cur == r.next && errors == old(errors) + r.errors
    {
      var quote := At(buffer, cur);
      cur := cur + 1;
      tmpStorage := [];
      var escapes := ConsumeStringBody(quote);
      token := StringLiteral(tmpStorage, escapes);
    }

    /** The string scanner's loop, from the cursor to the end of the
        literal: the storage gets its value, and the result says whether it
        held an escape. */
    method ConsumeStringBody(quote: int) returns (escapes: bool)
      requires Valid() && IsQuote(quote)
      modifies this`cur, this`errors, this`tmpStorage
      ensures Valid() && old(errors) <= errors
      ensures StringScan(tmpStorage, cur, escapes, errors - old(errors)) ==
        ScanStringFrom(buffer, decode, old(cur), quote, strictMode, StringScan(old(tmpStorage), old(cur), false, 0))
    {
      var s := buffer;
      ghost var dec, strict := decode, strictMode;
      ghost var r := ScanStringFrom(s, dec, cur, quote, strict, StringScan(tmpStorage, cur, false, 0));
      ghost var e0 := errors;
      escapes := false;
      var stop := false;
      while !stop
        invariant 0 <= cur <= |s| && e0 <= errors
        invariant var acc := StringScan(tmpStorage, cur, escapes, errors - e0);
          if stop then acc == r else ScanStringFrom(s, dec, cur, quote, strict, acc) == r
        decreases if stop then 0 else |s| - cur + 1
      {
        ghost var acc := StringScan(tmpStorage, cur, escapes, errors - e0);
        ghost var st := StringStepAt(s, dec, cur, quote, strict);
        ghost var escape := At(s, cur) == '\\' as int;
        StringScanStep(s, dec, cur, quote, strict, acc);
        escapes := escapes || At(s, cur) == '\\' as int;
        stop := StringTurn(quote);
        assert StringScan(tmpStorage, cur, escapes, errors - e0) == StringThen(acc, st, escape);
      }
    }

    /** One turn of the string scanner. */
    method StringTurn(quote: int) returns (stop: bool)
      requires Valid() && IsQuote(quote)
      modifies this`cur, this`errors, this`tmpStorage
      ensures Valid()
      ensures var st := StringStepAt(buffer, decode, old(cur), quote, strictMode);
        && tmpStorage == old(tmpStorage) + st.value && cur == st.next
        && errors == old(errors) + st.errors && stop == st.stop
    {
      var c := At(buffer, cur);
      if c == quote {
        cur := cur + 1;
        return true;
      } else if c == '\\' as int {
        stop := StringEscapeTurn();
      } else if c == LineFeed || c == CarriageReturn {
        errors := errors + 1;
        return true;
      } else if c == 0 && cur == |buffer| {
        errors := errors + 1;
        return true;
      } else if IsUTF8Start(c) {
        var (cp, next) := decode(buffer, cur);
        tmpStorage := tmpStorage + [cp];
        cur := next;
        return false;
      } else {
        tmpStorage := tmpStorage + [c];
        cur := cur + 1;
        return false;
      }
    }

    /** The escape whose backslash is under the cursor. */
    method StringEscapeTurn() returns (stop: bool)
      requires Valid() && cur < |buffer| && buffer[cur] == '\\' as int
      modifies this`cur, this`errors, this`tmpStorage
      ensures Valid()
      ensures var st := StringEscapeAt(buffer, decode, old(cur), strictMode);
        && tmpStorage == old(tmpStorage) + st.value && cur == st.next
        && errors == old(errors) + st.errors && stop == st.stop
    {
      var s, dec := buffer, decode;
      cur := cur + 1;
      var e := At(s, cur);
      stop := false;
      var single := SingleEscapeValue(e);
      if single.Some? {
        cur := cur + 1;
        tmpStorage := tmpStorage + [single.value];
      } else if e == 0 && cur == |s| {
        errors := errors + 1;
        stop := true;
      } else if e == '0' as int && !IsOctalDigit(At(s, cur + 1)) {
        cur := cur + 1;
        tmpStorage := tmpStorage + [0];
      } else if IsOctalDigit(e) {
        var v := ConsumeOctal(if e <= '3' as int then 3 else 2);
        tmpStorage := tmpStorage + [v];
      } else if e == 'x' as int {
        cur := cur + 1;
        var v := ConsumeHex(2, true);
        tmpStorage := tmpStorage + [if v.Some? then v.value else 0];
      } else if e == 'u' as int {
        cur := cur - 1;
        var cp := ConsumeUnicodeEscape();
        tmpStorage := tmpStorage + [cp];
      } else {
        var cp := StringCharacterEscape();
        tmpStorage := tmpStorage + cp;
      }
    }

    /** An escaped line terminator or an escaped character that stands for
        itself in a string literal, with the byte after the backslash under
        the cursor. */
    method StringCharacterEscape() returns (value: seq<int>)
      requires Valid() && 1 <= cur && buffer[cur - 1] == '\\' as int
      requires var e := At(buffer, cur);
        && SingleEscapeValue(e).None? && !(e == 0 && cur == |buffer|) && !IsOctalDigit(e) && e != 'x' as int && e != 'u' as int
      modifies this`cur
      ensures Valid()
      ensures StringEscapeAt(buffer, decode, old(cur) - 1, strictMode) == StringStep(value, cur, false, 0)
    {
      var s, dec := buffer, decode;
      var e := At(s, cur);
      value := [];
      if e == LineFeed {
        cur := cur + 1;
      } else if e == CarriageReturn {
        cur := cur + 1;
        if At(s, cur) == LineFeed {
          cur := cur + 1;
        }
      } else if IsUnicodeLineTerminatorAt(s, cur) {
        cur := cur + 3;
      } else if IsUTF8Start(e) {
        var (cp, next) := dec(s, cur);
        value := [cp];
        cur := next;
      } else {
        value := [e];
        cur := cur + 1;
      }
    }

    /** Scans a template literal from its opening backquote, or its
        continuation from the `}` that closes a substitution, up to and
        including the closing backquote or `${`, gathering the cooked value
        in the value storage and the raw value in the raw storage. */
    method ScanTemplateLiteral()
      requires Valid() && cur < |buffer| && (buffer[cur] == '`' as int || buffer[cur] == '}' as int)
      modifies this`cur, this`errors, this`tmpStorage, this`rawStorage, this`token
      ensures Valid()
      ensures var (t, next, errs) := ScanTemplate(buffer, decode, old(cur));
        token == TemplateLiteral(t) && cur == next && errors == old(errors) + errs
      ensures var r := TemplateFrom(buffer, decode, old(cur) + 1, TemplateScan([], [], old(cur) + 1, false, false, 0));
        tmpStorage == r.cooked && rawStorage == r.raw
    {
      var isHead := buffer[cur] == '`' as int;
      var isTail := false;
      cur := cur + 1;
      var notEscape := false;
      tmpStorage := [];
      rawStorage := [];
      ghost var s, dec := buffer, decode;
      ghost var r := TemplateFrom(s, dec, cur, TemplateScan([], [], cur, false, false, 0));
      ghost var e0 := errors;
      var stop := false;
      while !stop
        invariant 0 <= cur <= |s| && e0 <= errors
        invariant var acc := TemplateScan(tmpStorage, rawStorage, cur, isTail, notEscape, errors - e0);
          if stop then acc == r else TemplateFrom(s, dec, cur, acc) == r
        decreases if stop then 0 else |s| - cur + 1
      {
        ghost var acc := TemplateScan(tmpStorage, rawStorage, cur, isTail, notEscape, errors - e0);
        ghost var st := TemplateStepAt(s, dec, cur);
        TemplateScanStep(s, dec, cur, acc);
        var found;
        stop, isTail, found := TemplateTurn();
        notEscape := notEscape || found;
        assert TemplateScan(tmpStorage, rawStorage, cur, isTail, notEscape, errors - e0) == Then(acc, st);
      }
      token := TemplateLiteral(TemplateToken(KindOf(isHead, isTail), if notEscape then None else Some(tmpStorage), rawStorage));
    }

    /** One turn of the template scanner: whether it ends the literal, and
        then whether with a backquote, and whether it met something that is
        not an escape sequence. */
    method TemplateTurn() returns (stop: bool, tail: bool, notEscape: bool)
      requires Valid()
      modifies this`cur, this`errors, this`tmpStorage, this`rawStorage
      ensures Valid()
      ensures var st := TemplateStepAt(buffer, decode, old(cur));
        && tmpStorage == old(tmpStorage) + st.cooked && rawStorage == old(rawStorage) + st.raw
        && cur == st.next && errors == old(errors) + st.errors
        && stop == st.stop && tail == st.tail && notEscape == st.notEscape
    {
      var c := At(buffer, cur);
      if c == '`' as int {
        cur := cur + 1;
        return true, true, false;
      } else if c == '$' as int && At(buffer, cur + 1) == '{' as int {
        cur := cur + 2;
        return true, false, false;
      } else if c == '\\' as int {
        var cooked, raw;
        cooked, raw, stop, notEscape := TemplateEscape();
        tmpStorage := tmpStorage + cooked;
        rawStorage := rawStorage + raw;
        return stop, false, notEscape;
      } else if c == 0 && cur == |buffer| {
        errors := errors + 1;
        return true, false, false;
      } else if c == CarriageReturn {
        tmpStorage := tmpStorage + [Trv(c)];
        rawStorage := rawStorage + [Trv(c)];
        cur := cur + 1;
        if At(buffer, cur) == LineFeed {
          cur := cur + 1;
        }
      } else if IsUTF8Start(c) {
        var (cp, next) := decode(buffer, cur);
        tmpStorage := tmpStorage + [cp];
        rawStorage := rawStorage + [cp];
        cur := next;
      } else {
        rawStorage := rawStorage + [c];
        tmpStorage := tmpStorage + [c];
        cur := cur + 1;
      }
      return false, false, false;
    }

    /** The escape whose backslash is under the cursor in a template
        literal: what it adds to the cooked and to the raw value, whether it
        ends the literal, and whether it is not an escape sequence. */
    method TemplateEscape() returns (cooked: seq<int>, raw: seq<int>, stop: bool, notEscape: bool)
      requires Valid() && cur < |buffer| && buffer[cur] == '\\' as int
      modifies this`cur, this`errors
      ensures Valid() && errors >= old(errors)
      ensures TemplateEscapeAt(buffer, decode, old(cur)) == TemplateStep(cooked, raw, cur, stop, false, notEscape, errors - old(errors))
    {
      var s, dec := buffer, decode;
      raw := [s[cur]];
      cur := cur + 1;
      var e := At(s, cur);
      raw := raw + [Trv(e)];
      cooked, stop, notEscape := [], false, false;
      var single := SingleEscapeValue(e);
      if single.Some? {
        cur := cur + 1;
        cooked := [single.value];
      } else if e == 0 && cur == |s| {
        errors := errors + 1;
        stop := true;
      } else if e == 0 {
        cooked := [e];
        cur := cur + 1;
      } else if e == '0' as int && !IsDecimalDigit(At(s, cur + 1)) {
        cur := cur + 1;
        cooked := [0];
      } else if IsDecimalDigit(e) {
        cur := cur + 1;
        notEscape := true;
      } else if e == 'x' as int {
        var rawTail;
        cooked, rawTail, notEscape := TemplateHexEscape();
        raw := raw + rawTail;
      } else if e == 'u' as int {
        var rawTail;
        cooked, rawTail, notEscape := TemplateUnicodeEscape();
        raw := raw + rawTail;
      } else {
        cooked, raw := TemplateCharacterEscape(raw);
      }
    }

    /** An escaped line terminator or an escaped character that stands for
        itself in a template literal, with the byte after the backslash
        under the cursor; `raw` holds the backslash and that byte. */
    method TemplateCharacterEscape(raw0: seq<int>) returns (cooked: seq<int>, raw: seq<int>)
      requires Valid() && 1 <= cur && buffer[cur - 1] == '\\' as int
      requires var e := At(buffer, cur);
        && SingleEscapeValue(e).None? && e != 0 && !IsDecimalDigit(e) && e != 'x' as int && e != 'u' as int
        && raw0 == ['\\' as int, Trv(e)]
      modifies this`cur
      ensures Valid()
      ensures TemplateEscapeAt(buffer, decode, old(cur) - 1) == TemplateStep(cooked, raw, cur, false, false, false, 0)
    {
      var s, dec := buffer, decode;
      var e := At(s, cur);
      cooked, raw := [], raw0;
      if e == LineFeed {
        cur := cur + 1;
      } else if e == CarriageReturn {
        cur := cur + 1;
        if At(s, cur) == LineFeed {
          cur := cur + 1;
        }
      } else if IsUTF8Start(e) {
        var isLineTerminator := IsUnicodeLineTerminatorAt(s, cur);
        var (cp, next) := dec(s, cur);
        cur := next;
        raw := raw[..|raw| - 1] + [cp];
        if !isLineTerminator {
          cooked := [cp];
        }
      } else {
        cooked := [e];
        cur := cur + 1;
      }
    }

    /** A `\x` escape in a template literal, with the `x` under the cursor:
        its value, what follows the `x` in the raw value, and whether it is
        malformed, which is no error here. */
    method TemplateHexEscape() returns (cooked: seq<int>, rawTail: seq<int>, notEscape: bool)
      requires Valid() && 1 <= cur < |buffer| && buffer[cur - 1] == '\\' as int && buffer[cur] == 'x' as int
      modifies this`cur, this`errors
      ensures Valid() && errors == old(errors)
      ensures TemplateEscapeAt(buffer, decode, old(cur) - 1) == TemplateStep(cooked, ['\\' as int, 'x' as int] + rawTail, cur, false, false, notEscape, 0)
    {
      cur := cur + 1;
      var start := cur;
      TemplateHexAt(buffer, decode, start - 2);
      var v := ConsumeHex(2, false);
      notEscape := v.None?;
      cooked := [if v.Some? then v.value else 0];
      rawTail := buffer[start..cur];
    }

    /** A `\u` escape in a template literal, with the `u` under the cursor:
        its value, what follows the `u` in the raw value, and whether it is
        malformed, in which case scanning resumes after the `u`. */
    method TemplateUnicodeEscape() returns (cooked: seq<int>, rawTail: seq<int>, notEscape: bool)
      requires Valid() && 1 <= cur < |buffer| && buffer[cur - 1] == '\\' as int && buffer[cur] == 'u' as int
      modifies this`cur, this`errors
      ensures Valid() && errors == old(errors)
      ensures TemplateEscapeAt(buffer, decode, old(cur) - 1) == TemplateStep(cooked, ['\\' as int, 'u' as int] + rawTail, cur, false, false, notEscape, 0)
    {
      var start := cur + 1;
      cur := cur - 1;
      TemplateUnicodeAt(buffer, decode, cur);
      var cp := ConsumeUnicodeEscapeOptional();
      if cp.None? {
        cooked, rawTail, notEscape := [], [], true;
        cur := start;
      } else {
        cooked, rawTail, notEscape := [cp.value], buffer[start..cur], false;
      }
    }
    /** Scans the punctuator under the cursor, if there is one, and moves
        past it. */
    method ScanPunctuator(regExpAllowed: bool) returns (found: bool)
      requires Valid()
      modifies this`cur, this`token
      ensures Valid()
      ensures var p := PunctuatorAt(buffer, old(cur), regExpAllowed);
        && found == p.Some?
        && (found ==> token == Punctuator(p.value) && cur == old(cur) + |p.value| && WrittenAt(buffer, old(cur), p.value))
        && (!found ==> token == old(token) && cur == old(cur))
    {
      var p := PunctuatorAt(buffer, cur, regExpAllowed);
      PunctuatorLongestMatch(buffer, cur, regExpAllowed, "");
      if p.None? {
        return false;
      }
      PunctuatorInside(buffer, cur, p.value);
      token := Punctuator(p.value);
      cur := cur + |p.value|;
      return true;
    }

    /** Moves the cursor over a run of digits in `radix` and separators. */
    method ConsumeRun(radix: int)
      requires Valid()
      modifies this`cur
      ensures Valid() && cur == RunEnd(buffer, old(cur), radix)
    {
      var s := buffer;
      ghost var e := RunEnd(s, cur, radix);
      while InRun(At(s, cur), radix)
        invariant old(cur) <= cur <= e && RunEnd(s, cur, radix) == e
        decreases e - cur
      {
        cur := cur + 1;
      }
    }

    /** The exponent, after its `e`: an optional sign and at least one
        digit, which makes the literal well formed. */
    method ConsumeExponent(radix: int, legacyOctal: bool, digitsStart: int) returns (n: NumberShape)
      requires Valid()
      modifies this`cur
      ensures Valid()
      ensures n == Exponent(buffer, old(cur), radix, legacyOctal, digitsStart) && cur == n.next
    {
      if At(buffer, cur) == '+' as int || At(buffer, cur) == '-' as int {
        cur := cur + 1;
      }
      if IsDecimalDigit(At(buffer, cur)) {
        cur := cur + 1;
        ConsumeRun(10);
        return NumberShape(radix, legacyOctal, digitsStart, true, true, cur);
      }
      return NumberShape(radix, legacyOctal, digitsStart, true, false, cur);
    }

    /** The fraction, after its `.`, and the exponent that may follow. */
    method ConsumeFraction(radix: int, legacyOctal: bool, digitsStart: int) returns (n: NumberShape)
      requires Valid()
      modifies this`cur
      ensures Valid()
      ensures n == Fraction(buffer, old(cur), radix, legacyOctal, digitsStart) && cur == n.next
    {
      ConsumeRun(10);
      if LowerCaseBit(At(buffer, cur)) == 'e' as int {
        cur := cur + 1;
        n := ConsumeExponent(radix, legacyOctal, digitsStart);
      } else {
        n := NumberShape(radix, legacyOctal, digitsStart, true, true, cur);
      }
    }

    /** The integer part, from the cursor, and the fraction or exponent that
        may follow in a decimal or legacy octal literal. */
    method ConsumeInteger(radix: int, legacyOctal: bool, digitsStart: int) returns (n: NumberShape)
      requires Valid()
      modifies this`cur
      ensures Valid()
      ensures n == Integer(buffer, old(cur), radix, legacyOctal, digitsStart) && cur == n.next
    {
      ConsumeRun(radix);
      if (radix == 10 || legacyOctal) && At(buffer, cur) == '.' as int {
        cur := cur + 1;
        n := ConsumeFraction(radix, legacyOctal, digitsStart);
      } else if (radix == 10 || legacyOctal) && LowerCaseBit(At(buffer, cur)) == 'e' as int {
        cur := cur + 1;
        n := ConsumeExponent(radix, legacyOctal, digitsStart);
      } else {
        n := NumberShape(radix, legacyOctal, digitsStart, false, true, cur);
      }
    }

    /** Scans the numeric literal under the cursor and settles the radix it
        is read in, reporting a malformed literal, a legacy octal literal
        that is not allowed and a prefix without digits. The fast path for
        short decimal integers reports nothing, like the branch for reals
        and decimals when the literal is not legacy octal. */
    method ScanNumericLiteral()
      requires Valid() && cur < |buffer| && StartsNumber(buffer, cur)
      modifies this`cur, this`errors, this`token
      ensures Valid()
      ensures var n := ScanNumber(buffer, old(cur));
        && cur == n.next
        && token == NumericLiteral(n, LiteralRadix(buffer, n, strictMode))
        && errors == old(errors) + LiteralErrors(buffer, n, strictMode)
    {
      var n := ConsumeNumber();
      var radix := n.radix;
      if !n.ok {
        errors := errors + 1;
      } else if n.isReal || radix == 10 {
        if n.legacyOctal {
          if strictMode {
            errors := errors + 1;
          } else {
            radix := UpdateLegacyOctalRadix(n.digitsStart);
            if radix != 10 {
              errors := errors + 1;
            }
          }
        }
      } else {
        if n.legacyOctal && strictMode && cur - n.digitsStart > 1 {
          errors := errors + 1;
        }
        if cur == n.digitsStart {
          errors := errors + 1;
        } else if n.legacyOctal {
          radix := UpdateLegacyOctalRadix(n.digitsStart);
        }
      }
      token := NumericLiteral(n, radix);
    }

    /** Detects the radix from the prefix and scans the rest of the
        literal. */
    method ConsumeNumber() returns (n: NumberShape)
      requires Valid() && cur < |buffer| && StartsNumber(buffer, cur)
      modifies this`cur
      ensures Valid()
      ensures n == ScanNumber(buffer, old(cur)) && cur == n.next
    {
      var start := cur;
      if buffer[cur] == '0' as int {
        var c1 := At(buffer, cur + 1);
        if LowerCaseBit(c1) == 'x' as int {
          cur := cur + 2;
          n := ConsumeInteger(16, false, start + 2);
        } else if LowerCaseBit(c1) == 'o' as int {
          cur := cur + 2;
          n := ConsumeInteger(8, false, start + 2);
        } else if LowerCaseBit(c1) == 'b' as int {
          cur := cur + 2;
          n := ConsumeInteger(2, false, start + 2);
        } else if c1 == '.' as int {
          cur := cur + 2;
          n := ConsumeFraction(10, false, start);
        } else if LowerCaseBit(c1) == 'e' as int {
          cur := cur + 2;
          n := ConsumeExponent(10, false, start);
        } else {
          cur := cur + 1;
          n := ConsumeInteger(8, true, start);
        }
      } else {
        n := ConsumeInteger(10, false, start);
      }
    }

    /** The radix of a legacy octal literal whose bytes start at `start`
        and end at the cursor: 10 when a byte from `8` upwards other than
        `_` comes before the first `.` or lower-case `e`, 8 otherwise. */
    method UpdateLegacyOctalRadix(start: int) returns (radix: int)
      requires Valid() && 0 <= start <= cur
      ensures radix == LegacyOctalRadixAsWritten(buffer, start, cur)
    {
      var s := buffer;
      var p := start;
      while p != cur
        invariant start <= p <= cur && LegacyOctalRadixAsWritten(s, p, cur) == LegacyOctalRadixAsWritten(s, start, cur)
        decreases cur - p
      {
        if s[p] == '.' as int || s[p] == 'e' as int {
          break;
        }
        if s[p] >= '8' as int && s[p] != '_' as int {
          return 10;
        }
        p := p + 1;
      }
      return 8;
    }
  }

  /** A punctuator the lexer takes lies inside the buffer. */
  lemma PunctuatorInside(s: seq<Byte>, i: int, p: string)
    requires 0 <= i <= |s| && 1 <= |p| && WrittenAt(s, i, p)
    requires forall k :: 0 <= k < |p| ==> p[k] != 0 as char
    ensures i + |p| <= |s|
  {
    assert Ch(s, i + |p| - 1) == p[|p| - 1];
  }

  /** One turn of the string scanner, unfolded. */
  lemma StringScanStep(s: seq<Byte>, decode: (seq<Byte>, int) -> (int, int), i: int, quote: int, strict: bool, acc: StringScan)
    requires 0 <= i <= |s| && DecodeAdvances(s, decode) && IsQuote(quote)
    ensures var st := StringStepAt(s, decode, i, quote, strict);
      var acc' := StringThen(acc, st, At(s, i) == '\\' as int);
      && i <= st.next <= |s| && (!st.stop ==> i < st.next)
      && ScanStringFrom(s, decode, i, quote, strict, acc) == if st.stop then acc' else ScanStringFrom(s, decode, st.next, quote, strict, acc')
  {
    StringStepAdvances(s, decode, i, quote, strict);
  }

  /** One more octal digit: the number grows by it. */
  lemma OctalStep(s: seq<Byte>, start: int, k: nat)
    requires AllDigits(s, start, k, 8) && IsOctalDigit(At(s, start + k))
    ensures AllDigits(s, start, k + 1, 8) && start + k < |s|
    ensures Number(s, start, k + 1, 8) == Number(s, start, k, 8) * 8 + At(s, start + k) - '0' as int
  {
  }

  /** The bytes of a braced escape read so far are hex digits worth at most
      U+10FFFF. */
  ghost predicate BracedOk(s: seq<Byte>, start: int, k: nat)
  {
    AllDigits(s, start, k, 16) && Number(s, start, k, 16) <= UnicodeMaxValue
  }

  /** One more byte of a braced escape: it keeps the body valid exactly
      when it is a hex digit and the value stays in range. */
  lemma BracedStep(s: seq<Byte>, start: int, k: nat)
    ensures var ch := At(s, start + k);
      var d := JsiUtf.HexValue(ch as char);
      && HexDigitOf(ch) == d
      && (BracedOk(s, start, k + 1) <==> BracedOk(s, start, k) && d >= 0 && Number(s, start, k, 16) * 16 + d <= UnicodeMaxValue)
      && (BracedOk(s, start, k + 1) ==> Number(s, start, k + 1, 16) == Number(s, start, k, 16) * 16 + d)
  {
    var ch := At(s, start + k);
    HexDigitOfMeaning(ch);
    if AllDigits(s, start, k + 1, 16) {
      assert AllDigits(s, start, k, 16);
    }
  }

  /** The braced reader's result in terms of the body's validity. */
  lemma BracedEnd(s: seq<Byte>, open: int)
    requires 0 <= open < |s|
    ensures var e := BraceEnd(s, open + 1);
      ScanBraced(s, open) ==
        if e == |s| then (None, e)
        else if e > open + 1 && BracedOk(s, open + 1, e - open - 1) then (Some(Number(s, open + 1, e - open - 1, 16)), e + 1)
        else (None, e + 1)
  {
    var e := BraceEnd(s, open + 1);
    if e < |s| {
      HexDigitsMeaning(s, open + 1, e - open - 1);
    }
  }

  /** A digit run that is `k` long and then stops, or is `n` long, is what
      the run counter counts. */
  lemma {:induction false} DigitRunStops(s: seq<Byte>, j: int, k: nat, n: nat, radix: int)
    requires k <= n && AllDigits(s, j, k, radix)
    requires k < n ==> DigitValue(At(s, j + k), radix) < 0
    ensures DigitRun(s, j, n, radix) == k
    decreases k
  {
    if k > 0 {
      assert DigitValue(At(s, j), radix) >= 0;
      DigitRunStops(s, j + 1, k - 1, n - 1, radix);
    }
  }

  /** One more hex digit never makes the number smaller. */
  lemma NumberGrows(s: seq<Byte>, j: int, k: nat)
    requires AllDigits(s, j, k + 1, 16)
    ensures Number(s, j, k + 1, 16) >= Number(s, j, k, 16) * 16
  {
  }
}
