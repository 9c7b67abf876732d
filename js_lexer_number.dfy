/*
 * How the JavaScript lexer delimits a numeric literal: which radix its
 * prefix selects, where its digits start, whether it has a fraction or an
 * exponent, whether its exponent has digits, and where it ends. Converting
 * the digits to a double, and the identifier characters that may follow a
 * number (which make it a BigInt or an error), are not part of this model.
 */
module JSLexerNumber {
  import opened Unicode
  import opened JSLexerSpec

  /** A byte the integer part of a literal in `radix` runs over: a decimal
      digit, a numeric separator, or for radix 16 a letter a to f of either
      case. */
  predicate InRun(b: Byte, radix: int)
  {
    IsDecimalDigit(b) || (radix == 16 && 'a' as int <= LowerCaseBit(b) <= 'f' as int) || b == '_' as int
  }

  /** Where the run of `radix` bytes that starts at `j` ends. */
  function RunEnd(s: seq<Byte>, j: int, radix: int): (e: int)
    requires 0 <= j <= |s|
    ensures j <= e <= |s| && !InRun(At(s, e), radix)
    ensures forall k :: j <= k < e ==> InRun(s[k], radix)
    decreases |s| - j
  {
    if j < |s| && InRun(s[j], radix) then RunEnd(s, j + 1, radix) else j
  }

  /** The shape of a numeric literal: its radix, whether it is a legacy
      octal literal (a 0 followed by digits), where its digits start,
      whether it has a fraction or an exponent, whether it is well formed so
      far, and where it ends. */
  datatype NumberShape = NumberShape(radix: int, legacyOctal: bool, digitsStart: int, isReal: bool, ok: bool, next: int)

  /** After the `e` at `j - 1`: an optional sign and at least one digit. */
  function Exponent(s: seq<Byte>, j: int, radix: int, legacyOctal: bool, digitsStart: int): (n: NumberShape)
    requires 0 <= j <= |s|
    ensures j <= n.next <= |s| && n.isReal
    ensures n.radix == radix && n.legacyOctal == legacyOctal && n.digitsStart == digitsStart
  {
    var k := if At(s, j) == '+' as int || At(s, j) == '-' as int then j + 1 else j;
    if IsDecimalDigit(At(s, k)) then NumberShape(radix, legacyOctal, digitsStart, true, true, RunEnd(s, k + 1, 10))
    else NumberShape(radix, legacyOctal, digitsStart, true, false, k)
  }

  /** After the `.` at `j - 1`: digits, then possibly an exponent. */
  function Fraction(s: seq<Byte>, j: int, radix: int, legacyOctal: bool, digitsStart: int): (n: NumberShape)
    requires 0 <= j <= |s|
    ensures j <= n.next <= |s| && n.isReal
    ensures n.radix == radix && n.legacyOctal == legacyOctal && n.digitsStart == digitsStart
  {
    var e := RunEnd(s, j, 10);
    if LowerCaseBit(At(s, e)) == 'e' as int then Exponent(s, e + 1, radix, legacyOctal, digitsStart)
    else NumberShape(radix, legacyOctal, digitsStart, true, true, e)
  }

  /** The integer part from `j`; a decimal or legacy octal literal may go on
      with a fraction or an exponent. */
  function Integer(s: seq<Byte>, j: int, radix: int, legacyOctal: bool, digitsStart: int): (n: NumberShape)
    requires 0 <= j <= |s|
    ensures j <= n.next <= |s|
    ensures n.radix == radix && n.legacyOctal == legacyOctal && n.digitsStart == digitsStart
    ensures radix != 10 && !legacyOctal ==> !n.isReal
  {
    var e := RunEnd(s, j, radix);
    if (radix == 10 || legacyOctal) && At(s, e) == '.' as int then Fraction(s, e + 1, radix, legacyOctal, digitsStart)
    else if (radix == 10 || legacyOctal) && LowerCaseBit(At(s, e)) == 'e' as int then Exponent(s, e + 1, radix, legacyOctal, digitsStart)
    else NumberShape(radix, legacyOctal, digitsStart, false, true, e)
  }

  /** The numeric literal at `i`, which starts with a digit or with a dot
      followed by a digit. */
  function ScanNumber(s: seq<Byte>, i: int): (n: NumberShape)
    requires 0 <= i < |s| && StartsNumber(s, i)
    ensures i < n.next <= |s| && i <= n.digitsStart <= n.next
  {
    if s[i] == '0' as int then
      var c1 := At(s, i + 1);
      if LowerCaseBit(c1) == 'x' as int then Integer(s, i + 2, 16, false, i + 2)
      else if LowerCaseBit(c1) == 'o' as int then Integer(s, i + 2, 8, false, i + 2)
      else if LowerCaseBit(c1) == 'b' as int then Integer(s, i + 2, 2, false, i + 2)
      else if c1 == '.' as int then Fraction(s, i + 2, 10, false, i)
      else if LowerCaseBit(c1) == 'e' as int then Exponent(s, i + 2, 10, false, i)
      else Integer(s, i + 1, 8, true, i)
    else Integer(s, i, 10, false, i)
  }

  /** Setting the lower-case bit turns exactly the two cases of a letter
      into its lower case. */
  lemma LowerCaseLetter(b: Byte, letter: char)
    requires 'a' <= letter <= 'z'
    ensures LowerCaseBit(b) == letter as int <==> b == letter as int || b == letter as int - 32
  {
  }

  /** A numeric literal starts with a digit, or with a dot and a digit. */
  predicate StartsNumber(s: seq<Byte>, i: int)
  {
    IsDecimalDigit(At(s, i)) || (At(s, i) == '.' as int && IsDecimalDigit(At(s, i + 1)))
  }

  /** The radix follows the prefix: `0x`, `0o` and `0b` in either case
      select 16, 8 and 2, the digits start after the prefix, and there is
      no fraction or exponent; a literal not starting with 0 is decimal. */
  lemma RadixFollowsPrefix(s: seq<Byte>, i: int)
    requires 0 <= i < |s| && StartsNumber(s, i)
    ensures var n := ScanNumber(s, i);
      var c1 := At(s, i + 1);
      && (n.radix == 16 <==> s[i] == '0' as int && (c1 == 'x' as int || c1 == 'X' as int))
      && (n.radix == 8 && !n.legacyOctal <==> s[i] == '0' as int && (c1 == 'o' as int || c1 == 'O' as int))
      && (n.radix == 2 <==> s[i] == '0' as int && (c1 == 'b' as int || c1 == 'B' as int))
      && (n.radix != 10 && !n.legacyOctal ==> n.digitsStart == i + 2 && !n.isReal)
      && (s[i] != '0' as int ==> n.radix == 10 && n.digitsStart == i && !n.legacyOctal)
  {
    var c1 := At(s, i + 1);
    LowerCaseLetter(c1, 'x');
    LowerCaseLetter(c1, 'o');
    LowerCaseLetter(c1, 'b');
    LowerCaseLetter(c1, 'e');
  }

  /** Any other literal starting with 0 is a legacy octal literal, whose
      digits include the 0, unless a fraction or an exponent follows the 0
      at once, which makes it decimal. */
  lemma LegacyOctalPrefix(s: seq<Byte>, i: int)
    requires 0 <= i < |s| && s[i] == '0' as int
    ensures var n := ScanNumber(s, i);
      var c1 := At(s, i + 1);
      && (n.legacyOctal <==> !(LowerCaseBit(c1) in ['x' as int, 'o' as int, 'b' as int, 'e' as int] || c1 == '.' as int))
      && (n.legacyOctal ==> n.radix == 8 && n.digitsStart == i)
      && (c1 == '.' as int || c1 == 'e' as int || c1 == 'E' as int ==> n.radix == 10 && n.isReal && n.digitsStart == i)
  {
    LowerCaseLetter(At(s, i + 1), 'e');
  }

  /** A literal is malformed so far exactly when it has an exponent without
      digits, and then it ends right after the `e` and its sign. */
  lemma ExponentNeedsDigits(s: seq<Byte>, j: int, radix: int, legacyOctal: bool, digitsStart: int)
    requires 0 <= j <= |s|
    ensures var n := Exponent(s, j, radix, legacyOctal, digitsStart);
      var k := if At(s, j) == '+' as int || At(s, j) == '-' as int then j + 1 else j;
      && (n.ok <==> IsDecimalDigit(At(s, k)))
      && (!n.ok ==> n.next == k)
      && (n.ok ==> n.next > k && forall m :: k <= m < n.next ==> IsDecimalDigit(s[m]) || s[m] == '_' as int)
  {
  }

  // ---------------------------------------------------------------------------
  // Legacy octal literals with a fraction or an exponent.
  // ---------------------------------------------------------------------------

  /** A legacy octal literal with a fraction or an exponent is read as
      decimal when a digit 8 or 9 comes before the fraction or exponent (as
      ECMAScript's NonOctalDecimalIntegerLiteral allows), and is an error
      otherwise, since octal literals must be integers. As written the
      lexer looks for the first `.` or lower-case `e` and takes any byte
      from `8` upwards other than `_` for a decimal digit, so an upper-case
      `E` passes for one. The radix it settles on, for the literal's bytes
      from `j` to `end`: 10 exactly when such a byte comes before the first
      `.` or `e`. */
  function LegacyOctalRadixAsWritten(s: seq<Byte>, j: int, end: int): (radix: int)
    requires 0 <= j <= end <= |s|
    ensures radix == 8 || radix == 10
    ensures radix == 10 <==> exists m :: j <= m < end && s[m] >= '8' as int && s[m] != '_' as int && NoDotOrLowerEThrough(s, j, m)
    decreases end - j
  {
    if j == end || s[j] == '.' as int || s[j] == 'e' as int then
      assert forall m :: j <= m < end ==> !NoDotOrLowerEThrough(s, j, m);
      8
    else if s[j] >= '8' as int && s[j] != '_' as int then
      assert NoDotOrLowerEThrough(s, j, j);
      10
    else
      var r := LegacyOctalRadixAsWritten(s, j + 1, end);
      assert forall m :: j < m < end ==> (NoDotOrLowerEThrough(s, j, m) <==> NoDotOrLowerEThrough(s, j + 1, m));
      r
  }

  /** No `.` and no lower-case `e` among the bytes from `j` to `m`,
      both included. */
  ghost predicate NoDotOrLowerEThrough(s: seq<Byte>, j: int, m: int)
    requires 0 <= j && m < |s|
  {
    forall p :: j <= p <= m ==> s[p] != '.' as int && s[p] != 'e' as int
  }

  /** `017E5` and `017e5` are the same literal, yet the first is read as
      decimal (1700000) and the second is rejected. */
  lemma LegacyOctalExponentCaseMatters()
    ensures var upper: seq<Byte> := ['0' as int, '1' as int, '7' as int, 'E' as int, '5' as int];
      var lower: seq<Byte> := ['0' as int, '1' as int, '7' as int, 'e' as int, '5' as int];
      && ScanNumber(upper, 0) == NumberShape(8, true, 0, true, true, 5)
      && ScanNumber(lower, 0) == NumberShape(8, true, 0, true, true, 5)
      && LegacyOctalRadixAsWritten(upper, 0, 5) == 10
      && LegacyOctalRadixAsWritten(lower, 0, 5) == 8
  {
    var upper: seq<Byte> := ['0' as int, '1' as int, '7' as int, 'E' as int, '5' as int];
    var lower: seq<Byte> := ['0' as int, '1' as int, '7' as int, 'e' as int, '5' as int];
    assert RunEnd(upper, 1, 8) == 3 by {
      assert RunEnd(upper, 3, 8) == 3;
    }
    assert RunEnd(lower, 1, 8) == 3 by {
      assert RunEnd(lower, 3, 8) == 3;
    }
    assert RunEnd(upper, 5, 10) == 5;
    assert RunEnd(lower, 5, 10) == 5;
  }

  /** The bytes from `j` up to the first `.`, `e` or `E` (or `end`). */
  function BeforeFractionOrExponent(s: seq<Byte>, j: int, end: int): (k: int)
    requires 0 <= j <= end <= |s|
    ensures j <= k <= end
    ensures forall m :: j <= m < k ==> s[m] != '.' as int && s[m] != 'e' as int && s[m] != 'E' as int
    decreases end - j
  {
    if j == end || s[j] == '.' as int || s[j] == 'e' as int || s[j] == 'E' as int then j
    else BeforeFractionOrExponent(s, j + 1, end)
  }

  /** The radix a legacy octal literal with a fraction or an exponent is
      read in, as intended: 10 exactly when a digit 8 or 9 comes before the
      fraction or exponent. */
  function LegacyOctalRadix(s: seq<Byte>, j: int, end: int): (radix: int)
    requires 0 <= j <= end <= |s|
    ensures radix == 10 <==> exists m :: j <= m < BeforeFractionOrExponent(s, j, end) && (s[m] == '8' as int || s[m] == '9' as int)
    ensures radix == 8 || radix == 10
    decreases end - j
  {
    if j == end || s[j] == '.' as int || s[j] == 'e' as int || s[j] == 'E' as int then 8
    else if s[j] == '8' as int || s[j] == '9' as int then 10
    else LegacyOctalRadix(s, j + 1, end)
  }

  /** The intended reading does not depend on the case of the exponent
      letter. */
  lemma {:induction false} LegacyOctalRadixIgnoresCase(s: seq<Byte>, t: seq<Byte>, j: int, end: int)
    requires 0 <= j <= end <= |s| == |t|
    requires forall m :: j <= m < end ==> s[m] == t[m] || (LowerCaseBit(s[m]) == 'e' as int && LowerCaseBit(t[m]) == 'e' as int)
    ensures LegacyOctalRadix(s, j, end) == LegacyOctalRadix(t, j, end)
    decreases end - j
  {
    if j < end && s[j] != t[j] {
      assert s[j] == 'e' as int || s[j] == 'E' as int;
      assert t[j] == 'e' as int || t[j] == 'E' as int;
    } else if j < end && s[j] != '.' as int && s[j] != 'e' as int && s[j] != 'E' as int && s[j] != '8' as int && s[j] != '9' as int {
      LegacyOctalRadixIgnoresCase(s, t, j + 1, end);
    }
  }

  /** On the bytes a legacy octal literal's integer part runs over, the
      lexer as written and the intended reading agree. */
  lemma {:induction false} LegacyOctalRadixAgreesOnDigits(s: seq<Byte>, j: int, end: int)
    requires 0 <= j <= end <= |s|
    requires forall m :: j <= m < end ==> s[m] != 'E' as int
    ensures LegacyOctalRadixAsWritten(s, j, end) == LegacyOctalRadix(s, j, end) || exists m :: j <= m < end && s[m] > '9' as int && s[m] != '_' as int && s[m] != 'e' as int
    decreases end - j
  {
    if j < end && s[j] != '.' as int && s[j] != 'e' as int && !(s[j] >= '8' as int && s[j] != '_' as int) {
      LegacyOctalRadixAgreesOnDigits(s, j + 1, end);
    }
  }

  // ---------------------------------------------------------------------------
  // The radix a literal is read in, and the errors it reports.
  // ---------------------------------------------------------------------------

  /** The radix the lexer reads a literal in, as written: the prefix's,
      except that a legacy octal literal is settled by its bytes: with a
      fraction or an exponent only outside strict mode, as an integer
      always (unless it has no digits, which cannot happen). */
  function LiteralRadix(s: seq<Byte>, n: NumberShape, strict: bool): (r: int)
    requires 0 <= n.digitsStart <= n.next <= |s|
    ensures !n.legacyOctal ==> r == n.radix
    ensures n.legacyOctal && n.radix == 8 ==> r == 8 || r == 10
  {
    if !n.ok then n.radix
    else if n.isReal || n.radix == 10 then
      if n.legacyOctal && !strict then LegacyOctalRadixAsWritten(s, n.digitsStart, n.next) else n.radix
    else if n.legacyOctal && n.next != n.digitsStart then LegacyOctalRadixAsWritten(s, n.digitsStart, n.next)
    else n.radix
  }

  /** The errors the lexer reports for a literal: one for a malformed
      literal; one for a legacy octal literal with a fraction or an exponent
      in strict mode, or outside it when it is still octal; one for a
      legacy octal integer longer than `0` in strict mode; one for a prefix
      with no digits after it. A malformed literal reports nothing else. */
  function LiteralErrors(s: seq<Byte>, n: NumberShape, strict: bool): (e: nat)
    requires 0 <= n.digitsStart <= n.next <= |s|
    ensures e <= 2 && (!n.ok ==> e == 1)
  {
    if !n.ok then 1
    else if n.isReal || n.radix == 10 then
      if n.legacyOctal && (strict || LegacyOctalRadixAsWritten(s, n.digitsStart, n.next) != 10) then 1 else 0
    else
      (if n.legacyOctal && strict && n.next - n.digitsStart > 1 then 1 else 0)
      + (if n.next == n.digitsStart then 1 else 0)
  }

  /** A literal the lexer accepts is well formed and has digits. It is read
      in the radix its prefix selects, except a legacy octal literal, which
      is read in 8 or 10; with a fraction or an exponent it is always
      decimal, and a legacy octal one is accepted only outside strict mode
      and only when a digit 8 or 9, or an upper-case `E`, makes it decimal.
      In strict mode the only legacy octal literal accepted is `0`. */
  lemma AcceptedLiteralRadix(s: seq<Byte>, i: int, strict: bool)
    requires 0 <= i < |s| && StartsNumber(s, i)
    ensures var n := ScanNumber(s, i);
      var r := LiteralRadix(s, n, strict);
      LiteralErrors(s, n, strict) == 0 ==>
        && n.ok
        && (n.isReal ==> r == 10)
        && (!n.isReal && !n.legacyOctal ==> r == n.radix && n.digitsStart < n.next)
        && (n.legacyOctal ==> r == 8 || r == 10)
        && (n.legacyOctal && strict ==> !n.isReal && n.next == n.digitsStart + 1)
        && (n.isReal && n.legacyOctal ==> !strict && exists m :: n.digitsStart <= m < n.next && (s[m] == '8' as int || s[m] == '9' as int || s[m] == 'E' as int))
  {
    var n := ScanNumber(s, i);
    if LiteralErrors(s, n, strict) == 0 && n.isReal && n.legacyOctal {
      var m :| n.digitsStart <= m < n.next && s[m] >= '8' as int && s[m] != '_' as int && NoDotOrLowerEThrough(s, n.digitsStart, m);
      LegacyOctalRealBytes(s, i, m);
    }
  }

  /** The bytes of a legacy octal literal with a fraction or an exponent,
      up to its first `.` or `e`: digits, separators, and an upper-case `E`
      after which only a sign and digits come. A byte from `8` upwards other
      than `_` among them is an 8, a 9 or an `E`. */
  lemma LegacyOctalRealBytes(s: seq<Byte>, i: int, m: int)
    requires 0 <= i < |s| && StartsNumber(s, i)
    requires var n := ScanNumber(s, i);
      n.legacyOctal && n.isReal && n.digitsStart <= m < n.next && NoDotOrLowerEThrough(s, n.digitsStart, m)
    requires s[m] >= '8' as int && s[m] != '_' as int
    ensures s[m] == '8' as int || s[m] == '9' as int || s[m] == 'E' as int
  {
    var e := RunEnd(s, i + 1, 8);
    if m >= e {
      assert s[e] != '.' as int && s[e] != 'e' as int;
      LowerCaseLetter(s[e], 'e');
      assert s[e] == 'E' as int;
      var k := if At(s, e + 1) == '+' as int || At(s, e + 1) == '-' as int then e + 2 else e + 1;
      if m >= k {
        assert IsDecimalDigit(s[m]);
      }
    }
  }

  /** On the bytes of a legacy octal integer, which are digits and
      separators, the radix as written is 10 exactly when an 8 or a 9 is
      among them. */
  lemma {:induction false} AsWrittenOnDigits(s: seq<Byte>, j: int, end: int)
    requires 0 <= j <= end <= |s|
    requires forall m :: j <= m < end ==> IsDecimalDigit(s[m]) || s[m] == '_' as int
    ensures LegacyOctalRadixAsWritten(s, j, end) == 10 <==> exists m :: j <= m < end && (s[m] == '8' as int || s[m] == '9' as int)
    decreases end - j
  {
    if j < end && !(s[j] >= '8' as int && s[j] != '_' as int) {
      AsWrittenOnDigits(s, j + 1, end);
    }
  }

  /** A legacy octal integer such as `089` is read as decimal exactly when
      it has a digit 8 or 9, in strict mode too. */
  lemma LegacyOctalIntegerRadix(s: seq<Byte>, i: int, strict: bool)
    requires 0 <= i < |s| && StartsNumber(s, i)
    requires var n := ScanNumber(s, i); n.legacyOctal && !n.isReal
    ensures var n := ScanNumber(s, i);
      LiteralRadix(s, n, strict) == 10 <==> exists m :: n.digitsStart <= m < n.next && (s[m] == '8' as int || s[m] == '9' as int)
  {
    var n := ScanNumber(s, i);
    assert s[i] == '0' as int && n.digitsStart == i;
    AsWrittenOnDigits(s, i, n.next);
  }
}
