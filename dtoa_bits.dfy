/*
 * Bit counting on a 32-bit word and the case-insensitive keyword match of
 * the `dtoa.c` library (used for "inf", "infinity" and "nan").
 */
module DtoaBits {
  import opened Unicode

  /** `hi0bits`: the number of leading zero bits of a 32-bit word, found by
      halving the window 16, 8, 4, 2, 1 bits at a time. A zero word gives 32;
      otherwise the highest set bit is bit 31 - k. The count is kept as a
      32-bit value so that it can serve as a shift amount. */
  function Hi0Bits(x: bv32): (k: bv32)
    ensures x == 0 ==> k == 32
    ensures x != 0 ==> k < 32 && x >> (31 - k) == 1
  {
    var k1: bv32, x1: bv32 := if x & 0xffff0000 == 0 then 16 else 0, if x & 0xffff0000 == 0 then x << 16 else x;
    var k2: bv32, x2: bv32 := if x1 & 0xff000000 == 0 then k1 + 8 else k1, if x1 & 0xff000000 == 0 then x1 << 8 else x1;
    var k3: bv32, x3: bv32 := if x2 & 0xf0000000 == 0 then k2 + 4 else k2, if x2 & 0xf0000000 == 0 then x2 << 4 else x2;
    var k4: bv32, x4: bv32 := if x3 & 0xc0000000 == 0 then k3 + 2 else k3, if x3 & 0xc0000000 == 0 then x3 << 2 else x3;
    if x4 & 0x80000000 == 0 then
      if x4 & 0x40000000 == 0 then 32 else k4 + 1
    else
      k4
  }

  /** `lo0bits(&y)`: the number k of trailing zero bits of y, together with
      the new content of y, which is y shifted right by k and so odd. For a
      zero word it returns 32 and leaves y alone. */
  function Lo0Bits(y: bv32): (r: (bv32, bv32))
    ensures y == 0 ==> r == (32, y)
    ensures y != 0 ==> r.0 < 32 && r.1 << r.0 == y && r.1 & 1 == 1
  {
    if y & 7 != 0 then
      if y & 1 != 0 then (0, y)
      else if y & 2 != 0 then (1, y >> 1)
      else (2, y >> 2)
    else
      var k1: bv32, x1: bv32 := if y & 0xffff == 0 then 16 else 0, if y & 0xffff == 0 then y >> 16 else y;
      var k2: bv32, x2: bv32 := if x1 & 0xff == 0 then k1 + 8 else k1, if x1 & 0xff == 0 then x1 >> 8 else x1;
      var k3: bv32, x3: bv32 := if x2 & 0xf == 0 then k2 + 4 else k2, if x2 & 0xf == 0 then x2 >> 4 else x2;
      var k4: bv32, x4: bv32 := if x3 & 0x3 == 0 then k3 + 2 else k3, if x3 & 0x3 == 0 then x3 >> 2 else x3;
      if x4 & 1 == 0 then
        if x4 >> 1 == 0 then (32, y) else (k4 + 1, x4 >> 1)
      else
        (k4, x4)
  }

  /** The two counts agree on the powers of two: 2^j has 31 - j leading and
      j trailing zero bits. */
  lemma PowerOfTwoBits(j: bv32)
    requires j < 32
    ensures Hi0Bits(1 << j) == 31 - j
    ensures Lo0Bits(1 << j) == (j, 1)
  {
  }

  // ---------------------------------------------------------------------------
  // match
  // ---------------------------------------------------------------------------

  /** An upper-case ASCII letter is lowered; every other byte is kept. */
  function ToLower(c: Byte): (l: Byte)
    ensures !('A' as int <= l <= 'Z' as int)
  {
    if 'A' as int <= c <= 'Z' as int then c + ('a' as int - 'A' as int) else c
  }

  /** The keyword t is written, in any mix of case, in the bytes after
      position sp. */
  predicate MatchesAt(s: seq<Byte>, sp: int, t: seq<Byte>)
  {
    forall j :: 0 <= j < |t| ==> ToLower(At(s, sp + 1 + j)) == t[j]
  }

  /** `match(&sp, t)`: compares the bytes after sp, lowered, with the
      keyword t (a C string, so with no zero byte in it). On success the
      cursor moves to just past the match; on failure it stays. */
  method Match(s: seq<Byte>, sp: nat, t: seq<Byte>) returns (matched: bool, newSp: nat)
    requires forall j :: 0 <= j < |t| ==> t[j] != 0
    ensures matched <==> MatchesAt(s, sp, t)
    ensures newSp == if matched then sp + |t| + 1 else sp
  {
    var p := sp;
    var i := 0;
    while i < |t|
      invariant 0 <= i <= |t| && p == sp + i
      invariant forall j :: 0 <= j < i ==> ToLower(At(s, sp + 1 + j)) == t[j]
    {
      var d := t[i];
      p := p + 1;
      var c := At(s, p);
      if 'A' as int <= c <= 'Z' as int {
        c := c + ('a' as int - 'A' as int);
      }
      if c != d {
        return false, sp;
      }
      i := i + 1;
    }
    return true, p + 1;
  }

  /** A keyword holding an upper-case letter never matches. */
  lemma UpperCaseKeywordNeverMatches(s: seq<Byte>, sp: int, t: seq<Byte>, j: nat)
    requires j < |t| && 'A' as int <= t[j] <= 'Z' as int
    ensures !MatchesAt(s, sp, t)
  {
    assert ToLower(At(s, sp + 1 + j)) != t[j];
  }

  /** Input that differs only in the case of its letters matches the same
      keywords. */
  lemma MatchIgnoresCase(s: seq<Byte>, s': seq<Byte>, sp: int, t: seq<Byte>)
    requires |s| == |s'|
    requires forall k :: 0 <= k < |s| ==> ToLower(s[k]) == ToLower(s'[k])
    ensures MatchesAt(s, sp, t) <==> MatchesAt(s', sp, t)
  {
    forall j | 0 <= j < |t|
      ensures (ToLower(At(s, sp + 1 + j)) == t[j]) == (ToLower(At(s', sp + 1 + j)) == t[j])
    {
      var k := sp + 1 + j;
      if 0 <= k < |s| {
        assert At(s, k) == s[k] && At(s', k) == s'[k];
      }
    }
  }

  /** A successful match never reads past the input's terminating zero: the
      whole keyword lies inside the input. */
  lemma MatchWithinInput(s: seq<Byte>, sp: int, t: seq<Byte>)
    requires forall j :: 0 <= j < |t| ==> t[j] != 0
    requires MatchesAt(s, sp, t)
    ensures |t| > 0 ==> 0 <= sp + 1 && sp + |t| < |s|
  {
    if |t| > 0 {
      var j := |t| - 1;
      assert ToLower(At(s, sp + 1 + j)) == t[j] != 0;
      assert ToLower(At(s, sp + 1)) == t[0] != 0;
    }
  }
}
