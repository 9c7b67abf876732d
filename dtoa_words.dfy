/*
 * The arithmetic underneath the big integers of the David M. Gay `dtoa.c`
 * conversion library: 32-bit words (the `ULong` of the `Pack_32`
 * configuration), the value of a little-endian word sequence, and the
 * one-word steps of the carry and borrow loops, which the library computes
 * in 64-bit `ULLong` arithmetic.
 */
module DtoaWords {
  /** 2^32, the radix of a big integer's words. */
  const Base: int := 0x1_0000_0000

  /** 2^64: `ULLong` arithmetic wraps modulo this. */
  const DoubleBase: int := 0x1_0000_0000_0000_0000

  type Word = w: int | 0 <= w < 0x1_0000_0000

  function Pow2(n: nat): (p: nat)
    ensures p >= 1
  {
    if n == 0 then 1 else 2 * Pow2(n - 1)
  }

  /** Base^n, the weight of the word at index n. */
  function BPow(n: nat): (p: nat)
    ensures p >= 1
  {
    if n == 0 then 1 else Base * BPow(n - 1)
  }

  /** The value of a little-endian sequence of words: word i has weight
      Base^i. */
  function Val(s: seq<Word>): nat
  {
    if |s| == 0 then 0 else Val(s[..|s| - 1]) + s[|s| - 1] * BPow(|s| - 1)
  }

  /** A sequence is normalized when it holds at least one word and its top
      word is not zero unless it is the only word. */
  predicate Normalized(s: seq<Word>)
  {
    |s| >= 1 && (|s| > 1 ==> s[|s| - 1] != 0)
  }

  // ---------------------------------------------------------------------------
  // Facts about Val.
  // ---------------------------------------------------------------------------

  /** Extending a prefix by one word adds that word at its weight. */
  lemma {:induction false} ValPrefix(s: seq<Word>, i: nat)
    requires i < |s|
    ensures Val(s[..i + 1]) == Val(s[..i]) + s[i] * BPow(i)
  {
    assert s[..i + 1][..i] == s[..i];
  }

  /** Appending a word adds it at the weight of its index. */
  lemma {:induction false} ValAppend(s: seq<Word>, w: Word)
    ensures Val(s + [w]) == Val(s) + w * BPow(|s|)
  {
    assert (s + [w])[..|s|] == s;
  }

  /** A sequence split at j: the low part plus the high part at weight
      Base^j. */
  lemma {:induction false} ValSplit(s: seq<Word>, j: nat)
    requires j <= |s|
    ensures Val(s) == Val(s[..j]) + BPow(j) * Val(s[j..])
  {
    if j == |s| {
      assert s[..j] == s && s[j..] == [];
    } else {
      var n := |s| - 1;
      ValSplit(s[..n], j);
      assert s[..n][..j] == s[..j];
      assert s[..n][j..] == s[j..][..n - j];
      BPowAdd(j, n - j);
      SplitStep(Val(s[..j]), Val(s[j..][..n - j]), s[n], BPow(j), BPow(n - j));
    }
  }

  /** The algebra of one step of ValSplit. */
  lemma {:induction false} SplitStep(lo: int, hi: int, t: int, pj: int, pr: int)
    ensures lo + pj * hi + t * (pj * pr) == lo + pj * (hi + t * pr)
  {
  }

  /** The value of a concatenation: the high part at the weight of the
      low part's length. */
  lemma {:induction false} ValConcat(lo: seq<Word>, hi: seq<Word>)
    ensures Val(lo + hi) == Val(lo) + BPow(|lo|) * Val(hi)
  {
    ValSplit(lo + hi, |lo|);
    assert (lo + hi)[..|lo|] == lo && (lo + hi)[|lo|..] == hi;
  }

  /** Products of non-negative factors are monotonic in both. */
  lemma {:induction false} MulBoth(a: int, a': int, b: int, b': int)
    requires 0 <= a <= a' && 0 <= b <= b'
    ensures a * b <= a' * b'
  {
    MulMonotonic(a, a', b);
    MulMonotonic(b, b', a');
  }

  /** A sequence whose value reaches the weight of its top index has a
      non-zero top word, so is normalized. */
  lemma {:induction false} NormalizedFromBound(s: seq<Word>)
    requires |s| >= 1 && Val(s) >= BPow(|s| - 1)
    ensures Normalized(s)
  {
    if |s| > 1 && s[|s| - 1] == 0 {
      ValTopZero(s);
      ValBound(s[..|s| - 1]);
    }
  }

  /** A normalized sequence of more than one word reaches the weight of its
      top index. */
  lemma {:induction false} NormalizedBound(s: seq<Word>)
    requires Normalized(s) && |s| > 1
    ensures Val(s) >= BPow(|s| - 1)
  {
    ValAtLeastTop(s);
    MulMonotonic(1, s[|s| - 1], BPow(|s| - 1));
  }

  lemma {:induction false} BPowStep(n: nat)
    ensures BPow(n + 1) == Base * BPow(n)
  {
  }

  lemma {:induction false} BPowAdd(m: nat, n: nat)
    ensures BPow(m + n) == BPow(m) * BPow(n)
  {
    if n == 0 {
    } else {
      BPowAdd(m, n - 1);
      calc {
        BPow(m + n);
        Base * BPow(m + n - 1);
        Base * (BPow(m) * BPow(n - 1));
        BPow(m) * (Base * BPow(n - 1));
        BPow(m) * BPow(n);
      }
    }
  }

  lemma {:induction false} BPowMonotonic(m: nat, n: nat)
    requires m <= n
    ensures BPow(m) <= BPow(n)
  {
    if m < n {
      BPowMonotonic(m, n - 1);
    }
  }

  /** Pow2(32) is the radix, and Pow2(s) * Pow2(32 - s) splits it. */
  lemma {:induction false} Pow2Add(m: nat, n: nat)
    ensures Pow2(m + n) == Pow2(m) * Pow2(n)
  {
    if n == 0 {
    } else {
      Pow2Add(m, n - 1);
      calc {
        Pow2(m + n);
        2 * Pow2(m + n - 1);
        2 * (Pow2(m) * Pow2(n - 1));
        Pow2(m) * (2 * Pow2(n - 1));
      }
    }
  }

  lemma {:induction false} Pow2Monotonic(m: nat, n: nat)
    requires m <= n
    ensures Pow2(m) <= Pow2(n)
  {
    if m < n {
      Pow2Monotonic(m, n - 1);
    }
  }

  lemma {:induction false} Pow2Word()
    ensures Pow2(32) == Base
  {
    assert Pow2(4) == 16;
    Pow2Add(4, 4);
    Pow2Add(8, 8);
    Pow2Add(16, 16);
  }

  /** A sequence of n words is worth less than Base^n. */
  lemma {:induction false} ValBound(s: seq<Word>)
    ensures Val(s) < BPow(|s|)
  {
    if |s| > 0 {
      var n := |s| - 1;
      ValBound(s[..n]);
      var w, p := s[n], BPow(n);
      assert Val(s) == Val(s[..n]) + w * p;
      assert w * p <= (Base - 1) * p by {
        MulMonotonic(w, Base - 1, p);
      }
      assert BPow(n + 1) == Base * p;
    }
  }

  lemma {:induction false} MulMonotonic(a: int, b: int, p: nat)
    requires a <= b
    ensures a * p <= b * p
  {
  }

  /** A normalized sequence of two or more words is worth at least
      Base^(n-1). */
  lemma {:induction false} ValAtLeastTop(s: seq<Word>)
    requires |s| >= 1
    ensures Val(s) >= s[|s| - 1] * BPow(|s| - 1)
  {
  }

  /** A top word of zero adds nothing. */
  lemma {:induction false} ValTopZero(s: seq<Word>)
    requires |s| >= 1 && s[|s| - 1] == 0
    ensures Val(s) == Val(s[..|s| - 1])
  {
  }

  /** Only the empty sequence and sequences of zero words are worth 0. */
  lemma {:induction false} ValZero(s: seq<Word>)
    ensures Val(s) == 0 <==> forall i :: 0 <= i < |s| ==> s[i] == 0
  {
    if |s| > 0 {
      var n := |s| - 1;
      ValZero(s[..n]);
      assert Val(s) == Val(s[..n]) + s[n] * BPow(n);
      if Val(s) == 0 {
        assert s[n] * BPow(n) == 0;
        forall i | 0 <= i < |s| ensures s[i] == 0 {
          if i < n {
            assert s[..n][i] == s[i];
          }
        }
      } else if s[n] == 0 {
        var i :| 0 <= i < n && s[..n][i] != 0;
        assert s[i] != 0;
      }
    }
  }

  /** A sequence with more words than a normalized one of smaller length is
      worth more. */
  lemma {:induction false} LongerIsLarger(a: seq<Word>, b: seq<Word>)
    requires Normalized(a) && Normalized(b) && |a| < |b|
    ensures Val(a) < Val(b)
  {
    ValBound(a);
    BPowMonotonic(|a|, |b| - 1);
    ValAtLeastTop(b);
    MulMonotonic(1, b[|b| - 1], BPow(|b| - 1));
  }

  /** Of two sequences of one length that agree above index j, the one with
      the smaller word at j is worth less. */
  lemma {:induction false} LowerAtIsSmaller(a: seq<Word>, b: seq<Word>, j: nat)
    requires |a| == |b| && j < |a|
    requires a[j] < b[j] && a[j + 1..] == b[j + 1..]
    ensures Val(a) < Val(b)
  {
    var n := |a| - 1;
    TopSplit(a);
    TopSplit(b);
    if j == n {
      TopDecides(Val(a[..n]), Val(b[..n]), a[n], b[n], BPow(n));
    } else {
      assert a[n] == a[j + 1..][n - j - 1] == b[n];
      assert a[..n][j + 1..] == a[j + 1..n] == b[j + 1..n] == b[..n][j + 1..];
      LowerAtIsSmaller(a[..n], b[..n], j);
    }
  }

  /** With digits below the radix p, a smaller top digit decides. */
  lemma {:induction false} TopDecides(la: nat, lb: nat, ta: nat, tb: nat, p: nat)
    requires la < p && ta < tb
    ensures la + ta * p < lb + tb * p
  {
    MulMonotonic(ta + 1, tb, p);
  }

  /** Zero words above index j add nothing. */
  lemma {:induction false} ValTrimmed(s: seq<Word>, j: nat)
    requires j <= |s|
    requires forall i :: j <= i < |s| ==> s[i] == 0
    ensures Val(s) == Val(s[..j])
  {
    if j < |s| {
      var n := |s| - 1;
      assert s[..n][..j] == s[..j];
      assert forall i :: j <= i < n ==> s[..n][i] == s[i];
      ValTrimmed(s[..n], j);
      assert Val(s[..n]) == Val(s[..j]);
      ValTopZero(s);
      assert Val(s) == Val(s[..n]);
    } else {
      assert s[..j] == s;
    }
  }

  // ---------------------------------------------------------------------------
  // One-word steps of the carry and borrow loops.
  // ---------------------------------------------------------------------------

  /** `z = x * (ULLong)m + acc + carry; carry = z >> 32; word = z & 0xffffffff`:
      the word and the new carry together represent x * m + acc + carry. The
      64-bit sum does not wrap (MulAccNoWrap), so it is computed here as an
      unbounded one. */
  function MulAccStep(x: Word, m: Word, acc: Word, carry: Word): (r: (Word, Word))
    ensures r.0 + r.1 * Base == x * m + acc + carry
  {
    MulAccNoWrap(x, m, acc, carry);
    var z := x * m + acc + carry;
    (z % Base, z / Base)
  }

  /** For 32-bit operands, x * m + acc + carry fits 64 bits, so reducing it
      modulo 2^64 as `ULLong` arithmetic does leaves it as it is. */
  lemma {:induction false} MulAccNoWrap(x: Word, m: Word, acc: Word, carry: Word)
    ensures 0 <= x * m + acc + carry < DoubleBase
    ensures (x * m + acc + carry) % DoubleBase == x * m + acc + carry
  {
    assert x * m <= (Base - 1) * (Base - 1) by {
      MulMonotonic(x, Base - 1, m);
      MulMonotonic(m, Base - 1, Base - 1);
    }
  }

  /** One step of a borrow loop: the word and the borrow out together
      represent x - sub - borrow; the borrow is 1 exactly when that
      difference is negative. */
  function SubStep(x: Word, sub: Word, borrow: int): (r: (Word, int))
    requires 0 <= borrow <= 1
    ensures r.0 - r.1 * Base == x - sub - borrow
    ensures 0 <= r.1 <= 1
  {
    var d := x - sub - borrow;
    if d >= 0 then (d, 0) else (d + Base, 1)
  }

  /** `y = x - sub - borrow` computed in `ULLong` (so modulo 2^64),
      `borrow = y >> 32 & 1`, `word = y & 0xffffffff`: bit 32 of the wrapped
      difference is set exactly when the difference is negative, so these
      give the word and the borrow of SubStep. */
  lemma {:induction false} SubStepWrapped(x: Word, sub: Word, borrow: int)
    requires 0 <= borrow <= 1
    ensures ((x - sub - borrow) % DoubleBase % Base, (x - sub - borrow) % DoubleBase / Base % 2)
         == SubStep(x, sub, borrow)
  {
    var d := x - sub - borrow;
    var y := d % DoubleBase;
    if d >= 0 {
      assert y == d && y / Base == 0;
    } else {
      assert y == DoubleBase + d;
      assert y / Base == Base - 1 by {
        assert (Base - 1) * Base <= y < Base * Base;
      }
      assert y % Base == d + Base;
    }
  }

  // ---------------------------------------------------------------------------
  // The algebra of one turn of a carry loop.
  // ---------------------------------------------------------------------------

  /** If the words so far plus the pending carry (at weight p) stand for
      `total`, and the new word w with its carry c out stand for t plus the
      carry in, then the longer prefix with the new carry stands for total
      plus t at weight p. A borrow is a negative carry. */
  lemma {:induction false} AccumulateStep(v: int, carry: int, p: int, total: int, w: int, c: int, t: int)
    requires v + carry * p == total
    requires w + c * Base == t + carry
    ensures v + w * p + c * (Base * p) == total + t * p
  {
    calc {
      v + w * p + c * (Base * p);
      v + (w + c * Base) * p;
      v + (t + carry) * p;
      v + carry * p + t * p;
    }
  }

  /** Base^n is 2^(32 n). */
  lemma {:induction false} BPowIsPow2(n: nat)
    ensures BPow(n) == Pow2(32 * n)
  {
    if n > 0 {
      BPowIsPow2(n - 1);
      Pow2Add(32 * (n - 1), 32);
      Pow2Word();
    }
  }

  /** `*x1 = x << s | z; z = x >> (32 - s)` for 0 < s < 32, with the bits
      of z below s: the word shifted left keeps its low 32 bits, which end in
      s zero bits, so or-ing z in adds it; the bits shifted out become the
      next z. The two words represent x * 2^s + z. */
  function ShiftPair(x: Word, s: nat, z: nat): (r: (Word, Word))
    requires 0 < s < 32 && z < Pow2(s)
    ensures r.0 + r.1 * Base == x * Pow2(s) + z && r.1 < Pow2(s)
  {
    ShiftStep(x, s, z);
    ((x * Pow2(s)) % Base + z, x / Pow2(32 - s))
  }

  /** The arithmetic behind ShiftPair. */
  lemma {:induction false} ShiftStep(x: Word, s: nat, z: nat)
    requires 0 < s < 32 && z < Pow2(s)
    ensures (x * Pow2(s)) % Base + z < Base
    ensures (x * Pow2(s)) % Base + z + (x / Pow2(32 - s)) * Base == x * Pow2(s) + z
    ensures x / Pow2(32 - s) < Pow2(s)
  {
    var p, q := Pow2(s), Pow2(32 - s);
    assert p * q == Base by {
      Pow2Add(s, 32 - s);
      Pow2Word();
    }
    var hi, lo := x / q, x % q;
    assert x == q * hi + lo && 0 <= lo < q by {
      DivMod(x, q);
    }
    ShiftSplit(x, p, q, hi, lo);
    DivModBase(x * p, hi, p * lo);
  }

  lemma {:induction false} DivMod(x: int, q: int)
    requires q > 0
    ensures x == q * (x / q) + x % q && 0 <= x % q < q
  {
  }

  /** The polynomial part of ShiftStep, with x = q * hi + lo and p * q the
      radix. */
  lemma {:induction false} ShiftSplit(x: int, p: int, q: int, hi: int, lo: int)
    requires p > 0 && q > 0 && p * q == Base
    requires x == q * hi + lo && 0 <= lo < q && 0 <= x < Base
    ensures x * p == Base * hi + p * lo
    ensures 0 <= p * lo <= Base - p
    ensures 0 <= hi < p
  {
    calc {
      x * p;
      (q * hi + lo) * p;
      (p * q) * hi + p * lo;
    }
    MulMonotonic(lo, q - 1, p);
    assert (q - 1) * p == Base - p;
    if hi >= p {
      MulMonotonic(p, hi, q);
    }
    if hi < 0 {
      MulMonotonic(hi, -1, q);
    }
  }

  lemma {:induction false} DivModBase(n: int, hi: int, lo: int)
    requires 0 <= lo < Base && n == Base * hi + lo
    ensures n / Base == hi && n % Base == lo
  {
  }

  /** `q = top(b) / (top(S) + 1)` never exceeds the true quotient: with b
      and S of one length n and the top word of S below 2^32 - 1, q * S <= b. */
  lemma {:induction false} QuotientEstimate(bs: seq<Word>, ss: seq<Word>, q: int)
    requires |bs| == |ss| >= 1 && ss[|ss| - 1] < Base - 1
    requires q == bs[|bs| - 1] / (ss[|ss| - 1] + 1)
    ensures 0 <= q * Val(ss) <= Val(bs)
  {
    var n := |ss| - 1;
    var bt, st := bs[n], ss[n];
    FloorBelow(bt, st + 1, q);
    TopSplit(ss);
    ValAtLeastTop(bs);
    EstimateBound(q, st, bt, BPow(n), Val(ss[..n]), Val(ss), Val(bs));
  }

  /** A floor quotient times its divisor does not exceed the dividend. */
  lemma {:induction false} FloorBelow(x: nat, d: int, q: int)
    requires d > 0 && q == x / d
    ensures 0 <= q && d * q <= x
  {
    DivMod(x, d);
  }

  /** The top word of a sequence and the value below it. */
  lemma {:induction false} TopSplit(s: seq<Word>)
    requires |s| >= 1
    ensures Val(s) == Val(s[..|s| - 1]) + s[|s| - 1] * BPow(|s| - 1)
    ensures Val(s[..|s| - 1]) < BPow(|s| - 1)
  {
    ValBound(s[..|s| - 1]);
  }

  lemma {:induction false} EstimateBound(q: int, st: nat, bt: nat, p: nat, low: nat, vs: nat, vb: nat)
    requires 0 <= q && (st + 1) * q <= bt && low < p && vs == low + st * p && vb >= bt * p
    ensures 0 <= q * vs <= vb
  {
    assert vs < (st + 1) * p;
    MulMonotonic(vs, (st + 1) * p, q);
    assert q * ((st + 1) * p) == (q * (st + 1)) * p;
    MulMonotonic(q * (st + 1), bt, p);
  }
}
