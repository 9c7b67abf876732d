/*
 * What the word loops of the `dtoa.c` big-integer kernels compute, as
 * functions on sequences of words built one word at a time exactly as the
 * loops go, and what those words are worth: multiply-and-accumulate
 * (`multadd`, one row of `mult`), subtraction with a borrow (`diff`),
 * subtract-a-multiple (`quorem`) and the left shift within a word
 * (`lshift`).
 */
module DtoaWordOps {
  import opened DtoaWords

  /** n zero words. */
  function Zeros(n: nat): (z: seq<Word>)
    ensures |z| == n && forall i :: 0 <= i < n ==> z[i] == 0
  {
    seq(n, _ => 0)
  }

  lemma {:induction false} ZerosWorthNothing(n: nat)
    ensures Val(Zeros(n)) == 0
  {
    ValZero(Zeros(n));
  }

  /** Word i of the result is the low half of xs[i] * y + acc[i] + carry,
      whose high half is the carry into word i + 1; the last carry is
      returned beside the words. */
  function MulAccWords(xs: seq<Word>, y: Word, acc: seq<Word>, carry: Word): (r: (seq<Word>, Word))
    requires |acc| == |xs|
    ensures |r.0| == |xs|
  {
    if |xs| == 0 then ([], carry)
    else
      var n := |xs| - 1;
      var p := MulAccWords(xs[..n], y, acc[..n], carry);
      var t := MulAccStep(xs[n], y, acc[n], p.1);
      (p.0 + [t.0], t.1)
  }

  /** The words and the carry out stand for xs * y + acc + carry. */
  lemma {:induction false} MulAccValue(xs: seq<Word>, y: Word, acc: seq<Word>, carry: Word)
    requires |acc| == |xs|
    ensures Val(MulAccWords(xs, y, acc, carry).0) + MulAccWords(xs, y, acc, carry).1 * BPow(|xs|)
         == Val(xs) * y + Val(acc) + carry
  {
    if |xs| > 0 {
      var n := |xs| - 1;
      var p := MulAccWords(xs[..n], y, acc[..n], carry);
      var t := MulAccStep(xs[n], y, acc[n], p.1);
      MulAccValue(xs[..n], y, acc[..n], carry);
      ValAppend(p.0, t.0);
      TopSplit(xs);
      TopSplit(acc);
      BPowStep(n);
      var r := MulAccWords(xs, y, acc, carry);
      assert r == (p.0 + [t.0], t.1);
      MulAccTurn(Val(p.0), p.1, Val(xs[..n]), Val(acc[..n]), carry, y, BPow(n), t.0, r.1, xs[n], acc[n],
                 Val(r.0), Val(xs), Val(acc), BPow(|xs|));
    }
  }

  lemma {:induction false} MulAccTurn(vp: int, cp: int, vx: int, va: int, c0: int, y: int, p: int, t0: int, t1: int,
                   xn: int, an: int, vr: int, vx1: int, va1: int, p1: int)
    requires vp + cp * p == vx * y + va + c0
    requires t0 + t1 * Base == xn * y + an + cp
    requires vr == vp + t0 * p && vx1 == vx + xn * p && va1 == va + an * p && p1 == Base * p
    ensures vr + t1 * p1 == vx1 * y + va1 + c0
  {
    calc {
      vr + t1 * p1;
      vp + (t0 + t1 * Base) * p;
      vp + (xn * y + an + cp) * p;
      vx * y + va + c0 + (xn * p) * y + an * p;
      vx1 * y + va1 + c0;
    }
  }

  /** Word i of the result is xs[i] - ys[i] less the borrow out of word
      i - 1; the last borrow is returned beside the words. */
  function SubWordsSpec(xs: seq<Word>, ys: seq<Word>, borrow: int): (r: (seq<Word>, int))
    requires |ys| == |xs| && 0 <= borrow <= 1
    ensures |r.0| == |xs| && 0 <= r.1 <= 1
  {
    if |xs| == 0 then ([], borrow)
    else
      var n := |xs| - 1;
      var p := SubWordsSpec(xs[..n], ys[..n], borrow);
      var t := SubStep(xs[n], ys[n], p.1);
      (p.0 + [t.0], t.1)
  }

  /** The words less the borrow out stand for xs - ys - borrow. */
  lemma {:induction false} SubWordsValue(xs: seq<Word>, ys: seq<Word>, borrow: int)
    requires |ys| == |xs| && 0 <= borrow <= 1
    ensures Val(SubWordsSpec(xs, ys, borrow).0) - SubWordsSpec(xs, ys, borrow).1 * BPow(|xs|)
         == Val(xs) - Val(ys) - borrow
  {
    if |xs| > 0 {
      var n := |xs| - 1;
      var p := SubWordsSpec(xs[..n], ys[..n], borrow);
      var t := SubStep(xs[n], ys[n], p.1);
      SubWordsValue(xs[..n], ys[..n], borrow);
      ValAppend(p.0, t.0);
      TopSplit(xs);
      TopSplit(ys);
      BPowStep(n);
      var r := SubWordsSpec(xs, ys, borrow);
      assert r == (p.0 + [t.0], t.1);
      SubTurn(Val(p.0), p.1, Val(xs[..n]), Val(ys[..n]), borrow, BPow(n), t.0, r.1, xs[n], ys[n],
              Val(r.0), Val(xs), Val(ys), BPow(|xs|));
    }
  }

  lemma {:induction false} SubTurn(vp: int, bp: int, vx: int, vy: int, b0: int, p: int, t0: int, t1: int,
                xn: int, yn: int, vr: int, vx1: int, vy1: int, p1: int)
    requires vp - bp * p == vx - vy - b0
    requires t0 - t1 * Base == xn - yn - bp
    requires vr == vp + t0 * p && vx1 == vx + xn * p && vy1 == vy + yn * p && p1 == Base * p
    ensures vr - t1 * p1 == vx1 - vy1 - b0
  {
    calc {
      vr - t1 * p1;
      vp + (t0 - t1 * Base) * p;
      vp + (xn - yn - bp) * p;
      vx - vy - b0 + xn * p - yn * p;
      vx1 - vy1 - b0;
    }
  }

  /** Subtract-a-multiple: word i of the result is bs[i] less the low half
      of ss[i] * q + carry and less the borrow; the high half is the next
      carry. The last borrow and carry are returned beside the words. */
  function SubMulWordsSpec(bs: seq<Word>, ss: seq<Word>, q: Word, borrow: int, carry: Word)
      : (r: (seq<Word>, int, Word))
    requires |ss| == |bs| && 0 <= borrow <= 1
    ensures |r.0| == |bs| && 0 <= r.1 <= 1
  {
    if |bs| == 0 then ([], borrow, carry)
    else
      var n := |bs| - 1;
      var p := SubMulWordsSpec(bs[..n], ss[..n], q, borrow, carry);
      var ys := MulAccStep(ss[n], q, 0, p.2);
      var t := SubStep(bs[n], ys.0, p.1);
      (p.0 + [t.0], t.1, ys.1)
  }

  /** v stands for vb - q * vs less d0 owed at the start, plus what is owed
      at weight p at the end. */
  ghost predicate SubMulRel(v: int, vb: int, q: int, vs: int, d0: int, owed: int, p: int)
  {
    v == vb - q * vs - d0 + owed * p
  }

  /** The words stand for bs - q * ss less what was owed at the start, plus
      what is still owed at the end (borrow and carry) at the top weight. */
  lemma {:induction false} SubMulWordsValue(bs: seq<Word>, ss: seq<Word>, q: Word, borrow: int, carry: Word)
    requires |ss| == |bs| && 0 <= borrow <= 1
    ensures SubMulRel(Val(SubMulWordsSpec(bs, ss, q, borrow, carry).0), Val(bs), q, Val(ss), borrow + carry,
                      SubMulWordsSpec(bs, ss, q, borrow, carry).1 + SubMulWordsSpec(bs, ss, q, borrow, carry).2,
                      BPow(|bs|))
  {
    if |bs| > 0 {
      var n := |bs| - 1;
      var p := SubMulWordsSpec(bs[..n], ss[..n], q, borrow, carry);
      var ys := MulAccStep(ss[n], q, 0, p.2);
      var t := SubStep(bs[n], ys.0, p.1);
      SubMulWordsValue(bs[..n], ss[..n], q, borrow, carry);
      ValAppend(p.0, t.0);
      TopSplit(bs);
      TopSplit(ss);
      BPowStep(n);
      var r := SubMulWordsSpec(bs, ss, q, borrow, carry);
      assert r == (p.0 + [t.0], t.1, ys.1);
      SubMulTurn(Val(p.0), p.1, p.2, Val(bs[..n]), Val(ss[..n]), q, borrow + carry, BPow(|bs[..n]|),
                 ys.0, r.2, t.0, r.1, bs[n], ss[n], Val(r.0), Val(bs), Val(ss), BPow(|bs|));
    } else {
      assert Val(bs) == 0 && Val(ss) == 0 && BPow(|bs|) == 1;
      assert SubMulRel(0, 0, q, 0, borrow + carry, borrow + carry, 1);
    }
  }

  lemma {:induction false} SubMulTurn(vp: int, bp: int, cp: int, vb: int, vs: int, q: int, d0: int, p: int,
                   y0: int, y1: int, t0: int, t1: int, bn: int, sn: int,
                   vr: int, vb1: int, vs1: int, p1: int)
    requires SubMulRel(vp, vb, q, vs, d0, bp + cp, p)
    requires y0 + y1 * Base == sn * q + cp
    requires t0 - t1 * Base == bn - y0 - bp
    requires vr == vp + t0 * p && vb1 == vb + bn * p && vs1 == vs + sn * p && p1 == Base * p
    ensures SubMulRel(vr, vb1, q, vs1, d0, t1 + y1, p1)
  {
    calc {
      vr;
      vp + t0 * p;
      vb - q * vs - d0 + (bp + cp) * p + (bn - sn * q - cp - bp + (t1 + y1) * Base) * p;
      vb + bn * p - q * vs - (sn * q) * p - d0 + (t1 + y1) * (Base * p);
      vb1 - q * vs1 - d0 + (t1 + y1) * p1;
    }
  }

  /** The left shift by 0 < s < 32 bits within words: word i of the result
      is xs[i] shifted left by s, with the bits z shifted out of word i - 1
      filled in; the bits shifted out of the top are returned. */
  function ShiftWordsSpec(xs: seq<Word>, s: nat, z: Word): (r: (seq<Word>, Word))
    requires 0 < s < 32 && z < Pow2(s)
    ensures |r.0| == |xs| && r.1 < Pow2(s)
  {
    if |xs| == 0 then ([], z)
    else
      var n := |xs| - 1;
      var p := ShiftWordsSpec(xs[..n], s, z);
      var t := ShiftPair(xs[n], s, p.1);
      (p.0 + [t.0], t.1)
  }

  /** The words and the bits shifted out stand for xs * 2^s + z. */
  lemma {:induction false} ShiftWordsValue(xs: seq<Word>, s: nat, z: Word)
    requires 0 < s < 32 && z < Pow2(s)
    ensures Val(ShiftWordsSpec(xs, s, z).0) + ShiftWordsSpec(xs, s, z).1 * BPow(|xs|)
         == Val(xs) * Pow2(s) + z
  {
    if |xs| > 0 {
      var n := |xs| - 1;
      var p := ShiftWordsSpec(xs[..n], s, z);
      var t := ShiftPair(xs[n], s, p.1);
      ShiftWordsValue(xs[..n], s, z);
      ValAppend(p.0, t.0);
      TopSplit(xs);
      BPowStep(n);
      var r := ShiftWordsSpec(xs, s, z);
      assert r == (p.0 + [t.0], t.1);
      MulAccTurn(Val(p.0), p.1, Val(xs[..n]), 0, z, Pow2(s), BPow(n), t.0, r.1, xs[n], 0,
                 Val(r.0), Val(xs), 0, BPow(|xs|));
    }
  }
}
