/*
 * The word loops inside the big-integer kernels of `dtoa.c`, each over an
 * array of 32-bit words and each specified by what it does to the value of
 * the words it touches: multiply-and-add (`multadd`), one row of the
 * schoolbook product (`mult`), the shifted copy (`lshift`), subtraction
 * (`diff`) and subtract-a-multiple (`quorem`).
 */
module DtoaLoops {
  import opened DtoaWords
  import opened DtoaWordOps

  /** The loop of `multadd`: word by word, x[i] * m plus the carry, which
      starts as a; the carry out of the top word is returned. A
      `do`-`while`, so it needs a word. */
  method MulAddWords(x: array<Word>, wds: nat, m: Word, a: Word) returns (carry: Word)
    requires 1 <= wds <= x.Length
    modifies x
    ensures (x[..wds], carry) == MulAccWords(old(x[..wds]), m, Zeros(wds), a)
    ensures forall k :: wds <= k < x.Length ==> x[k] == old(x[k])
  {
    ghost var x0, xs := x[..], x[..wds];
    ghost var out: seq<Word> := [];
    var i := 0;
    carry := a;
    while i < wds
      invariant 0 <= i <= wds && |out| == i
      invariant (out, carry) == MulAccWords(xs[..i], m, Zeros(i), a)
      invariant forall k :: 0 <= k < i ==> x[k] == out[k]
      invariant forall k :: i <= k < x.Length ==> x[k] == x0[k]
    {
      var r := MulAccStep(x[i], m, 0, carry);
      x[i] := r.0;
      assert xs[..i + 1][..i] == xs[..i] && Zeros(i + 1)[..i] == Zeros(i);
      assert xs[..i + 1][i] == xs[i] && Zeros(i + 1)[i] == 0;
      assert MulAccWords(xs[..i + 1], m, Zeros(i + 1), a) == (out + [r.0], r.1);
      out := out + [r.0];
      carry := r.1;
      i := i + 1;
    }
    assert xs[..wds] == xs && x[..wds] == out;
  }

  /** `*x++ = *y++` n times, from src into dst at offset off. */
  method CopyWords(dst: array<Word>, off: nat, src: array<Word>, n: nat)
    requires dst != src && off + n <= dst.Length && n <= src.Length
    modifies dst
    ensures dst[off..off + n] == src[..n]
    ensures dst[..off] == old(dst[..off]) && dst[off + n..] == old(dst[off + n..])
  {
    var i := 0;
    while i < n
      invariant 0 <= i <= n
      invariant dst[off..off + i] == src[..i]
      invariant dst[..off] == old(dst[..off]) && dst[off + i..] == old(dst[off + i..])
    {
      dst[off + i] := src[i];
      i := i + 1;
    }
  }

  /** `for (i = 0; i < n; i++) *x++ = 0`. */
  method ZeroWords(x: array<Word>, n: nat)
    requires n <= x.Length
    modifies x
    ensures forall j :: 0 <= j < n ==> x[j] == 0
    ensures x[n..] == old(x[n..])
  {
    var i := 0;
    while i < n
      invariant 0 <= i <= n
      invariant forall j :: 0 <= j < i ==> x[j] == 0
      invariant x[i..] == old(x[i..])
    {
      x[i] := 0;
      i := i + 1;
    }
  }

  /** The inner loop of one row of `mult`: the words xa[..wa] times the
      word y are added into c[j..j + wa], and the carry out of the top is
      returned. A `do`-`while`, so xa needs a word. */
  method MulRowLoop(c: array<Word>, j: nat, xa: array<Word>, wa: nat, y: Word) returns (carry: Word)
    requires c != xa && 1 <= wa <= xa.Length && j + wa <= c.Length
    modifies c
    ensures (c[j..j + wa], carry) == MulAccWords(xa[..wa], y, old(c[j..j + wa]), 0)
    ensures c[..j] == old(c[..j]) && c[j + wa..] == old(c[j + wa..])
  {
    ghost var c0, cs, xs := c[..], c[j..j + wa], xa[..wa];
    ghost var row: seq<Word> := [];
    var i := 0;
    carry := 0;
    while i < wa
      invariant 0 <= i <= wa && |row| == i
      invariant (row, carry) == MulAccWords(xs[..i], y, cs[..i], 0)
      invariant forall k :: 0 <= k < i ==> c[j + k] == row[k]
      invariant forall k :: 0 <= k < j ==> c[k] == c0[k]
      invariant forall k :: j + i <= k < c.Length ==> c[k] == c0[k]
    {
      var r := MulAccStep(xa[i], y, c[j + i], carry);
      c[j + i] := r.0;
      assert xs[..i + 1][..i] == xs[..i] && cs[..i + 1][..i] == cs[..i];
      assert xs[..i + 1][i] == xa[i] && cs[..i + 1][i] == c0[j + i];
      assert MulAccWords(xs[..i + 1], y, cs[..i + 1], 0) == (row + [r.0], r.1);
      row := row + [r.0];
      carry := r.1;
      i := i + 1;
    }
    assert cs[..wa] == cs && xs[..wa] == xs && c[j..j + wa] == row;
    assert c[..j] == c0[..j] && c[j + wa..] == c0[j + wa..];
  }

  /** One row of `mult`: the loop, then `*xc = carry` just above it. The
      row adds y times xa[..wa] at weight Base^j to the product so far. */
  method MulRow(c: array<Word>, j: nat, xa: array<Word>, wa: nat, y: Word)
    requires c != xa && 1 <= wa <= xa.Length && j + wa < c.Length
    modifies c
    ensures Val(c[..j + wa + 1]) == Val(old(c[..j + wa])) + BPow(j) * (y * Val(xa[..wa]))
    ensures c[j + wa + 1..] == old(c[j + wa + 1..])
  {
    ghost var lo, cs, above := c[..j], c[j..j + wa], c[j + wa + 1..];
    assert c[..j + wa] == lo + cs;
    var carry := MulRowLoop(c, j, xa, wa, y);
    ghost var row := c[j..j + wa];
    assert c[j + wa..] == [c[j + wa]] + above;
    c[j + wa] := carry;
    assert c[..j + wa + 1] == lo + (row + [carry]);
    assert c[j + wa + 1..] == above;
    MulAccValue(xa[..wa], y, cs, 0);
    PlaceRow(lo, cs, row, carry, y, Val(xa[..wa]));
  }

  /** A row that adds y * a to the words cs, placed above lo with its carry
      on top, adds y * a at the weight of |lo|. */
  lemma {:induction false} PlaceRow(lo: seq<Word>, cs: seq<Word>, row: seq<Word>, carry: Word, y: Word, a: int)
    requires |row| == |cs|
    requires Val(row) + carry * BPow(|cs|) == a * y + Val(cs) + 0
    ensures Val(lo + (row + [carry])) == Val(lo + cs) + BPow(|lo|) * (y * a)
  {
    ValAppend(row, carry);
    ValConcat(lo, row + [carry]);
    ValConcat(lo, cs);
    Distribute(BPow(|lo|), Val(row + [carry]), Val(cs), y * a);
  }

  lemma {:induction false} Distribute(p: int, a: int, b: int, d: int)
    requires a == b + d
    ensures p * a == p * b + p * d
  {
  }

  /** The product loops of `mult`: c[..wa + wb] is cleared, then for each
      non-zero word y = xb[j] a row adds y times xa[..wa] at weight Base^j.
      The caller has put the longer factor first. */
  method MulWords(c: array<Word>, xa: array<Word>, wa: nat, xb: array<Word>, wb: nat)
    requires c != xa && c != xb && wb <= wa <= xa.Length && wb <= xb.Length
    requires wa + wb <= c.Length
    modifies c
    ensures Val(c[..wa + wb]) == Val(xa[..wa]) * Val(xb[..wb])
  {
    ZeroWords(c, wa + wb);
    ProductStart(c[..wa], Val(xa[..wa]), xb[..0]);
    var j := 0;
    while j < wb
      invariant 0 <= j <= wb
      invariant Val(c[..j + wa]) == Val(xa[..wa]) * Val(xb[..j])
      invariant forall k :: j + wa <= k < wa + wb ==> c[k] == 0
    {
      MulStep(c, xa, wa, xb, j);
      j := j + 1;
    }
  }

  /** No rows yet: zero words, and no words of the multiplier. */
  lemma {:induction false} ProductStart(cs: seq<Word>, a: int, bs: seq<Word>)
    requires forall k :: 0 <= k < |cs| ==> cs[k] == 0
    requires |bs| == 0
    ensures Val(cs) == a * Val(bs)
  {
    ValZero(cs);
  }

  /** One turn of the outer loop of `mult`: the row for xb[j], skipped when
      that word is zero, extends the product to the first j + 1 words of
      the multiplier. */
  method MulStep(c: array<Word>, xa: array<Word>, wa: nat, xb: array<Word>, j: nat)
    requires c != xa && c != xb && j < xb.Length && j < wa <= xa.Length && j + wa < c.Length
    requires Val(c[..j + wa]) == Val(xa[..wa]) * Val(xb[..j])
    requires c[j + wa] == 0
    modifies c
    ensures Val(c[..j + 1 + wa]) == Val(xa[..wa]) * Val(xb[..j + 1])
    ensures c[j + wa + 1..] == old(c[j + wa + 1..])
  {
    var y := xb[j];
    ghost var before := c[..j + wa];
    if y != 0 {
      MulRow(c, j, xa, wa, y);
    } else {
      assert c[..j + wa + 1] == before + [0];
      ZeroRow(before, j, y, Val(xa[..wa]));
    }
    assert xb[..j + 1] == xb[..j] + [y];
    ValAppend(xb[..j], y);
    RowsTurn(Val(c[..j + wa + 1]), Val(before), Val(xa[..wa]), Val(xb[..j]), Val(xb[..j + 1]), y, BPow(j));
  }

  /** A zero word on top adds nothing, as a row for a zero word would. */
  lemma {:induction false} ZeroRow(before: seq<Word>, j: nat, y: Word, a: int)
    requires y == 0
    ensures Val(before + [0]) == Val(before) + BPow(j) * (y * a)
  {
    ValAppend(before, 0);
  }

  /** One row more of the product: A times the first j + 1 words of B. */
  lemma {:induction false} RowsTurn(vc1: int, vc: int, a: int, vb: int, vb1: int, y: int, p: int)
    requires vc == a * vb && vc1 == vc + p * (y * a) && vb1 == vb + y * p
    ensures vc1 == a * vb1
  {
    calc {
      vc1;
      a * vb + p * (y * a);
      a * (vb + y * p);
    }
  }

  /** The shifting loop of `lshift` for a shift 0 < s < 32 within a word:
      `*x1++ = *x << s | z; z = *x++ >> (32 - s)` (ShiftPair), writing
      x1[n..n + wds]; the bits shifted out of the top word are returned. A
      `do`-`while`, so x needs a word. */
  method ShiftLoop(x1: array<Word>, n: nat, x: array<Word>, wds: nat, s: nat) returns (z: Word)
    requires x1 != x && 1 <= wds <= x.Length && n + wds <= x1.Length && 0 < s < 32
    modifies x1
    ensures (x1[n..n + wds], z) == ShiftWordsSpec(x[..wds], s, 0)
    ensures x1[..n] == old(x1[..n]) && x1[n + wds..] == old(x1[n + wds..])
  {
    ghost var x0, xs := x1[..], x[..wds];
    ghost var out: seq<Word> := [];
    var i := 0;
    z := 0;
    while i < wds
      invariant 0 <= i <= wds && |out| == i
      invariant (out, z) == ShiftWordsSpec(xs[..i], s, 0)
      invariant forall k :: 0 <= k < i ==> x1[n + k] == out[k]
      invariant forall k :: 0 <= k < n ==> x1[k] == x0[k]
      invariant forall k :: n + i <= k < x1.Length ==> x1[k] == x0[k]
    {
      var r := ShiftPair(x[i], s, z);
      x1[n + i] := r.0;
      assert xs[..i + 1][..i] == xs[..i] && xs[..i + 1][i] == x[i];
      assert ShiftWordsSpec(xs[..i + 1], s, 0) == (out + [r.0], r.1);
      out := out + [r.0];
      z := r.1;
      i := i + 1;
    }
    assert xs[..wds] == xs && x1[n..n + wds] == out;
    assert x1[..n] == x0[..n] && x1[n + wds..] == x0[n + wds..];
  }

  /** The word work of `lshift(b, k)`: n = k / 32 zero words, then the words
      of b shifted by k % 32 (or copied when that is 0), then the bits
      shifted out of the top as one more word if they are not zero. The
      length of the result is returned. */
  method ShiftedWords(x1: array<Word>, x: array<Word>, wds: nat, k: nat) returns (wds1: nat)
    requires x1 != x && 1 <= wds <= x.Length && k / 32 + wds + 1 <= x1.Length
    modifies x1
    ensures wds1 == k / 32 + wds || wds1 == k / 32 + wds + 1
    ensures Val(x1[..wds1]) == Val(x[..wds]) * Pow2(k)
    ensures wds1 == k / 32 + wds + 1 ==> x1[wds1 - 1] != 0
  {
    var n := k / 32;
    ZeroWords(x1, n);
    ghost var lo := x1[..n];
    var s := k % 32;
    if s != 0 {
      var z := ShiftLoop(x1, n, x, wds, s);
      ghost var out := x1[n..n + wds];
      x1[n + wds] := z;
      assert x1[..n + wds + 1] == lo + (out + [z]);
      assert x1[..n + wds] == lo + out;
      ShiftTop(lo, x[..wds], out, z, k);
      wds1 := if z != 0 then n + wds + 1 else n + wds;
    } else {
      CopyWords(x1, n, x, wds);
      wds1 := n + wds;
      assert x1[..n + wds] == lo + x[..wds];
      assert Pow2(0) == 1;
      ShiftPlace(lo, x[..wds], Val(x[..wds]), 0, k);
    }
  }

  /** The shifted words with the bits shifted out on top, above k / 32 zero
      words, stand for xs * 2^k; when no bits were shifted out, so do the
      words without that top word. */
  lemma {:induction false} ShiftTop(lo: seq<Word>, xs: seq<Word>, out: seq<Word>, z: Word, k: nat)
    requires forall i :: 0 <= i < |lo| ==> lo[i] == 0
    requires |lo| == k / 32 && 0 < k % 32
    requires (out, z) == ShiftWordsSpec(xs, k % 32, 0)
    ensures Val(lo + (out + [z])) == Val(xs) * Pow2(k)
    ensures z == 0 ==> Val(lo + out) == Val(xs) * Pow2(k)
  {
    var s := k % 32;
    ShiftedValue(xs, out, z, s);
    ShiftPlace(lo, out + [z], Val(xs), s, k);
    if z == 0 {
      var t := lo + (out + [z]);
      assert t[..|t| - 1] == lo + out;
      ValTopZero(t);
    }
  }

  /** The shifted words with the bits shifted out on top stand for xs * 2^s. */
  lemma {:induction false} ShiftedValue(xs: seq<Word>, out: seq<Word>, z: Word, s: nat)
    requires 0 < s < 32 && (out, z) == ShiftWordsSpec(xs, s, 0)
    ensures Val(out + [z]) == Val(xs) * Pow2(s)
  {
    ShiftWordsValue(xs, s, 0);
    ValAppend(out, z);
  }

  /** Zero words below a block scale it by 2^32 per word. */
  lemma {:induction false} ShiftPlace(lo: seq<Word>, mid: seq<Word>, v: int, s: nat, k: nat)
    requires forall i :: 0 <= i < |lo| ==> lo[i] == 0
    requires Val(mid) == v * Pow2(s) && k == 32 * |lo| + s
    ensures Val(lo + mid) == v * Pow2(k)
  {
    var n := |lo|;
    ValConcat(lo, mid);
    ValZero(lo);
    BPowIsPow2(n);
    Pow2Add(32 * n, s);
    PlaceArith(Val(lo + mid), Val(lo), BPow(n), Val(mid), v, Pow2(s), Pow2(k));
  }

  lemma {:induction false} PlaceArith(vt: int, vlo: int, pn: int, vm: int, v: int, ps: int, pk: int)
    requires vt == vlo + pn * vm && vlo == 0 && vm == v * ps && pk == pn * ps
    ensures vt == v * pk
  {
  }

  /** A normalized non-zero number shifted left by k bits, written in
      k / 32 more words (the top word of bits shifted out left off),
      is still normalized. */
  lemma {:induction false} ShiftedStaysNormal(t: seq<Word>, v: seq<Word>, k: nat)
    requires Normalized(v) && Val(v) > 0 && |t| == k / 32 + |v|
    requires Val(t) == Val(v) * Pow2(k)
    ensures Normalized(t)
  {
    var n := k / 32;
    assert Val(v) >= BPow(|v| - 1) by {
      if |v| > 1 {
        NormalizedBound(v);
      }
    }
    assert Pow2(k) >= BPow(n) by {
      Pow2Monotonic(32 * n, k);
      BPowIsPow2(n);
    }
    MulBoth(BPow(|v| - 1), Val(v), BPow(n), Pow2(k));
    BPowAdd(|v| - 1, n);
    NormalizedFromBound(t);
  }

  /** The first loop of `diff`: c[..wb] := xa[..wb] - xb[..wb] word by word
      with a borrow, which is returned. A `do`-`while`, so xb needs a word. */
  method SubBothWords(c: array<Word>, xa: array<Word>, xb: array<Word>, wb: nat)
      returns (borrow: int)
    requires c != xa && c != xb
    requires 1 <= wb <= xa.Length && wb <= xb.Length && wb <= c.Length
    modifies c
    ensures (c[..wb], borrow) == SubWordsSpec(xa[..wb], xb[..wb], 0)
    ensures c[wb..] == old(c[wb..])
  {
    ghost var c0, sa, sb := c[..], xa[..wb], xb[..wb];
    ghost var out: seq<Word> := [];
    var i := 0;
    borrow := 0;
    while i < wb
      invariant 0 <= i <= wb && |out| == i
      invariant (out, borrow) == SubWordsSpec(sa[..i], sb[..i], 0)
      invariant forall k :: 0 <= k < i ==> c[k] == out[k]
      invariant forall k :: i <= k < c.Length ==> c[k] == c0[k]
    {
      var r := SubStep(xa[i], xb[i], borrow);
      c[i] := r.0;
      assert sa[..i + 1][..i] == sa[..i] && sb[..i + 1][..i] == sb[..i];
      assert sa[..i + 1][i] == xa[i] && sb[..i + 1][i] == xb[i];
      assert SubWordsSpec(sa[..i + 1], sb[..i + 1], 0) == (out + [r.0], r.1);
      out := out + [r.0];
      borrow := r.1;
      i := i + 1;
    }
    assert sa[..wb] == sa && sb[..wb] == sb && c[..wb] == out;
    assert c[wb..] == c0[wb..];
  }

  /** The second loop of `diff`: the words xa[lo..hi] less the pending
      borrow go to c[lo..hi]; that is a subtraction of zero words that
      starts from the borrow. */
  method SubRestWords(c: array<Word>, xa: array<Word>, lo: nat, hi: nat, borrow0: int)
      returns (borrow: int)
    requires c != xa && lo <= hi <= xa.Length && hi <= c.Length && 0 <= borrow0 <= 1
    modifies c
    ensures (c[lo..hi], borrow) == SubWordsSpec(xa[lo..hi], Zeros(hi - lo), borrow0)
    ensures c[..lo] == old(c[..lo]) && c[hi..] == old(c[hi..])
  {
    ghost var c0, sa, zs := c[..], xa[lo..hi], Zeros(hi - lo);
    ghost var out: seq<Word> := [];
    var n := hi - lo;
    var i := 0;
    borrow := borrow0;
    while i < n
      invariant 0 <= i <= n && |out| == i
      invariant (out, borrow) == SubWordsSpec(sa[..i], zs[..i], borrow0)
      invariant forall k :: 0 <= k < i ==> c[lo + k] == out[k]
      invariant forall k :: 0 <= k < lo ==> c[k] == c0[k]
      invariant forall k :: lo + i <= k < c.Length ==> c[k] == c0[k]
    {
      var r := SubStep(xa[lo + i], 0, borrow);
      c[lo + i] := r.0;
      assert sa[..i + 1][..i] == sa[..i] && zs[..i + 1][..i] == zs[..i];
      assert sa[..i + 1][i] == xa[lo + i] && zs[..i + 1][i] == 0;
      assert SubWordsSpec(sa[..i + 1], zs[..i + 1], borrow0) == (out + [r.0], r.1);
      out := out + [r.0];
      borrow := r.1;
      i := i + 1;
    }
    assert sa[..n] == sa && zs[..n] == zs && c[lo..hi] == out;
    assert c[..lo] == c0[..lo] && c[hi..] == c0[hi..];
  }

  /** The two loops of `diff` together: c[..wa] := xa[..wa] - xb[..wb],
      with the borrow out of the top returned. */
  method SubWords(c: array<Word>, xa: array<Word>, wa: nat, xb: array<Word>, wb: nat)
      returns (borrow: int)
    requires c != xa && c != xb
    requires 1 <= wb <= wa && wa <= xa.Length && wb <= xb.Length && wa <= c.Length
    modifies c
    ensures 0 <= borrow <= 1
    ensures Val(c[..wa]) - borrow * BPow(wa) == Val(xa[..wa]) - Val(xb[..wb])
    ensures c[wa..] == old(c[wa..])
  {
    ghost var above := c[wa..];
    var b1 := SubBothWords(c, xa, xb, wb);
    ghost var d1 := c[..wb];
    assert c[wa..] == above;
    borrow := SubRestWords(c, xa, wb, wa, b1);
    assert c[..wa] == d1 + c[wb..wa] && xa[..wa] == xa[..wb] + xa[wb..wa];
    SubJoin(d1, c[wb..wa], xa[..wb], xa[wb..wa], xb[..wb], b1, borrow);
  }

  /** A subtraction of both operands' words, then of zero words starting
      from its borrow, is the subtraction of the whole. */
  lemma {:induction false} SubJoin(d1: seq<Word>, d2: seq<Word>, a1: seq<Word>, a2: seq<Word>, b: seq<Word>, b1: int, b2: int)
    requires |b| == |a1| && 0 <= b1 <= 1
    requires (d1, b1) == SubWordsSpec(a1, b, 0)
    requires (d2, b2) == SubWordsSpec(a2, Zeros(|a2|), b1)
    ensures 0 <= b2 <= 1
    ensures Val(d1 + d2) - b2 * BPow(|a1| + |a2|) == Val(a1 + a2) - Val(b)
  {
    SubWordsValue(a1, b, 0);
    SubWordsValue(a2, Zeros(|a2|), b1);
    ZerosWorthNothing(|a2|);
    JoinValues(d1, d2, a1, a2, b, b1, b2);
  }

  lemma {:induction false} JoinValues(d1: seq<Word>, d2: seq<Word>, a1: seq<Word>, a2: seq<Word>, b: seq<Word>, b1: int, b2: int)
    requires |d1| == |a1|
    requires Val(d1) - b1 * BPow(|a1|) == Val(a1) - Val(b) - 0
    requires Val(d2) - b2 * BPow(|a2|) == Val(a2) - 0 - b1
    ensures Val(d1 + d2) - b2 * BPow(|a1| + |a2|) == Val(a1 + a2) - Val(b)
  {
    ValConcat(d1, d2);
    ValConcat(a1, a2);
    BPowAdd(|a1|, |a2|);
    JoinArith(Val(d1), Val(d2), b1, b2, Val(a1), Val(a2), Val(b), BPow(|a1|), BPow(|d1|), BPow(|a2|),
              Val(d1 + d2), Val(a1 + a2), BPow(|a1| + |a2|));
  }

  lemma {:induction false} JoinArith(v1: int, v2: int, b1: int, b2: int, x1: int, x2: int, y: int, p1: int, p1': int, p2: int,
                  v: int, x: int, p: int)
    requires v1 - b1 * p1 == x1 - y - 0
    requires v2 - b2 * p2 == x2 - 0 - b1
    requires v == v1 + p1' * v2
    requires x == x1 + p1 * x2
    requires p == p1 * p2
    requires p1' == p1
    ensures v - b2 * p == x - y
  {
    calc {
      v - b2 * p;
      v1 + p1 * (v2 - b2 * p2);
      v1 + p1 * (x2 - b1);
      v1 - b1 * p1 + p1 * x2;
    }
  }

  /** The subtracting loops of `quorem`: bx[..len] minus q times sx[..len],
      with the product's carry and the difference's borrow carried apart.
      What is still owed at the end is returned as the two of them. The
      second loop of `quorem`, which subtracts S once (`ys = *sx++ +
      carry`), is this loop with q = 1. */
  method SubMulWords(bx: array<Word>, sx: array<Word>, len: nat, q: Word)
      returns (borrow: int, carry: Word)
    requires bx != sx && 1 <= len <= bx.Length && len <= sx.Length
    modifies bx
    ensures (bx[..len], borrow, carry) == SubMulWordsSpec(old(bx[..len]), sx[..len], q, 0, 0)
    ensures forall k :: len <= k < bx.Length ==> bx[k] == old(bx[k])
  {
    ghost var b0, bs, ss := bx[..], bx[..len], sx[..len];
    ghost var out: seq<Word> := [];
    var i := 0;
    borrow, carry := 0, 0;
    while i < len
      invariant 0 <= i <= len && |out| == i
      invariant (out, borrow, carry) == SubMulWordsSpec(bs[..i], ss[..i], q, 0, 0)
      invariant forall k :: 0 <= k < i ==> bx[k] == out[k]
      invariant forall k :: i <= k < bx.Length ==> bx[k] == b0[k]
    {
      var ys := MulAccStep(sx[i], q, 0, carry);
      var r := SubStep(bx[i], ys.0, borrow);
      bx[i] := r.0;
      assert bs[..i + 1][..i] == bs[..i] && ss[..i + 1][..i] == ss[..i];
      assert bs[..i + 1][i] == b0[i] && ss[..i + 1][i] == sx[i];
      assert SubMulWordsSpec(bs[..i + 1], ss[..i + 1], q, 0, 0) == (out + [r.0], r.1, ys.1);
      out := out + [r.0];
      borrow, carry := r.1, ys.1;
      i := i + 1;
    }
    assert bs[..len] == bs && ss[..len] == ss && bx[..len] == out;
  }

  /** The scan of `cmp` over two runs of n words: from the top down to the
      first word where they differ, which decides. Runs of one length
      compare as their values do. */
  method CompareWords(xa: array<Word>, xb: array<Word>, n: nat) returns (r: int)
    requires 1 <= n <= xa.Length && n <= xb.Length
    ensures r == -1 || r == 0 || r == 1
    ensures r < 0 <==> Val(xa[..n]) < Val(xb[..n])
    ensures r > 0 <==> Val(xa[..n]) > Val(xb[..n])
    ensures r == 0 <==> xa[..n] == xb[..n]
  {
    var i := n;
    while i > 0
      invariant 0 <= i <= n && xa[i..n] == xb[i..n]
    {
      i := i - 1;
      if xa[i] != xb[i] {
        assert xa[..n][i + 1..] == xa[i + 1..n] && xb[..n][i + 1..] == xb[i + 1..n];
        if xa[i] < xb[i] {
          LowerAtIsSmaller(xa[..n], xb[..n], i);
          r := -1;
        } else {
          LowerAtIsSmaller(xb[..n], xa[..n], i);
          r := 1;
        }
        return;
      }
      assert xa[i..n] == [xa[i]] + xa[i + 1..n];
      assert xb[i..n] == [xb[i]] + xb[i + 1..n];
    }
    assert xa[..n] == xa[0..n] && xb[..n] == xb[0..n];
    r := 0;
  }

  /** The trim at the end of `mult`: zero top words are dropped, down to
      none at all. */
  method TrimWords(x: array<Word>, wc: nat) returns (w: nat)
    requires wc <= x.Length
    ensures w <= wc && Val(x[..w]) == Val(x[..wc])
    ensures w == 0 || x[w - 1] != 0
    ensures w == 0 <==> Val(x[..wc]) == 0
    ensures w > 0 ==> Normalized(x[..w])
  {
    w := wc;
    while w > 0 && x[w - 1] == 0
      invariant w <= wc && Val(x[..w]) == Val(x[..wc])
    {
      ValTopZero(x[..w]);
      assert x[..w][..w - 1] == x[..w - 1];
      w := w - 1;
    }
    if w > 0 {
      ValAtLeastTop(x[..w]);
      MulMonotonic(1, x[w - 1], BPow(w - 1));
    } else {
      assert x[..0] == [];
    }
  }

  /** The trim at the end of `diff`, `while (!*--xc) wa--`: no bound on the
      scan, which stops because some word is not zero. */
  method TrimNonzero(x: array<Word>, wa: nat) returns (w: nat)
    requires wa <= x.Length && Val(x[..wa]) > 0
    ensures 1 <= w <= wa && x[w - 1] != 0 && Val(x[..w]) == Val(x[..wa])
  {
    w := wa;
    assert x[..0] == [];
    while x[w - 1] == 0
      invariant 1 <= w <= wa && Val(x[..w]) == Val(x[..wa])
      decreases w
    {
      ValTopZero(x[..w]);
      assert x[..w][..w - 1] == x[..w - 1];
      w := w - 1;
      assert x[..0] == [];
    }
  }

  /** The trim in `quorem` once the word at index top has become zero:
      `while (--bxe > bx && !*bxe) --n`, with n counting the words below
      that top. It keeps the bottom word unless top is itself the bottom
      word, in which case no word is left. */
  method TrimBelowTop(x: array<Word>, top: nat) returns (n: nat)
    requires top < x.Length && x[top] == 0
    ensures n <= top && Val(x[..n]) == Val(x[..top + 1])
    ensures top == 0 ==> n == 0
    ensures top > 0 ==> Normalized(x[..n])
  {
    ValTopZero(x[..top + 1]);
    assert x[..top + 1][..top] == x[..top];
    n := top;
    while n > 1 && x[n - 1] == 0
      invariant n <= top && (top > 0 ==> n >= 1)
      invariant Val(x[..n]) == Val(x[..top + 1])
    {
      ValTopZero(x[..n]);
      assert x[..n][..n - 1] == x[..n - 1];
      n := n - 1;
    }
  }
}
