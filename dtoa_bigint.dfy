/*
 * The big-integer operations of `dtoa.c` on blocks from the allocator:
 * `cmp`, `multadd`, `i2b`, `mult`, `lshift`, `diff` and `quorem`. Each is
 * proved to compute, on the values of its blocks, what its name promises,
 * to keep blocks normalized, and to write only to blocks it was handed or
 * has just taken from the allocator.
 */
module DtoaBigint {
  import opened DtoaWords
  import opened DtoaWordOps
  import opened DtoaAlloc
  import opened DtoaLoops

  // ---------------------------------------------------------------------------
  // cmp
  // ---------------------------------------------------------------------------

  /** `cmp(a, b)`: the difference of the word counts when they differ,
      else -1, 0 or 1 as the words compare from the top down. Blocks of
      one word count compare as their values; normalized blocks compare as
      their values whatever their word counts. */
  method Cmp(a: Bigint, b: Bigint) returns (r: int)
    requires a.Valid() && b.Valid()
    requires a.wds == b.wds ==> a.wds >= 1
    ensures a.wds != b.wds ==> r == a.wds - b.wds
    ensures a.wds == b.wds ==> r == -1 || r == 0 || r == 1
    ensures a.wds == b.wds ==>
      (r < 0 <==> a.Value() < b.Value()) && (r == 0 <==> a.Value() == b.Value())
    ensures a.Normal() && b.Normal() ==>
      && (r < 0 <==> a.Value() < b.Value())
      && (r == 0 <==> a.Value() == b.Value())
      && (r > 0 <==> a.Value() > b.Value())
  {
    var i := a.wds - b.wds;
    if i != 0 {
      CountDecides(a.x[..a.wds], b.x[..b.wds]);
      return i;
    }
    r := CompareWords(a.x, b.x, a.wds);
  }

  /** Of two normalized sequences of different lengths, the longer is worth
      more. */
  lemma {:induction false} CountDecides(a: seq<Word>, b: seq<Word>)
    requires |a| != |b|
    ensures Normalized(a) && Normalized(b) ==> (Val(a) < Val(b) <==> |a| < |b|) && Val(a) != Val(b)
  {
    if Normalized(a) && Normalized(b) {
      if |a| < |b| {
        LongerIsLarger(a, b);
      } else {
        LongerIsLarger(b, a);
      }
    }
  }

  // ---------------------------------------------------------------------------
  // multadd and i2b
  // ---------------------------------------------------------------------------

  /** `multadd(b, m, a)`: b times m plus a, in place. A carry out of the top
      word becomes a new top word; when b has no room for it, b is copied
      into a block of the next class and freed. */
  method Multadd(alloc: Allocator, b: Bigint, m: Word, a: Word) returns (r: Bigint)
    requires alloc.Valid() && alloc.Live(b) && b.Valid() && b.wds >= 1
    requires b.wds < 0x4000_0000
    modifies alloc, alloc.free, alloc.FreeArrays(), b, b.x
    ensures alloc.Valid() && alloc.Live(r) && r.Valid() && r.sign == old(b.sign)
    ensures r.Value() == old(b.Value()) * m + a
    ensures old(b.Normal()) && m >= 1 ==> r.Normal()
    ensures r != b ==>
      && old(b.wds) == b.maxwds && r.k == b.k + 1 && !alloc.Live(b)
      && (fresh(r) || r in old(alloc.free))
  {
    var carry := ScaleWords(b, m, a);
    r := b;
    if carry != 0 {
      if b.wds >= b.maxwds {
        r := Grow(alloc, b);
      }
      PutCarry(r, carry);
    }
  }

  /** The word loop of `multadd` on b's own words: b * m + a, less the
      carry out of the top word, which is returned. */
  method ScaleWords(b: Bigint, m: Word, a: Word) returns (carry: Word)
    requires b.Valid() && b.wds >= 1
    modifies b.x
    ensures b.Valid()
    ensures carry == 0 ==>
      b.Value() == old(b.Value()) * m + a && (old(b.Normal()) && m >= 1 ==> b.Normal())
    ensures carry != 0 ==>
      Val(b.x[..b.wds] + [carry]) == old(b.Value()) * m + a && Normalized(b.x[..b.wds] + [carry])
  {
    ghost var xs := b.x[..b.wds];
    carry := MulAddWords(b.x, b.wds, m, a);
    MultaddValue(xs, b.x[..b.wds], carry, m, a);
  }

  /** The carry stored as a new top word of r, which has room for it. */
  method PutCarry(r: Bigint, carry: Word)
    requires r.Valid() && r.wds < r.maxwds
    modifies r, r.x
    ensures r.Valid() && r.sign == old(r.sign)
    ensures r.x[..r.wds] == old(r.x[..r.wds]) + [carry]
  {
    r.x[r.wds] := carry;
    r.wds := r.wds + 1;
    assert r.x[..r.wds] == old(r.x[..r.wds]) + [carry];
  }

  /** The words `multadd`'s loop leaves and its carry stand for b * m + a;
      they stay normalized when m >= 1, and so does a nonzero carry put on
      top. */
  lemma {:induction false} MultaddValue(xs: seq<Word>, ys: seq<Word>, carry: Word, m: Word, a: Word)
    requires (ys, carry) == MulAccWords(xs, m, Zeros(|xs|), a)
    ensures carry == 0 ==> Val(ys) == Val(xs) * m + a && (Normalized(xs) && m >= 1 ==> Normalized(ys))
    ensures carry != 0 ==> Val(ys + [carry]) == Val(xs) * m + a && (|xs| >= 1 ==> Normalized(ys + [carry]))
  {
    MulAccValue(xs, m, Zeros(|xs|), a);
    ZerosWorthNothing(|xs|);
    ValAppend(ys, carry);
    if carry == 0 {
      ScaledStaysNormal(xs, ys, m, a);
    }
  }

  /** The growth step of `multadd`: a block of the next class, holding b's
      sign and words, with b freed. */
  method Grow(alloc: Allocator, b: Bigint) returns (b1: Bigint)
    requires alloc.Valid() && alloc.Live(b) && b.Valid() && b.wds == b.maxwds < 0x4000_0000
    modifies alloc, alloc.free, alloc.FreeArrays()
    ensures alloc.Valid() && alloc.Live(b1) && !alloc.Live(b) && b1 != b
    ensures b1.Valid() && b1.k == b.k + 1 && b1.wds == old(b.wds) < b1.maxwds && b1.sign == old(b.sign)
    ensures b1.x[..b1.wds] == old(b.x[..b.wds])
    ensures (fresh(b1) && fresh(b1.x)) || b1 in old(alloc.free)
  {
    ClassBelowLimit(b.k, b.wds + 1);
    b1 := alloc.Balloc(b.k + 1);
    b1.sign, b1.wds := b.sign, b.wds;
    CopyWords(b1.x, 0, b.x, b.wds);
    alloc.Bfree(b);
  }

  /** Multiplying by m >= 1 and adding keeps a normalized sequence of the
      same length normalized. */
  lemma {:induction false} ScaledStaysNormal(xs: seq<Word>, ys: seq<Word>, m: Word, a: Word)
    requires |ys| == |xs| && Val(ys) == Val(xs) * m + a
    ensures Normalized(xs) && m >= 1 ==> Normalized(ys)
  {
    if Normalized(xs) && m >= 1 && |xs| > 1 {
      NormalizedBound(xs);
      MulMonotonic(1, m, Val(xs));
      AtLeastScaled(Val(ys), Val(xs), m, a, BPow(|xs| - 1));
      NormalizedFromBound(ys);
    }
  }

  lemma {:induction false} AtLeastScaled(w: int, v: int, m: int, a: int, p: int)
    requires w == v * m + a && 1 * v <= m * v && v >= p && a >= 0
    ensures w >= p
  {
  }

  /** `i2b(i)`: a one-word block of class 1 holding i. */
  method I2b(alloc: Allocator, i: Word) returns (b: Bigint)
    requires alloc.Valid()
    modifies alloc, alloc.free, alloc.FreeArrays()
    ensures alloc.Valid() && alloc.Live(b) && b.k == 1 && b.sign == 0
    ensures b.Normal() && b.Value() == i
    ensures fresh(b) || b in old(alloc.free)
  {
    b := alloc.Balloc(1);
    b.x[0] := i;
    b.wds := 1;
    assert b.x[..1] == [] + [i];
    ValAppend([], i);
  }

  // ---------------------------------------------------------------------------
  // mult
  // ---------------------------------------------------------------------------

  /** `mult(a, b)`: the product in a new block, of the class of the operand
      with more words, or of the next class when the product's words do
      not fit. Zero top words are trimmed, so a zero product has no words
      at all. */
  method Mult(alloc: Allocator, a: Bigint, b: Bigint) returns (c: Bigint)
    requires alloc.Valid() && alloc.Live(a) && alloc.Live(b) && a.Valid() && b.Valid()
    requires a.wds >= 1 && b.wds >= 1 && a.wds + b.wds <= 0x4000_0000
    modifies alloc, alloc.free, alloc.FreeArrays()
    ensures alloc.Valid() && alloc.Live(c) && c.Valid() && c != a && c != b && c.sign == 0
    ensures c.Value() == old(a.Value()) * old(b.Value())
    ensures c.Value() > 0 ==> c.Normal()
    ensures c.Value() == 0 ==> c.wds == 0
    ensures fresh(c) || c in old(alloc.free)
  {
    ghost var va, vb := a.Value(), b.Value();
    var x, y := a, b;
    if a.wds < b.wds {
      x, y := b, a;
    }
    SwapProduct(va, vb, x.Value(), y.Value());
    var k := x.k;
    var wc := x.wds + y.wds;
    if wc > x.maxwds {
      ClassBelowLimit(x.k, wc);
      k := k + 1;
    }
    c := alloc.Balloc(k);
    MultInto(c, x, y);
  }

  /** The word loops of `mult` into c, which has room for the words of both
      operands: the product, with the zero top words trimmed. */
  method MultInto(c: Bigint, x: Bigint, y: Bigint)
    requires c.Valid() && x.Valid() && y.Valid() && c.x != x.x && c.x != y.x
    requires 1 <= y.wds <= x.wds && x.wds + y.wds <= c.maxwds
    modifies c, c.x
    ensures c.Valid() && c.sign == old(c.sign)
    ensures c.Value() == x.Value() * y.Value()
    ensures c.Value() > 0 ==> c.Normal()
    ensures c.Value() == 0 ==> c.wds == 0
  {
    var wa, wb := x.wds, y.wds;
    MulWords(c.x, x.x, wa, y.x, wb);
    var w := TrimWords(c.x, wa + wb);
    c.wds := w;
  }

  /** The operands' order does not change the product. */
  lemma {:induction false} SwapProduct(va: int, vb: int, vx: int, vy: int)
    requires (vx == va && vy == vb) || (vx == vb && vy == va)
    ensures vx * vy == va * vb
  {
  }

  /** A class whose capacity is below a word count of at most 2^30 is below
      class 30, so the next class still fits `1 << k`. */
  lemma {:induction false} ClassBelowLimit(k: nat, n: int)
    requires k <= 30 && Pow2(k) < n <= 0x4000_0000
    ensures k < 30
  {
    Pow2Thirty();
  }

  lemma {:induction false} Pow2Thirty()
    ensures Pow2(30) == 0x4000_0000
  {
    Pow2Add(10, 10);
    Pow2Add(20, 10);
    assert Pow2(10) == 1024;
  }

  // ---------------------------------------------------------------------------
  // lshift
  // ---------------------------------------------------------------------------

  /** `lshift(b, k)`: b times 2^k in a new block of the smallest class at
      least b's that holds k / 32 + wds + 1 words; b is freed. */
  method Lshift(alloc: Allocator, b: Bigint, k: nat) returns (b1: Bigint)
    requires alloc.Valid() && alloc.Live(b) && b.Valid() && b.wds >= 1
    requires k / 32 + b.wds + 1 <= 0x4000_0000
    modifies alloc, alloc.free, alloc.FreeArrays()
    ensures alloc.Valid() && alloc.Live(b1) && b1.Valid() && !alloc.Live(b) && b1.sign == 0
    ensures b1.Value() == old(b.Value()) * Pow2(k)
    ensures old(b.Normal()) && old(b.Value()) > 0 ==> b1.Normal()
    ensures b1.k >= b.k && b1.maxwds >= k / 32 + old(b.wds) + 1
    ensures b1.k == b.k || Pow2(b1.k - 1) < k / 32 + old(b.wds) + 1
    ensures fresh(b1) || b1 in old(alloc.free)
  {
    var n1 := k / 32 + b.wds + 1;
    var k1 := ClassFor(b.k, b.maxwds, n1);
    b1 := alloc.Balloc(k1);
    ShiftInto(b1, b, k);
    alloc.Bfree(b);
  }

  /** The word loops of `lshift` into b1, which has room for k / 32 + wds + 1
      words: b times 2^k, normalized when b is and is not zero. */
  method ShiftInto(b1: Bigint, b: Bigint, k: nat)
    requires b1.Valid() && b.Valid() && b1.x != b.x && b.wds >= 1
    requires k / 32 + b.wds + 1 <= b1.maxwds
    modifies b1, b1.x
    ensures b1.Valid() && b1.sign == old(b1.sign)
    ensures b1.Value() == b.Value() * Pow2(k)
    ensures b.Normal() && b.Value() > 0 ==> b1.Normal()
  {
    ghost var xs := b.x[..b.wds];
    var wds1 := ShiftedWords(b1.x, b.x, b.wds, k);
    b1.wds := wds1;
    assert b.x[..b.wds] == xs;
    if wds1 == k / 32 + b.wds {
      ShiftedStaysNormalIf(b1.x[..wds1], xs, k);
    }
  }

  /** The class `lshift` allocates: starting from class k0 of capacity
      maxwds, the capacity is doubled until n1 words fit, so the class is
      the smallest at least k0 that holds them. */
  method ClassFor(k0: nat, maxwds: nat, n1: int) returns (k1: nat)
    requires k0 <= 30 && maxwds == Pow2(k0) && n1 <= 0x4000_0000
    ensures k0 <= k1 <= 30 && n1 <= Pow2(k1)
    ensures k1 == k0 || Pow2(k1 - 1) < n1
  {
    k1 := k0;
    var i := maxwds;
    while n1 > i
      invariant k0 <= k1 <= 30 && i == Pow2(k1)
      invariant k1 == k0 || Pow2(k1 - 1) < n1
      decreases n1 - i
    {
      ClassBelowLimit(k1, n1);
      i := i * 2;
      k1 := k1 + 1;
    }
  }

  /** A normalized nonzero value shifted into k / 32 more words stays
      normalized. */
  lemma {:induction false} ShiftedStaysNormalIf(t: seq<Word>, v: seq<Word>, k: nat)
    requires |t| == k / 32 + |v| && Val(t) == Val(v) * Pow2(k)
    ensures Normalized(v) && Val(v) > 0 ==> Normalized(t)
  {
    if Normalized(v) && Val(v) > 0 {
      ShiftedStaysNormal(t, v, k);
    }
  }

  // ---------------------------------------------------------------------------
  // diff
  // ---------------------------------------------------------------------------

  /** `diff(a, b)`: |a - b| in a new block, with sign 1 when b is the
      larger; equal operands give a fresh one-word zero of class 0. */
  method Diff(alloc: Allocator, a: Bigint, b: Bigint) returns (c: Bigint)
    requires alloc.Valid() && alloc.Live(a) && alloc.Live(b) && a.Normal() && b.Normal()
    modifies alloc, alloc.free, alloc.FreeArrays()
    ensures alloc.Valid() && alloc.Live(c) && c.Normal() && c != a && c != b
    ensures old(a.Value()) >= old(b.Value()) ==> c.Value() == old(a.Value()) - old(b.Value()) && c.sign == 0
    ensures old(a.Value()) < old(b.Value()) ==> c.Value() == old(b.Value()) - old(a.Value()) && c.sign == 1
    ensures old(a.Value()) == old(b.Value()) ==> c.k == 0
    ensures fresh(c) || c in old(alloc.free)
  {
    var i := Cmp(a, b);
    if i == 0 {
      c := ZeroBlock(alloc);
      return;
    }
    if i < 0 {
      c := DiffOrdered(alloc, b, a, 1);
    } else {
      c := DiffOrdered(alloc, a, b, 0);
    }
  }

  /** What `diff` returns for equal operands: a block of class 0 holding
      one zero word. */
  method ZeroBlock(alloc: Allocator) returns (c: Bigint)
    requires alloc.Valid()
    modifies alloc, alloc.free, alloc.FreeArrays()
    ensures alloc.Valid() && alloc.Live(c) && c.Normal() && c.Value() == 0 && c.k == 0 && c.sign == 0
    ensures fresh(c) || c in old(alloc.free)
  {
    c := alloc.Balloc(0);
    c.wds := 1;
    c.x[0] := 0;
    assert c.x[..1] == [] + [0];
    ValAppend([], 0);
  }

  /** The subtraction of `diff` once the operands are ordered: x - y, for x
      above y, in a new block of x's class with the given sign; the top
      zero words are trimmed. */
  method DiffOrdered(alloc: Allocator, x: Bigint, y: Bigint, neg: int) returns (c: Bigint)
    requires alloc.Valid() && alloc.Live(x) && alloc.Live(y) && x.Normal() && y.Normal()
    requires x.Value() > y.Value()
    modifies alloc, alloc.free, alloc.FreeArrays()
    ensures alloc.Valid() && alloc.Live(c) && c.Normal() && c.k == x.k && c.sign == neg
    ensures c.Value() == old(x.Value()) - old(y.Value())
    ensures fresh(c) || c in old(alloc.free)
  {
    if x.wds != y.wds {
      CountDecides(x.x[..x.wds], y.x[..y.wds]);
    }
    c := alloc.Balloc(x.k);
    c.sign := neg;
    SubInto(c, x, y);
  }

  /** The word loops of `diff` into c, which has room for x's words: x - y,
      for x above y, with the zero top words trimmed. */
  method SubInto(c: Bigint, x: Bigint, y: Bigint)
    requires c.Valid() && x.Valid() && y.Valid() && c.x != x.x && c.x != y.x
    requires 1 <= y.wds <= x.wds <= c.maxwds && x.Value() > y.Value()
    modifies c, c.x
    ensures c.Normal() && c.sign == old(c.sign)
    ensures c.Value() == x.Value() - y.Value()
  {
    var wa := x.wds;
    var borrow := SubWords(c.x, x.x, wa, y.x, y.wds);
    ValBound(c.x[..wa]);
    NoBorrowLeft(Val(c.x[..wa]), borrow, BPow(wa), x.Value() - y.Value());
    var w := TrimNonzero(c.x, wa);
    c.wds := w;
  }

  /** A positive difference that fits the words leaves no borrow. */
  lemma {:induction false} NoBorrowLeft(v: int, borrow: int, p: int, d: int)
    requires 0 <= v < p && 0 <= borrow <= 1 && v - borrow * p == d && d > 0
    ensures borrow == 0 && v == d
  {
  }

  // ---------------------------------------------------------------------------
  // quorem
  // ---------------------------------------------------------------------------

  /** The digit `quorem` estimates first: b's top word over S's top word
      plus one, which is never above the true quotient. */
  function Estimate(bs: seq<Word>, ss: seq<Word>): (q: nat)
    requires |bs| >= 1 && |ss| >= 1
    ensures q <= bs[|bs| - 1]
  {
    bs[|bs| - 1] / (ss[|ss| - 1] as int + 1)
  }

  /** `quorem(b, S)`: the next digit q of b / S, with b replaced by
      b - q * S. When b has fewer words than S the digit is 0. Otherwise
      the estimate is subtracted first, and S once more if what is left is
      still at least S; the result is the true quotient whenever b is below
      (estimate + 2) * S. A remainder of zero in a one-word b is left with
      no words. */
  method Quorem(b: Bigint, S: Bigint) returns (q: nat)
    requires b.Normal() && S.Normal() && b.x != S.x
    requires b.wds <= S.wds && S.Value() > 0 && S.x[S.wds - 1] < Base - 1
    modifies b, b.x
    ensures b.Valid() && b.wds <= S.wds && (b.Normal() || (b.wds == 0 && S.wds == 1))
    ensures b.Value() + q * S.Value() == old(b.Value())
    ensures old(b.wds) < S.wds ==> q == 0 && b.Value() < S.Value()
    ensures old(b.wds) == S.wds &&
            old(b.Value() < (Estimate(b.x[..b.wds], S.x[..S.wds]) + 2) * S.Value()) ==>
            b.Value() < S.Value()
  {
    if b.wds < S.wds {
      LongerIsLarger(b.x[..b.wds], S.x[..S.wds]);
      return 0;
    }
    ghost var vb := b.Value();
    var q0 := EstimatePass(b, S);
    ghost var r1 := b.Value();
    var bump := CorrectionPass(b, S);
    q := q0 + bump;
    DigitArith(vb, S.Value(), q0, r1, q, b.Value(), bump == 1);
  }

  /** The first pass of `quorem`, for b of S's word count: the estimated
      digit, and b less that many times S when it is not zero. */
  method EstimatePass(b: Bigint, S: Bigint) returns (q: nat)
    requires b.Normal() && S.Normal() && b.x != S.x
    requires b.wds == S.wds && S.x[S.wds - 1] < Base - 1
    modifies b, b.x
    ensures q == old(Estimate(b.x[..b.wds], S.x[..S.wds]))
    ensures b.Valid() && b.wds <= S.wds && (b.Normal() || (b.wds == 0 && S.wds == 1))
    ensures b.Value() == old(b.Value()) - q * S.Value()
  {
    var n := S.wds;
    q := b.x[n - 1] / (S.x[n - 1] + 1);
    assert q == Estimate(b.x[..b.wds], S.x[..S.wds]);
    QuotientEstimate(b.x[..n], S.x[..n], q);
    if q != 0 {
      SubtractMultiple(b, S, q);
    }
  }

  /** The second pass of `quorem`: when `cmp` finds what is left at least
      S, S is subtracted once more and the digit goes up by one; otherwise
      what is left is below S. */
  method CorrectionPass(b: Bigint, S: Bigint) returns (bump: nat)
    requires b.Valid() && S.Normal() && b.x != S.x && S.Value() > 0
    requires b.wds <= S.wds && (b.Normal() || (b.wds == 0 && S.wds == 1))
    modifies b, b.x
    ensures bump == 0 || bump == 1
    ensures b.Valid() && b.wds <= S.wds && (b.Normal() || (b.wds == 0 && S.wds == 1))
    ensures bump == 0 ==> b.Value() == old(b.Value()) < S.Value()
    ensures bump == 1 ==> b.Value() == old(b.Value()) - S.Value()
  {
    if b.wds == 0 {
      assert b.x[..0] == [];
    }
    var c := Cmp(b, S);
    if c >= 0 {
      SubtractMultiple(b, S, 1);
      return 1;
    }
    return 0;
  }

  /** The digit and the remainder after the estimate q0 and the possible
      correction: b is q * S plus the remainder, and the remainder is below
      S when b was below (q0 + 2) * S. */
  lemma {:induction false} DigitArith(vb: int, vs: int, q0: int, r1: int, q: int, r: int, corrected: bool)
    requires r1 == vb - q0 * vs
    requires corrected ==> q == q0 + 1 && r == r1 - vs
    requires !corrected ==> q == q0 && r == r1 && r1 < vs
    ensures r + q * vs == vb
    ensures vb < (q0 + 2) * vs ==> r < vs
  {
  }

  /** One subtracting pass of `quorem`: b, of S's word count, less q * S,
      which must not exceed it; then, if the top word has become zero, the
      trim of the zero top words. */
  method SubtractMultiple(b: Bigint, S: Bigint, q: Word)
    requires b.Valid() && S.Normal() && b.x != S.x && b.wds == S.wds
    requires q * S.Value() <= b.Value()
    modifies b, b.x
    ensures b.Valid() && b.wds <= S.wds && b.Value() == old(b.Value()) - q * S.Value()
    ensures b.Normal() || (b.wds == 0 && S.wds == 1)
  {
    var n := S.wds;
    ghost var bs, ss := b.x[..n], S.x[..n];
    var borrow, carry := SubMulWords(b.x, S.x, n, q);
    assert S.x[..n] == ss;
    SubtractedExactly(bs, ss, q, b.x[..n], borrow, carry);
    if b.x[n - 1] == 0 {
      var w := TrimBelowTop(b.x, n - 1);
      b.wds := w;
    }
  }

  /** The subtracting pass leaves exactly bs - q * ss when q * ss does not
      exceed bs. */
  lemma {:induction false} SubtractedExactly(bs: seq<Word>, ss: seq<Word>, q: Word, out: seq<Word>, borrow: int, carry: Word)
    requires |ss| == |bs|
    requires (out, borrow, carry) == SubMulWordsSpec(bs, ss, q, 0, 0)
    requires q * Val(ss) <= Val(bs)
    ensures Val(out) == Val(bs) - q * Val(ss)
  {
    var r := SubMulWordsSpec(bs, ss, q, 0, 0);
    SubMulWordsValue(bs, ss, q, 0, 0);
    ValBound(r.0);
    SettleOwed(Val(r.0), Val(bs), q * Val(ss), r.1 + r.2, BPow(|bs|));
  }

  /** When what is subtracted (m) does not exceed what it is taken from and
      the words hold the result, nothing is still owed. */
  lemma {:induction false} SettleOwed(v: int, vb: int, m: int, owed: int, p: int)
    requires v == vb - m + owed * p
    requires 0 <= v < p && m <= vb && owed >= 0
    ensures v == vb - m
  {
    assert owed * p < p;
  }
}
