/*
 * The big integers of `dtoa.c` and their allocator. A `Bigint` of class k
 * has room for 2^k words; `Balloc` hands one out, reusing the most
 * recently freed block of that class when there is one, else carving it
 * from the allocator's private pool of doubles, else taking it from the
 * heap. `Bfree` puts a block of class at most Kmax back on its class's free
 * list and returns larger ones to the heap.
 */
module DtoaAlloc {
  import opened DtoaWords

  /** The largest class kept on a free list. */
  const Kmax: nat := 7

  /** `sizeof(Bigint)` on a 64-bit target: the `next` pointer, four ints and
      the first word, rounded up to the alignment of a pointer. */
  const BigintBytes: nat := 32

  /** `len` in `Balloc`: the size of a class-k block in doubles, rounded up. */
  function DoublesFor(k: nat): (len: nat)
    ensures len * 8 >= BigintBytes + (Pow2(k) - 1) * 4
  {
    (BigintBytes + (Pow2(k) - 1) * 4 + 8 - 1) / 8
  }

  class Bigint {
    /** The class, its capacity 2^k and the words: fixed when the block is
        first carved, and kept when it is reused. */
    const k: nat
    const maxwds: nat
    const x: array<Word>
    var sign: int
    var wds: int

    /** A block freshly carved from the pool or the heap. */
    constructor (k: nat)
      requires k <= 30
      ensures this.k == k && maxwds == Pow2(k) && x.Length == maxwds
      ensures sign == 0 && wds == 0
      ensures fresh(x)
    {
      this.k := k;
      maxwds := Pow2(k);
      x := new Word[Pow2(k)];
      sign := 0;
      wds := 0;
    }

    /** The capacity matches the class and the words; `1 << k` fits an
        int. */
    predicate Shaped()
    {
      k <= 30 && maxwds == Pow2(k) && x.Length == maxwds
    }

    ghost predicate Valid()
      reads this
    {
      Shaped() && 0 <= wds <= maxwds
    }

    /** The magnitude: the first wds words, little-endian. */
    ghost function Value(): nat
      reads this, x
      requires Valid()
    {
      Val(x[..wds])
    }

    /** At least one word, and no zero top word above the first. */
    ghost predicate Normal()
      reads this, x
    {
      Valid() && Normalized(x[..wds])
    }
  }

  class Allocator {
    /** `freelist[k]`, one stack per class up to Kmax, top at the end. */
    var freelist: seq<seq<Bigint>>
    /** `pmem_next - private_mem` and `pmem_len`, in doubles. */
    var pmemNext: int
    const pmemLen: int
    var usedHeap: bool
    /** The blocks on the free lists, and every block handed out and not
        returned to the heap. */
    ghost var free: set<Bigint>
    ghost var all: set<Bigint>

    ghost predicate Valid()
      reads this
    {
      && |freelist| == Kmax + 1
      && 0 <= pmemNext <= pmemLen
      && StacksHold(freelist, free)
      && free <= all
      && (forall b :: b in all ==> b.Shaped())
      && (forall b, c :: b in all && c in all && b != c ==> b.x != c.x)
    }

    /** A block handed out and not yet freed. */
    ghost predicate Live(b: Bigint)
      reads this
    {
      b in all && b !in free
    }

    /** The words of the blocks on the free lists. */
    ghost function FreeArrays(): set<array<Word>>
      reads this
    {
      set f | f in free :: f.x
    }

    /** `dtoa_alloc_init`/`dalloc_init`: empty free lists and a pool of
        pmemLen doubles. */
    constructor (pmemLen: int)
      requires pmemLen > 0
      ensures Valid() && this.pmemLen == pmemLen && pmemNext == 0 && !usedHeap
      ensures freelist == seq(Kmax + 1, _ => []) && free == {} && all == {}
    {
      freelist := seq(Kmax + 1, _ => []);
      pmemNext := 0;
      this.pmemLen := pmemLen;
      usedHeap := false;
      free := {};
      all := {};
    }

    /** `Balloc(k)`: pops the class's free list if it has a block, else
        carves a block from the pool when it fits, else from the heap.
        Either way the block comes back with sign and wds zero; its words
        are whatever they were. `1 << k` must fit an int. */
    method Balloc(k: nat) returns (rv: Bigint)
      requires Valid() && k <= 30
      modifies this, free
      ensures Valid() && Live(rv) && rv.Valid()
      ensures rv.k == k && rv.maxwds == Pow2(k) && rv.sign == 0 && rv.wds == 0
      ensures all == old(all) + {rv} && (fresh(rv) || rv in old(free))
      ensures old(k <= Kmax && |freelist[k]| > 0) ==>
        && rv == old(freelist[k][|freelist[k]| - 1])
        && freelist == old(freelist[k := freelist[k][..|freelist[k]| - 1]])
        && free == old(free) - {rv}
        && pmemNext == old(pmemNext) && usedHeap == old(usedHeap)
      ensures !old(k <= Kmax && |freelist[k]| > 0) ==>
        && fresh(rv) && fresh(rv.x)
        && freelist == old(freelist) && free == old(free)
        && if k <= Kmax && old(pmemNext) + DoublesFor(k) <= pmemLen
           then pmemNext == old(pmemNext) + DoublesFor(k) && usedHeap == old(usedHeap)
           else pmemNext == old(pmemNext) && usedHeap
    {
      if k <= Kmax && |freelist[k]| > 0 {
        var stack := freelist[k];
        rv := stack[|stack| - 1];
        freelist := freelist[k := stack[..|stack| - 1]];
        free := free - {rv};
        PopKeepsStacks(old(freelist), old(free), k);
      } else {
        var len := DoublesFor(k);
        rv := new Bigint(k);
        if k <= Kmax && pmemNext + len <= pmemLen {
          pmemNext := pmemNext + len;
        } else {
          usedHeap := true;
        }
        all := all + {rv};
      }
      rv.sign, rv.wds := 0, 0;
    }

    /** `Bfree(v)`: nothing for a null block; a block of class at most Kmax
        is pushed on its class's free list, a larger one goes back to the
        heap. */
    method Bfree(v: Bigint?)
      requires Valid() && (v != null ==> Live(v))
      modifies this
      ensures Valid()
      ensures pmemNext == old(pmemNext) && usedHeap == old(usedHeap)
      ensures v == null ==> freelist == old(freelist) && free == old(free) && all == old(all)
      ensures v != null && v.k > Kmax ==>
        freelist == old(freelist) && free == old(free) && all == old(all) - {v}
      ensures v != null && v.k <= Kmax ==>
        && freelist == old(freelist[v.k := freelist[v.k] + [v]])
        && free == old(free) + {v} && all == old(all)
    {
      if v != null {
        if v.k > Kmax {
          all := all - {v};
        } else {
          freelist := freelist[v.k := freelist[v.k] + [v]];
          free := free + {v};
          PushKeepsStacks(old(freelist), old(free), v);
        }
      }
    }
  }

  /** A block freed by `Bfree` is the very block the next `Balloc` of its
      class returns: the two are a push and a pop of the same stack. */
  lemma FreeThenAllocReuses(freelist: seq<seq<Bigint>>, v: Bigint)
    requires v.k < |freelist|
    ensures var pushed := freelist[v.k := freelist[v.k] + [v]];
      && |pushed[v.k]| > 0
      && pushed[v.k][|pushed[v.k]| - 1] == v
      && pushed[v.k := pushed[v.k][..|pushed[v.k]| - 1]] == freelist
  {
    var pushed := freelist[v.k := freelist[v.k] + [v]];
    assert pushed[v.k][..|pushed[v.k]| - 1] == freelist[v.k];
  }

  /** The free lists hold exactly the free blocks, each once, each on the
      stack of its class. */
  ghost predicate StacksHold(freelist: seq<seq<Bigint>>, free: set<Bigint>)
  {
    && (forall i, j :: 0 <= i < |freelist| && 0 <= j < |freelist[i]| ==>
          freelist[i][j].k == i && freelist[i][j] in free)
    && (forall b :: b in free ==> b.k < |freelist| && b in freelist[b.k])
    && (forall i, j1, j2 :: 0 <= i < |freelist| && 0 <= j1 < j2 < |freelist[i]| ==>
          freelist[i][j1] != freelist[i][j2])
  }

  /** Popping the top of a class's stack takes that block out of the free
      set. */
  lemma PopKeepsStacks(freelist: seq<seq<Bigint>>, free: set<Bigint>, k: nat)
    requires StacksHold(freelist, free) && k < |freelist| && |freelist[k]| > 0
    ensures var n := |freelist[k]| - 1;
      StacksHold(freelist[k := freelist[k][..n]], free - {freelist[k][n]})
  {
    var n := |freelist[k]| - 1;
    var rv := freelist[k][n];
    var fl: seq<seq<Bigint>>, fr: set<Bigint> := freelist[k := freelist[k][..n]], free - {rv};
    forall i, j | 0 <= i < |fl| && 0 <= j < |fl[i]|
      ensures fl[i][j].k == i && fl[i][j] in fr
    {
      assert fl[i][j] == freelist[i][j];
      if i == k {
        assert j < n;
      }
    }
    forall b | b in fr ensures b.k < |fl| && b in fl[b.k] {
      var j :| 0 <= j < |freelist[b.k]| && freelist[b.k][j] == b;
      if b.k == k {
        assert j != n;
        assert fl[b.k][j] == b;
      }
    }
  }

  /** Pushing a block that is not free onto its class's stack makes it
      free. */
  lemma PushKeepsStacks(freelist: seq<seq<Bigint>>, free: set<Bigint>, v: Bigint)
    requires StacksHold(freelist, free) && v.k < |freelist| && v !in free
    ensures StacksHold(freelist[v.k := freelist[v.k] + [v]], free + {v})
  {
    var fl: seq<seq<Bigint>>, fr: set<Bigint> := freelist[v.k := freelist[v.k] + [v]], free + {v};
    forall i, j | 0 <= i < |fl| && 0 <= j < |fl[i]|
      ensures fl[i][j].k == i && fl[i][j] in fr
    {
      if i != v.k || j < |freelist[i]| {
        assert fl[i][j] == freelist[i][j];
      }
    }
    forall b | b in fr ensures b.k < |fl| && b in fl[b.k] {
      if b != v {
        var j :| 0 <= j < |freelist[b.k]| && freelist[b.k][j] == b;
        assert fl[b.k][j] == b;
      } else {
        assert fl[v.k][|fl[v.k]| - 1] == v;
      }
    }
  }
}
