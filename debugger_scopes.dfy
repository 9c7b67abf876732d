/*
 * The scope-descriptor queries of the Hermes debugger. The descriptors of a
 * code block's lexical scopes come as a chain from the innermost scope
 * outwards; the scopes of one function frame are consecutive, and the last
 * scope of each frame (the first scope of its function) is the only one not
 * marked as an inner scope. `getScopeDescIndexForFrame` finds where a frame
 * starts in the chain and `getFrameSize` counts the variables of a frame.
 */
module DebuggerScopes {

  datatype Option<T> = None | Some(value: T)

  /** What the queries read of an `hbc::DebugScopeDescriptor`: the names it
      declares and whether it is an inner scope of its function. */
  datatype ScopeDesc = ScopeDesc(names: seq<string>, isInnerScope: bool)

  /** Descriptor i is the top-most scope of a frame: the chain starts with
      one, and each descriptor that is not an inner scope ends its frame. */
  predicate StartsFrame(descs: seq<ScopeDesc>, i: nat)
    requires i < |descs|
  {
    i == 0 || !descs[i - 1].isInnerScope
  }

  /** The frame starts among the first n descriptors, in order. */
  function Starts(descs: seq<ScopeDesc>, n: nat): (s: seq<nat>)
    requires n <= |descs|
    ensures forall k :: 0 <= k < |s| ==> s[k] < n
  {
    if n == 0 then []
    else Starts(descs, n - 1) + (if StartsFrame(descs, n - 1) then [n - 1] else [])
  }

  /** Where frame `frame` starts, counting the innermost frame as 0; None
      when the chain holds fewer frames. */
  function FrameStart(descs: seq<ScopeDesc>, frame: nat): Option<nat>
  {
    var s := Starts(descs, |descs|);
    if frame < |s| then Some(s[frame]) else None
  }

  /** `getScopeDescIndexForFrame`: walks the chain counting frame starts and
      returns the index of the start of frame `frame`. */
  method ScopeDescIndexForFrame(descs: seq<ScopeDesc>, frame: nat) returns (r: Option<nat>)
    ensures r == FrameStart(descs, frame)
  {
    var newFrame := true;
    var numSeenFrames := 0;
    var i := 0;
    while i < |descs|
      invariant 0 <= i <= |descs| && numSeenFrames == |Starts(descs, i)| <= frame
      invariant i < |descs| ==> newFrame == StartsFrame(descs, i)
    {
      if newFrame {
        if numSeenFrames == frame {
          FrameStartAt(descs, frame, i);
          return Some(i);
        }
        numSeenFrames := numSeenFrames + 1;
      }
      newFrame := !descs[i].isInnerScope;
      i := i + 1;
    }
    return None;
  }

  /** The starts among fewer descriptors are a prefix of those among
      more. */
  lemma {:induction false} StartsPrefix(descs: seq<ScopeDesc>, n: nat, m: nat)
    requires n <= m <= |descs|
    ensures Starts(descs, n) <= Starts(descs, m)
    decreases m - n
  {
    if n < m {
      StartsPrefix(descs, n, m - 1);
    }
  }

  /** Frame starts come in increasing order. */
  lemma {:induction false} StartsIncrease(descs: seq<ScopeDesc>, n: nat)
    requires n <= |descs|
    ensures forall j, k :: 0 <= j < k < |Starts(descs, n)| ==> Starts(descs, n)[j] < Starts(descs, n)[k]
  {
    if n > 0 {
      StartsIncrease(descs, n - 1);
    }
  }

  /** Every listed index starts a frame. */
  lemma {:induction false} StartsAreStarts(descs: seq<ScopeDesc>, n: nat)
    requires n <= |descs|
    ensures forall k :: 0 <= k < |Starts(descs, n)| ==> StartsFrame(descs, Starts(descs, n)[k])
  {
    if n > 0 {
      StartsAreStarts(descs, n - 1);
    }
  }

  /** A descriptor that starts a frame, with f frame starts before it, is
      where frame f starts. */
  lemma {:induction false} FrameStartAt(descs: seq<ScopeDesc>, f: nat, i: nat)
    requires i < |descs| && StartsFrame(descs, i) && |Starts(descs, i)| == f
    ensures FrameStart(descs, f) == Some(i)
  {
    assert Starts(descs, i + 1) == Starts(descs, i) + [i];
    StartsPrefix(descs, i + 1, |descs|);
  }

  /** Frame f starts at i exactly when descriptor i starts a frame and f
      frames start before it. */
  lemma {:induction false} FrameStartCharacterized(descs: seq<ScopeDesc>, f: nat, i: nat)
    ensures FrameStart(descs, f) == Some(i) <==>
      i < |descs| && StartsFrame(descs, i) && |Starts(descs, i)| == f
  {
    if i < |descs| && StartsFrame(descs, i) && |Starts(descs, i)| == f {
      FrameStartAt(descs, f, i);
    }
    if FrameStart(descs, f) == Some(i) {
      var s := Starts(descs, |descs|);
      StartsAreStarts(descs, |descs|);
      assert i < |descs| && StartsFrame(descs, i);
      var before := Starts(descs, i);
      assert Starts(descs, i + 1) == before + [i];
      StartsPrefix(descs, i + 1, |descs|);
      StartsIncrease(descs, |descs|);
      assert s[|before|] == i == s[f];
    }
  }

  /** The innermost frame starts at the first descriptor. */
  lemma {:induction false} FirstFrameAtTop(descs: seq<ScopeDesc>)
    requires |descs| > 0
    ensures FrameStart(descs, 0) == Some(0)
  {
    FrameStartAt(descs, 0, 0);
  }

  // ---------------------------------------------------------------------------
  // getFrameSize
  // ---------------------------------------------------------------------------

  /** Some descriptor at or after i is not an inner scope, so the frame that
      holds descriptor i ends inside the chain. */
  predicate HasFrameEnd(descs: seq<ScopeDesc>, i: nat)
  {
    exists j :: i <= j < |descs| && !descs[j].isInnerScope
  }

  /** The last descriptor of the frame that holds descriptor i: the first
      one at or after i that is not an inner scope. */
  function FrameEnd(descs: seq<ScopeDesc>, i: nat): (e: nat)
    requires HasFrameEnd(descs, i)
    ensures i <= e < |descs| && !descs[e].isInnerScope
    ensures forall k :: i <= k < e ==> descs[k].isInnerScope
    decreases |descs| - i
  {
    if !descs[i].isInnerScope then i
    else FrameEnd(descs, i + 1)
  }

  /** The number of names declared by descriptors lo up to hi. */
  function SumNames(descs: seq<ScopeDesc>, lo: nat, hi: nat): nat
    requires lo <= hi <= |descs|
    decreases hi - lo
  {
    if lo == hi then 0 else |descs[lo].names| + SumNames(descs, lo + 1, hi)
  }

  /** The variables of the frame from descriptor i to its end. */
  function FrameSize(descs: seq<ScopeDesc>, i: nat): nat
    requires HasFrameEnd(descs, i)
  {
    SumNames(descs, i, FrameEnd(descs, i) + 1)
  }

  /** `getFrameSize`: adds up the names of descriptor i and of those after
      it up to and including the first one that is not an inner scope. */
  method GetFrameSize(descs: seq<ScopeDesc>, i: nat) returns (frameSize: nat)
    requires HasFrameEnd(descs, i)
    ensures frameSize == FrameSize(descs, i)
  {
    ghost var e := FrameEnd(descs, i);
    frameSize := |descs[i].names|;
    var inner := descs[i].isInnerScope;
    var j := i + 1;
    SumNamesStep(descs, i, i);
    while inner
      invariant i < j <= e + 1 && frameSize == SumNames(descs, i, j)
      invariant inner == descs[j - 1].isInnerScope
      decreases e + 1 - j
    {
      SumNamesStep(descs, i, j);
      frameSize := frameSize + |descs[j].names|;
      inner := descs[j].isInnerScope;
      j := j + 1;
    }
  }

  /** Counting one more descriptor adds its names. */
  lemma {:induction false} SumNamesStep(descs: seq<ScopeDesc>, lo: nat, hi: nat)
    requires lo <= hi < |descs|
    ensures SumNames(descs, lo, hi + 1) == SumNames(descs, lo, hi) + |descs[hi].names|
    decreases hi - lo
  {
    if lo < hi {
      SumNamesStep(descs, lo + 1, hi);
    }
  }

  /** Frames are contiguous: the frame after the one starting at i starts
      right after its end, and there is none when that end closes the
      chain. */
  lemma {:induction false} NextFrameStart(descs: seq<ScopeDesc>, f: nat, i: nat)
    requires FrameStart(descs, f) == Some(i) && HasFrameEnd(descs, i)
    ensures FrameEnd(descs, i) + 1 < |descs| ==> FrameStart(descs, f + 1) == Some(FrameEnd(descs, i) + 1)
    ensures FrameEnd(descs, i) + 1 == |descs| ==> FrameStart(descs, f + 1) == None
  {
    FrameStartCharacterized(descs, f, i);
    var e := FrameEnd(descs, i);
    NoStartsInside(descs, i, e, e + 1);
    assert Starts(descs, i + 1) == Starts(descs, i) + [i];
    assert |Starts(descs, e + 1)| == f + 1;
    if e + 1 < |descs| {
      FrameStartAt(descs, f + 1, e + 1);
    }
  }

  /** No frame starts strictly inside a frame. */
  lemma {:induction false} NoStartsInside(descs: seq<ScopeDesc>, i: nat, e: nat, n: nat)
    requires i < |descs| && HasFrameEnd(descs, i) && e == FrameEnd(descs, i) && i < n <= e + 1
    ensures Starts(descs, n) == Starts(descs, i + 1)
    decreases n - i
  {
    if n > i + 1 {
      NoStartsInside(descs, i, e, n - 1);
      assert descs[n - 2].isInnerScope;
      assert !StartsFrame(descs, n - 1);
    }
  }
}
