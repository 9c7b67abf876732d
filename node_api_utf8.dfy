/*
 * The UTF-16 to UTF-8 conversion that napi_get_value_string_utf8 uses: a
 * length pass and a conversion pass into a caller-sized buffer, both
 * replacing every unpaired surrogate with U+FFFD.
 */
module NodeApiUtf8 {

  import opened Unicode

  // ---------------------------------------------------------------------------
  // Reference definition: the code points a UTF-16 string stands for.
  // ---------------------------------------------------------------------------

  /** The code point that starts at index `i` and the index after it. An
      unpaired surrogate of either kind stands for U+FFFD. */
  function NextCodePointAt(input: seq<CodeUnit>, i: int): (r: (int, int))
    requires 0 <= i < |input|
    ensures IsScalarValue(r.0)
    ensures i < r.1 <= |input|
  {
    var c := input[i];
    if IsLowSurrogate(c) then (ReplacementCharacter, i + 1)
    else if IsHighSurrogate(c) then
      if i + 1 == |input| || !IsLowSurrogate(input[i + 1]) then (ReplacementCharacter, i + 1)
      else (SurrogatePairToCodePoint(c, input[i + 1]), i + 2)
    else (c, i + 1)
  }

  /** A unit that is not a surrogate stands for itself; a high surrogate
      followed by a low one stands for the pair's code point; any other
      surrogate stands for U+FFFD. */
  lemma NextCodePointMeaning(input: seq<CodeUnit>, i: int)
    requires 0 <= i < |input|
    ensures var cp, next := NextCodePointAt(input, i).0, NextCodePointAt(input, i).1;
      && (next == i + 2 <==> i + 1 < |input| && IsHighSurrogate(input[i]) && IsLowSurrogate(input[i + 1]))
      && (next == i + 2 ==> cp == SurrogatePairToCodePoint(input[i], input[i + 1]))
      && (!IsHighSurrogate(input[i]) && !IsLowSurrogate(input[i]) ==> cp == input[i] && next == i + 1)
      && (next == i + 1 && (IsHighSurrogate(input[i]) || IsLowSurrogate(input[i])) ==> cp == ReplacementCharacter)
  {
  }

  /** The code points of `input[i..]`, with unpaired surrogates replaced. */
  function CodePointsFrom(input: seq<CodeUnit>, i: int): (cps: seq<int>)
    requires 0 <= i <= |input|
    ensures forall k :: 0 <= k < |cps| ==> IsScalarValue(cps[k])
    ensures |cps| <= |input| - i
    decreases |input| - i
  {
    if i == |input| then []
    else
      var r := NextCodePointAt(input, i);
      [r.0] + CodePointsFrom(input, r.1)
  }

  /** The UTF-8 text of `input[i..]`. */
  function Utf8From(input: seq<CodeUnit>, i: int): seq<Byte>
    requires 0 <= i <= |input|
    decreases |input| - i
  {
    if i == |input| then []
    else
      var r := NextCodePointAt(input, i);
      EncodeUTF8(r.0) + Utf8From(input, r.1)
  }

  /** The longest run of whole code-point encodings of `input[i..]`, taken from
      the front, that fits in `room` bytes. */
  function FittingFrom(input: seq<CodeUnit>, i: int, room: int): seq<Byte>
    requires 0 <= i <= |input|
    decreases |input| - i
  {
    if i == |input| then []
    else
      var r := NextCodePointAt(input, i);
      var e := EncodeUTF8(r.0);
      if |e| > room then [] else e + FittingFrom(input, r.1, room - |e|)
  }

  // ---------------------------------------------------------------------------
  // Properties of the reference definition.
  // ---------------------------------------------------------------------------

  /** The UTF-8 text is the encoding of the code points, one after the other. */
  lemma {:induction false} Utf8FromEncodesCodePoints(input: seq<CodeUnit>, i: int)
    requires 0 <= i <= |input|
    ensures Utf8From(input, i) == EncodeAllUTF8(CodePointsFrom(input, i))
    decreases |input| - i
  {
    if i < |input| {
      var cp, next := NextCodePointAt(input, i).0, NextCodePointAt(input, i).1;
      Utf8FromEncodesCodePoints(input, next);
      var cps := CodePointsFrom(input, i);
      assert cps[0] == cp && cps[1..] == CodePointsFrom(input, next);
    }
  }

  /** What is written never exceeds the room. */
  lemma {:induction false} FittingFits(input: seq<CodeUnit>, i: int, room: int)
    requires 0 <= i <= |input| && 0 <= room
    ensures |FittingFrom(input, i, room)| <= room
    decreases |input| - i
  {
    if i < |input| {
      var cp, next := NextCodePointAt(input, i).0, NextCodePointAt(input, i).1;
      if |EncodeUTF8(cp)| <= room {
        FittingFits(input, next, room - |EncodeUTF8(cp)|);
      }
    }
  }

  /** With room for the whole text, everything is written. */
  lemma {:induction false} FittingWhole(input: seq<CodeUnit>, i: int, room: int)
    requires 0 <= i <= |input|
    requires |Utf8From(input, i)| <= room
    ensures FittingFrom(input, i, room) == Utf8From(input, i)
    decreases |input| - i
  {
    if i < |input| {
      var cp, next := NextCodePointAt(input, i).0, NextCodePointAt(input, i).1;
      FittingWhole(input, next, room - |EncodeUTF8(cp)|);
    }
  }

  /** The index of the first code point that `FittingFrom` leaves out, or the
      end of the input. */
  function FittingEnd(input: seq<CodeUnit>, i: int, room: int): (j: int)
    requires 0 <= i <= |input|
    ensures i <= j <= |input|
    decreases |input| - i
  {
    if i == |input| then i
    else
      var r := NextCodePointAt(input, i);
      var e := EncodeUTF8(r.0);
      if |e| > room then i else FittingEnd(input, r.1, room - |e|)
  }

  /** What is written is the text up to a code-point boundary: no code point
      is ever written in part. */
  lemma {:induction false} FittingIsPrefix(input: seq<CodeUnit>, i: int, room: int)
    requires 0 <= i <= |input|
    ensures FittingFrom(input, i, room) + Utf8From(input, FittingEnd(input, i, room)) == Utf8From(input, i)
    decreases |input| - i
  {
    if i < |input| {
      var r := NextCodePointAt(input, i);
      var e := EncodeUTF8(r.0);
      if |e| <= room {
        FittingIsPrefix(input, r.1, room - |e|);
        var rest, tail := FittingFrom(input, r.1, room - |e|), Utf8From(input, FittingEnd(input, r.1, room - |e|));
        assert FittingFrom(input, i, room) == e + rest;
        assert FittingEnd(input, i, room) == FittingEnd(input, r.1, room - |e|);
        assert Utf8From(input, i) == e + Utf8From(input, r.1);
        ConcatAssociates(e, rest, tail);
      } else {
        assert FittingFrom(input, i, room) == [];
        assert FittingEnd(input, i, room) == i;
        EmptyConcat(Utf8From(input, i));
      }
    }
  }

  lemma ConcatAssociates(a: seq<Byte>, b: seq<Byte>, c: seq<Byte>)
    ensures (a + b) + c == a + (b + c)
  {
  }

  lemma EmptyConcat(a: seq<Byte>)
    ensures [] + a == a
  {
  }

  /** The text stops short of the whole input only where the next code point
      does not fit in the room that is left. */
  lemma {:induction false} FittingStopsWhenFull(input: seq<CodeUnit>, i: int, room: int)
    requires 0 <= i <= |input|
    ensures var j := FittingEnd(input, i, room);
      j < |input| ==> |FittingFrom(input, i, room)| + |EncodeUTF8(NextCodePointAt(input, j).0)| > room
    decreases |input| - i
  {
    if i < |input| {
      var r := NextCodePointAt(input, i);
      var e := EncodeUTF8(r.0);
      if |e| <= room {
        FittingStopsWhenFull(input, r.1, room - |e|);
      }
    }
  }

  /** A string with no unpaired surrogates keeps every code point: decoding
      undoes the UTF-16 encoder of RFC 2781, section 2.1. */
  lemma {:induction false} CodePointsOfEncodedUTF16(cps: seq<int>)
    requires forall k :: 0 <= k < |cps| ==> IsCodePoint(cps[k]) && !IsHighSurrogate(cps[k]) && !IsLowSurrogate(cps[k])
    ensures CodePointsFrom(EncodeAllUTF16(cps), 0) == cps
    decreases |cps|
  {
    if |cps| > 0 {
      assert IsScalarValue(cps[0]);
      var head := EncodeUTF16(cps[0]);
      var tail := EncodeAllUTF16(cps[1..]);
      var input := EncodeAllUTF16(cps);
      assert input == head + tail;
      CodePointsOfEncodedUTF16(cps[1..]);
      assert NextCodePointAt(input, 0) == (cps[0], |head|);
      CodePointsShift(head, tail);
    }
  }

  /** Decoding after a prefix that ends on a code-point boundary does not look
      back at the prefix. */
  lemma {:induction false} CodePointsShift(head: seq<CodeUnit>, tail: seq<CodeUnit>)
    ensures CodePointsFrom(head + tail, |head|) == CodePointsFrom(tail, 0)
  {
    CodePointsShiftFrom(head, tail, 0);
  }

  lemma {:induction false} CodePointsShiftFrom(head: seq<CodeUnit>, tail: seq<CodeUnit>, i: int)
    requires 0 <= i <= |tail|
    ensures CodePointsFrom(head + tail, |head| + i) == CodePointsFrom(tail, i)
    decreases |tail| - i
  {
    if i < |tail| {
      var input := head + tail;
      assert input[|head| + i] == tail[i];
      assert |head| + i + 1 < |input| ==> input[|head| + i + 1] == tail[i + 1];
      var cp, next := NextCodePointAt(tail, i).0, NextCodePointAt(tail, i).1;
      assert NextCodePointAt(input, |head| + i) == (cp, |head| + next);
      CodePointsShiftFrom(head, tail, next);
    }
  }

  // ---------------------------------------------------------------------------
  // The two passes.
  // ---------------------------------------------------------------------------

  /** The byte length of the UTF-8 text, counting 3 bytes for each U+FFFD. */
  method Utf8LengthWithReplacements(input: seq<CodeUnit>) returns (length: int)
    ensures length == |Utf8From(input, 0)|
  {
    length := 0;
    var cur := 0;
    while cur < |input|
      invariant 0 <= cur <= |input|
      invariant length + |Utf8From(input, cur)| == |Utf8From(input, 0)|
      decreases |input| - cur
    {
      ghost var cur0 := cur;
      var c := input[cur];
      cur := cur + 1;
      if c <= 0x7F {
        length := length + 1;
      } else if c <= 0x7FF {
        length := length + 2;
      } else if IsLowSurrogate(c) {
        length := length + 3;
      } else if IsHighSurrogate(c) {
        if cur == |input| || !IsLowSurrogate(input[cur]) {
          length := length + 3;
        } else {
          cur := cur + 1;
          length := length + 4;
        }
      } else {
        length := length + 3;
      }
      assert NextCodePointAt(input, cur0).1 == cur;
    }
  }

  /** Writes the UTF-8 text into `buf[..bufSize]`, stopping at the first code
      point whose encoding does not fit whole, and returns the bytes written. */
  method ConvertUTF16ToUTF8WithReplacements(input: seq<CodeUnit>, buf: array<Byte>, bufSize: int)
    returns (written: int)
    requires 0 <= bufSize <= buf.Length
    modifies buf
    ensures 0 <= written <= bufSize
    ensures buf[..written] == FittingFrom(input, 0, bufSize)
    ensures forall k :: written <= k < buf.Length ==> buf[k] == old(buf[k])
  {
    written := 0;
    var cur := 0;
    ghost var out: seq<Byte> := [];
    while cur < |input| && written < bufSize
      invariant 0 <= cur <= |input| && 0 <= written <= bufSize
      invariant |out| == written && buf[..written] == out
      invariant RunFrom(input, cur, out, bufSize) == RunFrom(input, 0, [], bufSize)
      invariant forall k :: written <= k < buf.Length ==> buf[k] == old(buf[k])
      decreases |input| - cur
    {
      var next, bytes, fits := ConvertCodePointAt(input, cur, buf, written, bufSize);
      if !fits {
        break;
      }
      out := out + bytes;
      cur, written := next, written + |bytes|;
    }
    RunFromMeaning(input, 0, [], bufSize);
  }

  /** The bytes the conversion loop has written once it runs out of input or
      of room, starting from index `i` with `out` already written. */
  ghost function RunFrom(input: seq<CodeUnit>, i: int, out: seq<Byte>, bufSize: int): seq<Byte>
    requires 0 <= i <= |input|
    decreases |input| - i
  {
    if i == |input| || |out| >= bufSize then out
    else
      var r := NextCodePointAt(input, i);
      var e := EncodeUTF8(r.0);
      if |out| + |e| <= bufSize then RunFrom(input, r.1, out + e, bufSize) else out
  }

  /** The loop writes exactly the fitting text after what it has written. */
  lemma {:induction false} RunFromMeaning(input: seq<CodeUnit>, i: int, out: seq<Byte>, bufSize: int)
    requires 0 <= i <= |input|
    ensures RunFrom(input, i, out, bufSize) == out + FittingFrom(input, i, bufSize - |out|)
    decreases |input| - i
  {
    if i == |input| || |out| >= bufSize {
      FittingNoRoomOrInput(input, i, bufSize - |out|);
      assert RunFrom(input, i, out, bufSize) == out;
      EmptyConcatRight(out);
    } else {
      var r := NextCodePointAt(input, i);
      var e := EncodeUTF8(r.0);
      var room := bufSize - |out|;
      if |out| + |e| <= bufSize {
        RunFromMeaning(input, r.1, out + e, bufSize);
        assert RunFrom(input, i, out, bufSize) == RunFrom(input, r.1, out + e, bufSize);
        assert FittingFrom(input, i, room) == e + FittingFrom(input, r.1, room - |e|);
        ConcatAssociates(out, e, FittingFrom(input, r.1, room - |e|));
      } else {
        assert RunFrom(input, i, out, bufSize) == out;
        assert FittingFrom(input, i, room) == [];
        EmptyConcatRight(out);
      }
    }
  }

  lemma EmptyConcatRight(a: seq<Byte>)
    ensures a + [] == a
  {
  }

  /** At the end of the input, or with no room left, nothing fits. */
  lemma FittingNoRoomOrInput(input: seq<CodeUnit>, i: int, room: int)
    requires 0 <= i <= |input| && (i == |input| || room <= 0)
    ensures FittingFrom(input, i, room) == []
  {
  }

  /** One turn of the conversion loop: decodes the code point at `cur` and, if
      its encoding fits whole before `bufSize`, writes it at `written`. */
  method ConvertCodePointAt(input: seq<CodeUnit>, cur: int, buf: array<Byte>, written: int, bufSize: int)
    returns (next: int, bytes: seq<Byte>, fits: bool)
    requires 0 <= cur < |input| && 0 <= written < bufSize <= buf.Length
    modifies buf
    ensures var r := NextCodePointAt(input, cur);
      next == r.1 && bytes == EncodeUTF8(r.0) && fits == (written + |bytes| <= bufSize)
    ensures fits ==> buf[..written + |bytes|] == old(buf[..written]) + bytes
    ensures !fits ==> buf[..written] == old(buf[..written])
    ensures forall k :: 0 <= k < buf.Length && !(written <= k < written + |bytes| && fits) ==> buf[k] == old(buf[k])
  {
    var c := input[cur];
    if c <= 0x7F {
      buf[written] := c;
      next, bytes, fits := cur + 1, [c], true;
      assert buf[..written + 1] == old(buf[..written]) + [c];
      return;
    }
    var c32;
    c32, next := DecodeNonASCII(input, cur);
    bytes := EncodeUTF8(c32);
    fits := written + |bytes| <= bufSize;
    if fits {
      CopyBytes(buf, written, bytes);
    }
  }

  /** The branches of the conversion loop that pick the code point for a unit
      above 0x7F at `at`; returns it and the index after it. */
  method DecodeNonASCII(input: seq<CodeUnit>, at: int) returns (c32: int, cur: int)
    requires 0 <= at < |input|
    ensures (c32, cur) == NextCodePointAt(input, at)
  {
    var c := input[at];
    cur := at + 1;
    if c <= 0x7FF {
      c32 := c;
    } else if IsLowSurrogate(c) {
      c32 := ReplacementCharacter;
    } else if IsHighSurrogate(c) {
      if cur == |input| || !IsLowSurrogate(input[cur]) {
        c32 := ReplacementCharacter;
      } else {
        c32 := SurrogatePairToCodePoint(c, input[cur]);
        cur := cur + 1;
      }
    } else {
      c32 := c;
    }
  }

  /** Copies `bytes` into `buf` at `at`, leaving the rest of `buf` as it was. */
  method CopyBytes(buf: array<Byte>, at: int, bytes: seq<Byte>)
    requires 0 <= at && at + |bytes| <= buf.Length
    modifies buf
    ensures buf[..at + |bytes|] == old(buf[..at]) + bytes
    ensures forall k :: 0 <= k < buf.Length && !(at <= k < at + |bytes|) ==> buf[k] == old(buf[k])
  {
    forall k | 0 <= k < |bytes| {
      buf[at + k] := bytes[k];
    }
    assert buf[..at + |bytes|] == old(buf[..at]) + bytes;
  }

  /** The ASCII fast path: copies at most `maxCharacters` bytes as they are. */
  method CopyASCIIToUTF8(input: seq<Byte>, buf: array<Byte>, maxCharacters: int) returns (size: int)
    requires 0 <= maxCharacters
    requires (if |input| < maxCharacters then |input| else maxCharacters) <= buf.Length
    modifies buf
    ensures size == (if |input| < maxCharacters then |input| else maxCharacters)
    ensures buf[..size] == input[..size]
    ensures forall k :: size <= k < buf.Length ==> buf[k] == old(buf[k])
  {
    size := if |input| < maxCharacters then |input| else maxCharacters;
    CopyBytes(buf, 0, input[..size]);
  }
}
