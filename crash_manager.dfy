/*
 * The crash manager that the Windows host libraries give a Hermes runtime
 * (`CrashManagerImpl`, written out identically in the shared Node-API host
 * and in the Windows host). It hands memory blocks and custom metadata to
 * Windows Error Reporting (WER) and keeps the callbacks to run when the
 * process crashes. Calls into WER and into the callbacks are modelled as
 * events appended to a log, in the order they are made.
 */
module CrashManager {
  import opened Unicode

  /** WER takes memory blocks of at most 64 KiB (`WER_MAX_MEM_BLOCK_SIZE`,
      64 * 1024). */
  const WerMaxMemBlockSize: nat := 0x1_0000

  /** Wide strings as Windows has them: UTF-16 code units. */
  type WString = seq<CodeUnit>

  /** A C string: its bytes up to, not including, the terminating zero. */
  type CString = s: seq<Byte> | forall i :: 0 <= i < |s| ==> s[i] != 0

  /** A registered crash callback, known only by its identity. */
  datatype Callback = Callback(id: nat)

  /** A call made by the crash manager. */
  datatype Event =
    | RegisterBlock(address: int, size: nat)
    | UnregisterBlock(address: int)
    | RegisterMetadata(key: WString, value: WString)
    | UnregisterMetadata(key: WString)
    | Invoke(callback: Callback, fd: int)

  // ---------------------------------------------------------------------------
  // Memory blocks
  // ---------------------------------------------------------------------------

  /** The first n full-size pieces of a large block. */
  function Pieces(mem: int, n: nat): (r: seq<Event>)
    ensures |r| == n
  {
    seq(n, i requires 0 <= i < n => RegisterBlock(mem + i * WerMaxMemBlockSize, WerMaxMemBlockSize))
  }

  /** The WER registrations `registerMemory` makes: a small block whole; a
      large one as full-size pieces and the remainder, which may be
      empty. */
  function RegisterCalls(mem: int, length: nat): (r: seq<Event>)
    ensures |r| == if length > WerMaxMemBlockSize then length / WerMaxMemBlockSize + 1 else 1
    ensures forall k :: 0 <= k < |r| ==> r[k].RegisterBlock? && r[k].size <= WerMaxMemBlockSize
  {
    if length > WerMaxMemBlockSize then
      var pieceCount := length / WerMaxMemBlockSize;
      Pieces(mem, pieceCount) + [RegisterBlock(mem + pieceCount * WerMaxMemBlockSize, length - pieceCount * WerMaxMemBlockSize)]
    else [RegisterBlock(mem, length)]
  }

  /** The starts of the first n pieces of a large block. */
  function PieceStarts(mem: int, n: nat): (r: seq<Event>)
    ensures |r| == n
  {
    seq(n, i requires 0 <= i < n => UnregisterBlock(mem + i * WerMaxMemBlockSize))
  }

  /** The WER unregistrations `unregisterMemory` makes, given the length
      recorded for a large block, if any. */
  function UnregisterCalls(mem: int, recorded: Option<nat>): seq<Event>
  {
    match recorded
      case Some(length) =>
        var pieceCount := length / WerMaxMemBlockSize;
        PieceStarts(mem, pieceCount) + [UnregisterBlock(mem + pieceCount * WerMaxMemBlockSize)]
      case None => [UnregisterBlock(mem)]
  }

  datatype Option<T> = None | Some(value: T)

  /** The registered blocks tile [mem, mem + length): the first starts at
      mem, each starts where the one before it ends, the last ends at
      mem + length, and none is larger than WER accepts. All but the last
      have the largest size. */
  ghost predicate Tiles(r: seq<Event>, mem: int, length: nat)
  {
    && |r| > 0
    && (forall k :: 0 <= k < |r| ==> r[k].RegisterBlock? && r[k].size <= WerMaxMemBlockSize)
    && r[0].address == mem
    && (forall k :: 0 <= k < |r| - 1 ==> r[k + 1].address == r[k].address + r[k].size)
    && (forall k :: 0 <= k < |r| - 1 ==> r[k].size == WerMaxMemBlockSize)
    && r[|r| - 1].address + r[|r| - 1].size == mem + length
  }

  lemma RegisterCallsTile(mem: int, length: nat)
    ensures Tiles(RegisterCalls(mem, length), mem, length)
    ensures length > WerMaxMemBlockSize ==> |RegisterCalls(mem, length)| == length / WerMaxMemBlockSize + 1
  {
    var r := RegisterCalls(mem, length);
    if length > WerMaxMemBlockSize {
      var n := length / WerMaxMemBlockSize;
      assert n >= 1;
      forall k | 0 <= k < |r| - 1
        ensures r[k + 1].address == r[k].address + r[k].size
      {
        assert r[k] == RegisterBlock(mem + k * WerMaxMemBlockSize, WerMaxMemBlockSize);
        assert (k + 1) * WerMaxMemBlockSize == k * WerMaxMemBlockSize + WerMaxMemBlockSize;
      }
      assert r[0] == RegisterBlock(mem, WerMaxMemBlockSize);
    }
  }

  /** Unregistering a block unregisters exactly the starts of the pieces it
      was registered as, in the same order. */
  lemma UnregisterMatchesRegister(mem: int, length: nat)
    ensures var u := UnregisterCalls(mem, if length > WerMaxMemBlockSize then Some(length) else None);
      var r := RegisterCalls(mem, length);
      && |u| == |r|
      && forall k :: 0 <= k < |u| ==> u[k] == UnregisterBlock(r[k].address)
  {
  }

  // ---------------------------------------------------------------------------
  // Custom metadata
  // ---------------------------------------------------------------------------

  const Colon: CodeUnit := 0x3A
  const Underscore: CodeUnit := 0x5F

  /** `std::replace(begin, end, L':', L'_')`. */
  function ReplaceColons(w: WString): (r: WString)
    ensures |r| == |w| && Colon !in r
    ensures forall i :: 0 <= i < |w| ==> r[i] == if w[i] == Colon then Underscore else w[i]
  {
    seq(|w|, i requires 0 <= i < |w| => if w[i] == Colon then Underscore else w[i])
  }

  /** What WER reads of a wide string through `c_str()`: the code units
      before the first zero. */
  function CStr(w: WString): (c: WString)
    ensures 0 !in c && c <= w && (|c| < |w| ==> w[|c|] == 0)
  {
    if |w| == 0 || w[0] == 0 then []
    else [w[0]] + CStr(w[1..])
  }

  /** The literal "TID". */
  const Tid: WString := [0x54, 0x49, 0x44]

  lemma {:induction false} CStrAppend(a: WString, b: WString)
    requires 0 !in a
    ensures CStr(a + b) == a + CStr(b)
    decreases |a|
  {
    if |a| > 0 {
      assert (a + b)[1..] == a[1..] + b;
      CStrAppend(a[1..], b);
    } else {
      assert a + b == b;
    }
  }

  lemma {:induction false} CStrReplace(w: WString)
    ensures CStr(ReplaceColons(w)) == ReplaceColons(CStr(w))
    decreases |w|
  {
    if |w| > 0 && w[0] != 0 {
      assert ReplaceColons(w)[1..] == ReplaceColons(w[1..]);
      CStrReplace(w[1..]);
    }
  }

  class CrashManagerImpl {
    /** The process's multibyte-to-wide conversion (`mbstowcs_s` under the
        current C locale); None when the bytes do not convert. */
    const convert: seq<Byte> -> Option<WString>
    /** `_largeMemBlocks`: the length of each block registered in pieces. */
    var largeMemBlocks: map<int, nat>
    /** `_callbacks`, ordered by key. */
    var callbacks: map<nat, Callback>
    /** The calls made so far. */
    var log: seq<Event>

    constructor(convert: seq<Byte> -> Option<WString>)
      ensures this.convert == convert
      ensures largeMemBlocks == map[] && callbacks == map[] && log == []
    {
      this.convert := convert;
      largeMemBlocks := map[];
      callbacks := map[];
      log := [];
    }

    /** `registerMemory`: a block larger than WER accepts is recorded and
        registered in pieces; a small one is registered whole. The offset
        of a full piece is computed in 32 bits, as the source has it. */
    method RegisterMemory(mem: int, length: nat)
      modifies this
      ensures largeMemBlocks == if length > WerMaxMemBlockSize then old(largeMemBlocks)[mem := length] else old(largeMemBlocks)
      ensures callbacks == old(callbacks)
      ensures log == old(log) + RegisterCallsAsWritten(mem, length)
    {
      if length > WerMaxMemBlockSize {
        largeMemBlocks := largeMemBlocks[mem := length];
        var pieceCount := length / WerMaxMemBlockSize;
        for i := 0 to pieceCount
          invariant log == old(log) + PiecesAsWritten(mem, i)
          invariant largeMemBlocks == old(largeMemBlocks)[mem := length] && callbacks == old(callbacks)
        {
          log := log + [RegisterBlock(mem + Int32(i * WerMaxMemBlockSize), WerMaxMemBlockSize)];
          assert PiecesAsWritten(mem, i + 1) == PiecesAsWritten(mem, i) + [RegisterBlock(mem + Int32(i * WerMaxMemBlockSize), WerMaxMemBlockSize)];
        }
        log := log + [RegisterBlock(mem + pieceCount * WerMaxMemBlockSize, length - pieceCount * WerMaxMemBlockSize)];
      } else {
        log := log + [RegisterBlock(mem, length)];
      }
    }

    /** `unregisterMemory`: a recorded block is unregistered piece by piece
        and forgotten; any other is unregistered whole. The piece offsets
        are the 32-bit ones `registerMemory` used. */
    method UnregisterMemory(mem: int)
      modifies this
      ensures largeMemBlocks == old(largeMemBlocks) - {mem}
      ensures callbacks == old(callbacks)
      ensures log == old(log) + UnregisterCallsAsWritten(mem, if mem in old(largeMemBlocks) then Some(old(largeMemBlocks)[mem]) else None)
    {
      if mem in largeMemBlocks {
        var pieceCount := largeMemBlocks[mem] / WerMaxMemBlockSize;
        for i := 0 to pieceCount
          invariant log == old(log) + PieceStartsAsWritten(mem, i)
          invariant largeMemBlocks == old(largeMemBlocks) && callbacks == old(callbacks)
        {
          log := log + [UnregisterBlock(mem + Int32(i * WerMaxMemBlockSize))];
          assert PieceStartsAsWritten(mem, i + 1) == PieceStartsAsWritten(mem, i) + [UnregisterBlock(mem + Int32(i * WerMaxMemBlockSize))];
        }
        log := log + [UnregisterBlock(mem + pieceCount * WerMaxMemBlockSize)];
        largeMemBlocks := largeMemBlocks - {mem};
      } else {
        log := log + [UnregisterBlock(mem)];
      }
    }

    /** The private `Utf8ToUtf16`: converts at most the first 64 bytes (the
        longest key WER takes); an empty string, or bytes that do not
        convert, give the empty string. The buffer it returns is sized for
        the converted text, its terminator and one more wchar_t of two
        units, so it ends in three zero units. */
    function Utf8ToUtf16(s: CString): (w: WString)
      ensures |s| == 0 ==> w == []
      ensures CStr(w) == if |s| == 0 || convert(s[..if |s| < 64 then |s| else 64]).None? then []
                         else CStr(convert(s[..if |s| < 64 then |s| else 64]).value)
    {
      var strLength := if |s| < 64 then |s| else 64;
      if strLength == 0 then []
      else match convert(s[..strLength])
        case None => []
        case Some(text) =>
          PaddedCStr(text);
          text + [0, 0, 0]
    }

    /** The key `setContextualCustomData` and `removeContextualCustomData`
        build: "TID", the thread id and the converted key, with every ':'
        replaced by '_'. */
    function ContextualKey(threadId: WString, key: CString): (k: WString)
      ensures |k| == |Tid| + |threadId| + |Utf8ToUtf16(key)| && Colon !in k
    {
      ReplaceColons(Tid + threadId + Utf8ToUtf16(key))
    }

    /** `setCustomData`. */
    method SetCustomData(key: CString, val: CString)
      modifies this
      ensures largeMemBlocks == old(largeMemBlocks) && callbacks == old(callbacks)
      ensures log == old(log) + [RegisterMetadata(CStr(Utf8ToUtf16(key)), CStr(Utf8ToUtf16(val)))]
    {
      var strKey := Utf8ToUtf16(key);
      var strValue := Utf8ToUtf16(val);
      log := log + [RegisterMetadata(CStr(strKey), CStr(strValue))];
    }

    /** `removeCustomData`. */
    method RemoveCustomData(key: CString)
      modifies this
      ensures largeMemBlocks == old(largeMemBlocks) && callbacks == old(callbacks)
      ensures log == old(log) + [UnregisterMetadata(CStr(Utf8ToUtf16(key)))]
    {
      var strKey := Utf8ToUtf16(key);
      log := log + [UnregisterMetadata(CStr(strKey))];
    }

    /** `setContextualCustomData`, on the thread whose id prints as
        `threadId`. */
    method SetContextualCustomData(threadId: WString, key: CString, val: CString)
      modifies this
      ensures largeMemBlocks == old(largeMemBlocks) && callbacks == old(callbacks)
      ensures log == old(log) + [RegisterMetadata(CStr(ContextualKey(threadId, key)), CStr(Utf8ToUtf16(val)))]
    {
      var strKey := ReplaceColons(Tid + threadId + Utf8ToUtf16(key));
      var strValue := Utf8ToUtf16(val);
      log := log + [RegisterMetadata(CStr(strKey), CStr(strValue))];
    }

    /** `removeContextualCustomData`, on the thread whose id prints as
        `threadId`. */
    method RemoveContextualCustomData(threadId: WString, key: CString)
      modifies this
      ensures largeMemBlocks == old(largeMemBlocks) && callbacks == old(callbacks)
      ensures log == old(log) + [UnregisterMetadata(CStr(ContextualKey(threadId, key)))]
    {
      var strKey := ReplaceColons(Tid + threadId + Utf8ToUtf16(key));
      log := log + [UnregisterMetadata(CStr(strKey))];
    }

    /** `registerCallback`: the key is the address `parameterAt` of the
        by-value parameter `cb`, and an entry already held under that key
        stays in place. */
    method RegisterCallback(cb: Callback, parameterAt: nat) returns (key: nat)
      modifies this
      ensures (callbacks, key) == RegisterCallbackAsWritten(old(callbacks), parameterAt, cb)
      ensures largeMemBlocks == old(largeMemBlocks) && log == old(log)
    {
      key := parameterAt;
      if key !in callbacks {
        callbacks := callbacks[key := cb];
      }
    }

    /** `unregisterCallback`. */
    method UnregisterCallback(key: nat)
      modifies this
      ensures callbacks == old(callbacks) - {key}
      ensures largeMemBlocks == old(largeMemBlocks) && log == old(log)
    {
      callbacks := callbacks - {key};
    }

    /** `crashHandler`: runs every callback with the crash file, in key
        order. */
    method CrashHandler(fd: int)
      modifies this
      ensures log == old(log) + Invocations(callbacks, SortedKeys(callbacks.Keys), fd)
      ensures largeMemBlocks == old(largeMemBlocks) && callbacks == old(callbacks)
    {
      var keys := callbacks.Keys;
      ghost var done: seq<nat> := [];
      while keys != {}
        invariant keys <= callbacks.Keys
        invariant done + SortedKeys(keys) == SortedKeys(callbacks.Keys)
        invariant log == old(log) + Invocations(callbacks, done, fd)
        invariant largeMemBlocks == old(largeMemBlocks) && callbacks == old(callbacks)
        decreases |keys|
      {
        var k := LeastKey(keys);
        SortedKeysStep(done, keys, k);
        InvocationsSnoc(callbacks, done, k, fd);
        log := log + [Invoke(callbacks[k], fd)];
        done := done + [k];
        keys := keys - {k};
      }
    }
  }

  /** The zero units padding the converted text are not read by WER. */
  lemma {:induction false} PaddedCStr(text: WString)
    ensures CStr(text + [0, 0, 0]) == CStr(text)
    decreases |text|
  {
    if |text| > 0 && text[0] != 0 {
      assert (text + [0, 0, 0])[1..] == text[1..] + [0, 0, 0];
      PaddedCStr(text[1..]);
    }
  }

  /** ':' never reaches WER in a contextual key, and the zero units that
      pad the converted key do not either: WER sees "TID", the thread id
      and the converted key, each with ':' replaced by '_'. Setting and
      removing the same key on the same thread name the same entry. */
  lemma ContextualKeySeenByWer(m: CrashManagerImpl, threadId: WString, key: CString)
    requires 0 !in threadId
    ensures var seen := CStr(m.ContextualKey(threadId, key));
      && Colon !in seen
      && seen == Tid + ReplaceColons(threadId) + ReplaceColons(CStr(m.Utf8ToUtf16(key)))
  {
    var w := m.Utf8ToUtf16(key);
    var whole := Tid + threadId + w;
    assert ReplaceColons(whole) == Tid + ReplaceColons(threadId) + ReplaceColons(w);
    CStrAppend(Tid + ReplaceColons(threadId), ReplaceColons(w));
    CStrReplace(w);
    assert Tid + ReplaceColons(threadId) + ReplaceColons(w) == (Tid + ReplaceColons(threadId)) + ReplaceColons(w);
  }

  /** `Utf8ToUtf16` reads no more than the first 64 bytes of its input. */
  lemma ConversionReadsAtMost64(m: CrashManagerImpl, s: CString, s': CString)
    requires |s| >= 64 && |s'| >= 64 && s[..64] == s'[..64]
    ensures m.Utf8ToUtf16(s) == m.Utf8ToUtf16(s')
  {
  }

  // ---------------------------------------------------------------------------
  // As written: the piece offsets and the callback keys.
  // ---------------------------------------------------------------------------

  /** A 32-bit signed `int` result, wrapped as two's complement. */
  function Int32(x: int): (r: int)
    ensures -0x8000_0000 <= r < 0x8000_0000 && (r - x) % 0x1_0000_0000 == 0
  {
    (x + 0x8000_0000) % 0x1_0000_0000 - 0x8000_0000
  }

  /** The first n full-size pieces of a large block as `registerMemory`
      computes them: the loop counter is an `int` (`auto i = 0`) and
      `WER_MAX_MEM_BLOCK_SIZE` an `int` constant, so the offset
      `i * WER_MAX_MEM_BLOCK_SIZE` is a 32-bit value. Each piece lies at
      the intended offset modulo 2^32, within 2 GiB of the block start. */
  function PiecesAsWritten(mem: int, n: nat): (r: seq<Event>)
    ensures |r| == n
    ensures forall k :: 0 <= k < n ==>
      && r[k].RegisterBlock? && r[k].size == WerMaxMemBlockSize
      && (r[k].address - (mem + k * WerMaxMemBlockSize)) % 0x1_0000_0000 == 0
      && -0x8000_0000 <= r[k].address - mem < 0x8000_0000
  {
    seq(n, i requires 0 <= i < n => RegisterBlock(mem + Int32(i * WerMaxMemBlockSize), WerMaxMemBlockSize))
  }

  /** The registrations of `registerMemory` as written: the full pieces at
      32-bit offsets, the remainder at its `size_t` offset. They are the
      intended registrations, with every address the same modulo 2^32. */
  function RegisterCallsAsWritten(mem: int, length: nat): (r: seq<Event>)
    ensures |r| == |RegisterCalls(mem, length)|
    ensures forall k :: 0 <= k < |r| ==>
      && r[k].RegisterBlock?
      && r[k].size == RegisterCalls(mem, length)[k].size
      && (r[k].address - RegisterCalls(mem, length)[k].address) % 0x1_0000_0000 == 0
  {
    if length > WerMaxMemBlockSize then
      var pieceCount := length / WerMaxMemBlockSize;
      PiecesAsWritten(mem, pieceCount)
        + [RegisterBlock(mem + pieceCount * WerMaxMemBlockSize, length - pieceCount * WerMaxMemBlockSize)]
    else [RegisterBlock(mem, length)]
  }

  /** The starts of the first n pieces of a large block as
      `unregisterMemory` computes them, with the same 32-bit offsets. */
  function PieceStartsAsWritten(mem: int, n: nat): (r: seq<Event>)
    ensures |r| == n
    ensures forall k :: 0 <= k < n ==> r[k].UnregisterBlock? && (r[k].address - (mem + k * WerMaxMemBlockSize)) % 0x1_0000_0000 == 0
  {
    seq(n, i requires 0 <= i < n => UnregisterBlock(mem + Int32(i * WerMaxMemBlockSize)))
  }

  /** The WER unregistrations `unregisterMemory` makes as written, given
      the length recorded for a large block, if any. */
  function UnregisterCallsAsWritten(mem: int, recorded: Option<nat>): (u: seq<Event>)
    ensures recorded.None? ==> u == [UnregisterBlock(mem)]
    ensures recorded.Some? ==> |u| == recorded.value / WerMaxMemBlockSize + 1
    ensures forall k :: 0 <= k < |u| ==> u[k].UnregisterBlock?
  {
    match recorded
      case Some(length) =>
        var pieceCount := length / WerMaxMemBlockSize;
        PieceStartsAsWritten(mem, pieceCount) + [UnregisterBlock(mem + pieceCount * WerMaxMemBlockSize)]
      case None => [UnregisterBlock(mem)]
  }

  /** As written too, unregistering a block unregisters exactly the
      addresses it was registered at, in the same order: both loops wrap
      the same way. */
  lemma UnregisterMatchesRegisterAsWritten(mem: int, length: nat)
    ensures var u := UnregisterCallsAsWritten(mem, if length > WerMaxMemBlockSize then Some(length) else None);
      var r := RegisterCallsAsWritten(mem, length);
      && |u| == |r|
      && forall k :: 0 <= k < |u| ==> u[k] == UnregisterBlock(r[k].address)
  {
    var u := UnregisterCallsAsWritten(mem, if length > WerMaxMemBlockSize then Some(length) else None);
    var r := RegisterCallsAsWritten(mem, length);
    if length > WerMaxMemBlockSize {
      var n := length / WerMaxMemBlockSize;
      forall k | 0 <= k < |u|
        ensures u[k] == UnregisterBlock(r[k].address)
      {
        if k < n {
          assert u[k] == PieceStartsAsWritten(mem, n)[k];
          assert r[k] == PiecesAsWritten(mem, n)[k];
        }
      }
    }
  }

  /** For a block of 2 GiB and 64 KiB, piece 32768 lands 2 GiB below the
      block, and the pieces no longer tile it, while the corrected
      registrations do. Below 2 GiB both agree. */
  lemma LargeBlockOffsetOverflows()
    ensures var length := 0x8001_0000;
      && RegisterCallsAsWritten(0, length)[0x8000] == RegisterBlock(-0x8000_0000, WerMaxMemBlockSize)
      && !Tiles(RegisterCallsAsWritten(0, length), 0, length)
      && Tiles(RegisterCalls(0, length), 0, length)
  {
    var length := 0x8001_0000;
    var r := RegisterCallsAsWritten(0, length);
    assert r[0x8000] == RegisterBlock(Int32(0x8000 * WerMaxMemBlockSize), WerMaxMemBlockSize);
    assert r[0x7FFF] == RegisterBlock(Int32(0x7FFF * WerMaxMemBlockSize), WerMaxMemBlockSize);
    assert r[0x8000].address != r[0x7FFF].address + r[0x7FFF].size;
    RegisterCallsTile(0, length);
  }

  /** Below 2 GiB the 32-bit offsets are exact, for registration and
      unregistration alike. */
  lemma SmallBlocksUnaffected(mem: int, length: nat)
    requires length < 0x8000_0000
    ensures RegisterCallsAsWritten(mem, length) == RegisterCalls(mem, length)
    ensures forall recorded: nat {:trigger Some(recorded)} :: recorded < 0x8000_0000 ==>
      UnregisterCallsAsWritten(mem, Some(recorded)) == UnregisterCalls(mem, Some(recorded))
  {
    if length > WerMaxMemBlockSize {
      var n := length / WerMaxMemBlockSize;
      forall i | 0 <= i < n
        ensures Int32(i * WerMaxMemBlockSize) == i * WerMaxMemBlockSize
      {
        assert i * WerMaxMemBlockSize < 0x8000_0000;
      }
      assert PiecesAsWritten(mem, n) == Pieces(mem, n);
    }
    forall recorded: nat | recorded < 0x8000_0000
      ensures UnregisterCallsAsWritten(mem, Some(recorded)) == UnregisterCalls(mem, Some(recorded))
    {
      var n := recorded / WerMaxMemBlockSize;
      forall i | 0 <= i < n
        ensures Int32(i * WerMaxMemBlockSize) == i * WerMaxMemBlockSize
      {
        assert i * WerMaxMemBlockSize < 0x8000_0000;
      }
      assert PieceStartsAsWritten(mem, n) == PieceStarts(mem, n);
    }
  }

  /** `registerCallback` as written: the key is the address of the
      by-value parameter `cb` in this call's frame, and `std::map::insert`
      leaves an existing entry with that key in place. */
  function RegisterCallbackAsWritten(callbacks: map<nat, Callback>, parameterAt: nat, cb: Callback): (r: (map<nat, Callback>, nat))
    ensures r.1 == parameterAt && r.1 in r.0
    ensures r.0.Keys == callbacks.Keys + {parameterAt}
    ensures forall k :: k in callbacks ==> k in r.0 && r.0[k] == callbacks[k]
    ensures r.0[r.1] == cb <==> parameterAt !in callbacks || callbacks[parameterAt] == cb
  {
    (if parameterAt in callbacks then callbacks else callbacks[parameterAt := cb], parameterAt)
  }

  /** Two registrations whose parameter sits at the same stack address, as
      for two calls from the same caller frame, get the same key: the
      second callback is never stored, the crash handler runs only the
      first, and unregistering the second key drops the first. */
  lemma CallbackKeyCollides(a: Callback, b: Callback, at: nat, fd: int)
    requires a != b
    ensures var (c1, k1) := RegisterCallbackAsWritten(map[], at, a);
      var (c2, k2) := RegisterCallbackAsWritten(c1, at, b);
      && k1 == k2
      && c2 == map[at := a]
      && Invocations(c2, SortedKeys(c2.Keys), fd) == [Invoke(a, fd)]
      && c2 - {k2} == map[]
  {
    var c2 := map[at := a];
    assert c2.Keys == {at};
    SortedKeysFirst({at}, at);
    assert {at} - {at} == {};
  }

  /** A registration keyed as intended: by a key no live registration
      holds, here the next value of a counter that stays above every key
      in use. The callback is stored under a fresh key; the others stay. */
  function RegisterCallbackCounted(callbacks: map<nat, Callback>, nextKey: nat, cb: Callback): (r: (map<nat, Callback>, nat, nat))
    requires forall k :: k in callbacks ==> k < nextKey
    ensures r.1 !in callbacks && r.0 == callbacks[r.1 := cb]
    ensures forall k :: k in r.0 ==> k < r.2
  {
    (callbacks[nextKey := cb], nextKey, nextKey + 1)
  }

  /** Registered as intended, two callbacks get distinct keys, the crash
      handler runs both, and unregistering the second keeps the first. */
  lemma CountedKeysDistinct(a: Callback, b: Callback, fd: int)
    ensures var (c1, k1, n1) := RegisterCallbackCounted(map[], 0, a);
      var (c2, k2, n2) := RegisterCallbackCounted(c1, n1, b);
      && k1 != k2
      && c2 == map[k1 := a, k2 := b]
      && Invocations(c2, SortedKeys(c2.Keys), fd) == [Invoke(a, fd), Invoke(b, fd)]
      && c2 - {k2} == map[k1 := a]
  {
    var c2 := map[0 := a, 1 := b];
    assert c2.Keys == {0, 1};
    SortedKeysFirst({0, 1}, 0);
    assert {0, 1} - {0} == {1};
    SortedKeysFirst({1}, 1);
    assert {1} - {1} == {};
    assert c2 - {1} == map[0 := a];
  }

  // ---------------------------------------------------------------------------
  // Callback order
  // ---------------------------------------------------------------------------

  lemma MinExists(s: set<nat>)
    requires s != {}
    ensures exists m :: m in s && forall j :: j in s ==> m <= j
  {
    var x :| x in s;
    MinAtOrBelow(s, x);
  }

  /** Descending from an element, one reaches the least. */
  lemma {:induction false} MinAtOrBelow(s: set<nat>, x: nat)
    requires x in s
    ensures exists m :: m in s && forall j :: j in s ==> m <= j
    decreases x
  {
    if exists y :: y in s && y < x {
      var y :| y in s && y < x;
      MinAtOrBelow(s, y);
    } else {
      assert forall j :: j in s ==> x <= j;
    }
  }

  /** The least element of a non-empty set. */
  ghost function MinOf(s: set<nat>): (m: nat)
    requires s != {}
    ensures m in s && forall j :: j in s ==> m <= j
  {
    MinExists(s);
    var m :| m in s && forall j :: j in s ==> m <= j;
    m
  }

  /** The keys of a set in increasing order. */
  ghost function SortedKeys(s: set<nat>): seq<nat>
    decreases |s|
  {
    if s == {} then []
    else [MinOf(s)] + SortedKeys(s - {MinOf(s)})
  }

  lemma SortedKeysFirst(s: set<nat>, m: nat)
    requires m in s && forall j :: j in s ==> m <= j
    ensures SortedKeys(s) == [m] + SortedKeys(s - {m})
  {
    assert MinOf(s) <= m && m <= MinOf(s);
  }

  /** The next key a `std::map` iteration visits: the least one left. */
  method LeastKey(keys: set<nat>) returns (k: nat)
    requires keys != {}
    ensures k == MinOf(keys)
  {
    MinExists(keys);
    k :| k in keys && forall j :: j in keys ==> k <= j;
    assert MinOf(keys) <= k && k <= MinOf(keys);
  }

  /** Visiting the least key moves it from the keys left to the keys
      done. */
  lemma SortedKeysStep(done: seq<nat>, keys: set<nat>, k: nat)
    requires keys != {} && k == MinOf(keys)
    ensures (done + [k]) + SortedKeys(keys - {k}) == done + SortedKeys(keys)
    ensures |keys - {k}| < |keys|
  {
    assert SortedKeys(keys) == [k] + SortedKeys(keys - {k});
  }

  /** The keys in increasing order are exactly the set's, each once. */
  lemma SortedKeysMeaning(s: set<nat>)
    ensures var r := SortedKeys(s);
      && |r| == |s|
      && (forall x :: x in r <==> x in s)
      && (forall i, j :: 0 <= i < j < |r| ==> r[i] < r[j])
  {
    SortedKeysLength(s);
    SortedKeysElements(s);
    SortedKeysIncreasing(s);
  }

  lemma {:induction false} SortedKeysLength(s: set<nat>)
    ensures |SortedKeys(s)| == |s|
    decreases |s|
  {
    if s != {} {
      SortedKeysLength(s - {MinOf(s)});
    }
  }

  lemma {:induction false} SortedKeysElements(s: set<nat>)
    ensures forall x :: x in SortedKeys(s) <==> x in s
    decreases |s|
  {
    if s != {} {
      var m := MinOf(s);
      SortedKeysElements(s - {m});
      assert SortedKeys(s) == [m] + SortedKeys(s - {m});
    }
  }

  lemma {:induction false} SortedKeysIncreasing(s: set<nat>)
    ensures forall i, j :: 0 <= i < j < |SortedKeys(s)| ==> SortedKeys(s)[i] < SortedKeys(s)[j]
    decreases |s|
  {
    if s != {} {
      var m := MinOf(s);
      var rest := SortedKeys(s - {m});
      SortedKeysIncreasing(s - {m});
      SortedKeysElements(s - {m});
      assert SortedKeys(s) == [m] + rest;
      forall i | 0 <= i < |rest|
        ensures m < rest[i]
      {
        assert rest[i] in s - {m};
      }
      var r := [m] + rest;
      forall i, j | 0 <= i < j < |r|
        ensures r[i] < r[j]
      {
        if i == 0 {
          assert r[j] == rest[j - 1] && m < rest[j - 1];
        } else {
          assert r[i] == rest[i - 1] && r[j] == rest[j - 1];
        }
      }
    }
  }

  /** The callback invocations for the given keys, in their order. */
  function Invocations(callbacks: map<nat, Callback>, keys: seq<nat>, fd: int): (r: seq<Event>)
    ensures |r| == |keys|
  {
    seq(|keys|, i requires 0 <= i < |keys| => Invoke(if keys[i] in callbacks then callbacks[keys[i]] else Callback(0), fd))
  }

  lemma InvocationsSnoc(callbacks: map<nat, Callback>, keys: seq<nat>, k: nat, fd: int)
    requires k in callbacks
    ensures Invocations(callbacks, keys + [k], fd) == Invocations(callbacks, keys, fd) + [Invoke(callbacks[k], fd)]
  {
  }

  /** The crash handler calls each registered callback exactly once, with
      the crash file, in increasing key order. */
  lemma CrashHandlerCallsEachOnce(callbacks: map<nat, Callback>, fd: int)
    ensures var keys := SortedKeys(callbacks.Keys);
      var r := Invocations(callbacks, keys, fd);
      && |r| == |callbacks.Keys|
      && (forall key :: key in keys <==> key in callbacks)
      && (forall i, j :: 0 <= i < j < |keys| ==> keys[i] < keys[j])
      && (forall i :: 0 <= i < |r| ==> keys[i] in callbacks && r[i] == Invoke(callbacks[keys[i]], fd))
  {
    SortedKeysMeaning(callbacks.Keys);
  }
}
