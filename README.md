# Hermes for Windows: a verified model of the engine's self-contained core

This project models, in Dafny, the sequential and deterministic parts of the
Hermes JavaScript engine as built for Windows, and proves what the C++ and C
code promises about them. Each source file becomes one or more flat Dafny
modules. State that the code updates in place becomes a class. Each method's
contract gives the new state, in most classes as a specification function of
the old state. Methods follow the code as written, including where a defect is
listed under Findings; the corrected behaviour is a separate reference
function. The two exceptions, `HermesDebugger.Debugger.SetBreakpointEnabled`
and `HermesWin.CreateRuntime`, follow the corrected behaviour and are named
under "Left out". Pure code becomes functions and lemmas.

- **Node-API environment bookkeeping** (`hermes_node_api.cpp`):
  - the chunked stable-address stack (`NodeApiStack`);
  - the intrusive circular linked list (`NodeApiList`);
  - the sorted `uint32_t` set (`NodeApiOrderedSet`);
  - the reference-count state machine of `NodeApiReference` (`NodeApiReference`);
  - the handle-scope stack with escapable scopes (`NodeApiScopes`);
  - the per-environment tagged data (`NodeApiEnvData`);
  - UTF-16 to UTF-8 conversion with U+FFFD replacement (`NodeApiUtf8`).
- **JSI helpers** (`jsi.cpp`):
  - UTF-8 decoding and UTF-16 encoding (`JsiUtf`, `Unicode`);
  - the code-unit dump, `hexDigit` and `isAllASCII`;
  - `Value::strictEquals` and the per-runtime data map (`JsiRuntime`).
- **The JavaScript lexer** (`JSLexer.cpp`), over a zero-terminated byte buffer
  with a cursor:
  - hex, braced and octal escapes;
  - string and template scanning with cooked and raw values;
  - reserved-word demotion outside strict mode;
  - longest-match punctuators;
  - number-literal radix detection.
  The specification functions live in `JSLexerSpec`, `JSLexerTemplate`,
  `JSLexerTokens` and `JSLexerNumber`. The class `JSLexer.Lexer` holds the
  cursor and the storage buffers.
- **The dtoa big-integer kernel** (`dtoa.c`, the 32-bit-word `Pack_32` branch):
  - the `Balloc`/`Bfree` free-list allocator (`DtoaAlloc`);
  - `hi0bits` and `lo0bits` (`DtoaBits`);
  - `multadd`, `i2b`, `mult`, `lshift`, `cmp`, `diff`, `quorem` and `match` on
    word arrays (`DtoaBigint`, `DtoaLoops`), proved against the value of the
    words (`DtoaWords`, `DtoaWordOps`).
- **The debugger's breakpoint tables** (`Debugger.cpp`):
  - user breakpoints;
  - breakpoint locations with patching and unpatching;
  - temporary and restoration breakpoints;
  - the pending restore;
  - the scope-descriptor queries.
  These live in `DebuggerTables`, `DebuggerLaws`, `DebuggerScopes` and the
  class `HermesDebugger.Debugger`.
- **The Windows calendar decomposition** (`PlatformUnicodeWinGlob.cpp`):
  `FLeap`, `DayFromYear`, `GetYmdFromTv` and `YMD::ToSystemTime` on integer
  millisecond time values (`Calendar`).
- **Intl on Windows** (`PlatformIntlWindows.cpp`):
  - `CanonicalizeLocaleList` with the ICU normalisation as a parameter;
  - the empty-tag check;
  - `Collator::compare` and `resolvedOptions` (`Intl`).
- **The WER crash manager** (`hermes_api.cpp`; `hermes_win.cpp` holds the same
  code) (`CrashManager`):
  - memory registration in WER-sized pieces;
  - contextual metadata keys;
  - the callback registry.
  WER calls are recorded as a sequence of events.
- **The two host libraries** (`hermes_api.cpp` as `HermesApi`, `hermes_win.cpp`
  as `HermesWin`):
  - the configuration objects and their setters;
  - the mapping from configuration to runtime settings and compile flags;
  - the null-pointer checks of the C entry points.
  A C out-pointer is an `OutParam.Cell`, and a null out-pointer is a null cell.

Integers are unbounded in Dafny. Where the source's width matters, the wrap
is written out:
- 32-bit words in dtoa;
- the `uint32_t` reference count;
- the `int` piece offset of the crash manager, in `RegisterMemory` and `UnregisterMemory`.

## Model

| member | source | states |
|---|---|---|
| NodeApiStack.RequiredChunkCount | API/hermes_node_api/hermes_node_api.cpp:560-569 | at least one chunk is kept, the chunks cover every item, and a spare chunk is kept until the last chunk in use is half full |
| NodeApiStack.SlotsDiffer | API/hermes_node_api/hermes_node_api.cpp:542-545 | two different indices are mapped to different (chunk, offset) slots |
| NodeApiStack.RequiredChunkCountGrows | API/hermes_node_api/hermes_node_api.cpp:502-512 | one more item never needs fewer chunks, and the chunk that the new item opens is one of those required |
| NodeApiStack.StableAddressStack.constructor | API/hermes_node_api/hermes_node_api.cpp:496-499 | a new stack is empty and owns exactly one chunk |
| NodeApiStack.StableAddressStack.Emplace | API/hermes_node_api/hermes_node_api.cpp:502-512 | the contents grow by exactly the pushed value on top, earlier items are unchanged, and the chunks already held stay in place |
| NodeApiStack.StableAddressStack.AddChunk | API/hermes_node_api/hermes_node_api.cpp:506-508 | a fresh chunk is appended after the existing ones when every chunk is full; the contents are unchanged |
| NodeApiStack.StableAddressStack.StoreAbove | API/hermes_node_api/hermes_node_api.cpp:509-511 | the value is written into the first free slot and becomes the new top, without moving any chunk |
| NodeApiStack.StableAddressStack.Pop | API/hermes_node_api/hermes_node_api.cpp:514-518 | requires a non-empty stack; removes exactly the top item and keeps a prefix of the chunks: as many as the remaining items need, or all when there are fewer |
| NodeApiStack.StableAddressStack.Resize | API/hermes_node_api/hermes_node_api.cpp:520-526 | requires the new size to be at most the current one; keeps exactly the first newSize items; when it shrinks, keeps as many leading chunks as those items need, or all when there are fewer, and otherwise leaves the chunks alone |
| NodeApiStack.StableAddressStack.ReduceChunkCount | API/hermes_node_api/hermes_node_api.cpp:560-569 | drops only trailing chunks: exactly as many remain as the contents need (at least one), or all of them when there are fewer, and the chunks still cover the contents |
| NodeApiStack.StableAddressStack.Size | API/hermes_node_api/hermes_node_api.cpp:528-530 | the size is the number of items on the stack |
| NodeApiStack.StableAddressStack.Empty | API/hermes_node_api/hermes_node_api.cpp:532-534 | true exactly when the stack holds no item |
| NodeApiStack.StableAddressStack.At | API/hermes_node_api/hermes_node_api.cpp:542-545 | requires an index below the size; returns the item at that position in the stack |
| NodeApiStack.StableAddressStack.Top | API/hermes_node_api/hermes_node_api.cpp:536-540 | requires a non-empty stack; returns the most recently pushed item still present |
| NodeApiStack.StableAddressStack.ForEach | API/hermes_node_api/hermes_node_api.cpp:547-557 | visits exactly the items, bottom to top, chunk by chunk |
| NodeApiList.NodesDiffer | API/hermes_node_api/hermes_node_api.cpp:582-588 | in the ring of a list without repeats, different positions hold different items, except that both ends are the sentinel `head_` |
| NodeApiList.RemoveAtKeepsDistinct | API/hermes_node_api/hermes_node_api.cpp:596-603 | unlinking one item leaves the others distinct, free of the sentinel, and exactly the old members minus that item |
| NodeApiList.InsertKeepsDistinct | API/hermes_node_api/hermes_node_api.cpp:610-619 | linking an item that is not in the list keeps the items distinct and free of the sentinel |
| NodeApiList.InsertMembers | API/hermes_node_api/hermes_node_api.cpp:610-619 | linking an item adds exactly that item to the members |
| NodeApiList.UnlinkKeepsNext | API/hermes_node_api/hermes_node_api.cpp:596-603 | after `prev_->next_ = next_` every remaining ring position keeps its successor, and the predecessor of the unlinked item now points past it |
| NodeApiList.UnlinkKeepsPrev | API/hermes_node_api/hermes_node_api.cpp:596-603 | after `next_->prev_ = prev_` every remaining ring position keeps its predecessor |
| NodeApiList.LinkKeepsNext | API/hermes_node_api/hermes_node_api.cpp:614-618 | linking a new item after a position gives it that position's old successor and keeps every other successor link |
| NodeApiList.LinkKeepsPrev | API/hermes_node_api/hermes_node_api.cpp:614-618 | linking a new item gives it the position as predecessor and makes it the predecessor of the old successor |
| NodeApiList.LinkKeepsLinked | API/hermes_node_api/hermes_node_api.cpp:614-618 | after linking, the addresses carrying links are the sentinel, the old items and the new item |
| NodeApiList.LinkKeepsRing | API/hermes_node_api/hermes_node_api.cpp:610-619 | linking after a position yields the ring of the old items with the new item inserted right after that position |
| NodeApiList.LinkedList.constructor | API/hermes_node_api/hermes_node_api.cpp:582-588 | a new list is the sentinel linked to itself, with no items |
| NodeApiList.LinkedList.Unlink | API/hermes_node_api/hermes_node_api.cpp:596-603 | the item leaves the list (nothing happens if it was not linked), the other items keep their order, and the item's links are cleared |
| NodeApiList.LinkedList.LinkNext | API/hermes_node_api/hermes_node_api.cpp:610-619 | the item is first unlinked if linked, then sits right after `at`; the other items keep their order |
| NodeApiList.LinkedList.LinkUnlinked | API/hermes_node_api/hermes_node_api.cpp:614-618 | an unlinked item is placed right after `at` |
| NodeApiList.LinkedList.PushFront | API/hermes_node_api/hermes_node_api.cpp:645-647 | the item becomes the first item, removed from any earlier position |
| NodeApiList.LinkedList.PushBack | API/hermes_node_api/hermes_node_api.cpp:649-651 | the item becomes the last item, removed from any earlier position |
| NodeApiList.LinkedList.ForEach | API/hermes_node_api/hermes_node_api.cpp:662-670 | visits exactly the items from first to last, reading each successor before the visit |
| NodeApiList.IsEmptyAsWrittenHoldsForOneItem | API/hermes_node_api/hermes_node_api.cpp:625-627 | the emptiness test as written (`head_.next_ == head_.prev_`) holds for a list of exactly one item |
| NodeApiList.IsEmptyAsWrittenMeaning | API/hermes_node_api/hermes_node_api.cpp:625-627 | the test as written holds exactly for lists of at most one item |
| NodeApiList.IsEmptyMeaning | API/hermes_node_api/hermes_node_api.cpp:625-627 | the corrected test (the sentinel follows itself) holds exactly for the empty list |
| NodeApiList.LinkedList.IsEmptyAsWritten | API/hermes_node_api/hermes_node_api.cpp:625-627 | the test as written holds exactly when the first and the last node are the same node |
| NodeApiOrderedSet.LowerBound | API/hermes_node_api/hermes_node_api.cpp:2979 | on strictly ascending items, returns the position before which every item is smaller and from which every item is at least the value |
| NodeApiOrderedSet.LowerBoundFindsMember | API/hermes_node_api/hermes_node_api.cpp:2979-2982 | the value is present exactly when the item at its lower bound equals it |
| NodeApiOrderedSet.InsertAtLowerBoundKeepsAscending | API/hermes_node_api/hermes_node_api.cpp:2979-2984 | placing an absent value at its lower bound keeps the items strictly ascending |
| NodeApiOrderedSet.OrderedSet.Insert | API/hermes_node_api/hermes_node_api.cpp:2978-2985 | returns true exactly when the value was absent; then the items gain exactly that value and stay strictly ascending; a duplicate leaves the set unchanged |
| NodeApiReference.Create | API/hermes_node_api/hermes_node_api.cpp:2559-2571 | a new reference refers to its value, holds it strongly when the initial count is positive and does not keep it alive at count zero |
| NodeApiReference.IncKeepsReferent | API/hermes_node_api/hermes_node_api.cpp:2483-2494 | counting up never changes what the reference refers to; it returns zero exactly for empty storage or when the 32-bit count wraps; below the wrap it keeps the count-zero rule |
| NodeApiReference.DecKeepsReferent | API/hermes_node_api/hermes_node_api.cpp:2496-2506 | counting down never changes the referent, returns the new count, and at count zero the value is no longer kept alive |
| NodeApiReference.IncDecRoundTrip | API/hermes_node_api/hermes_node_api.cpp:2483-2506 | one increment followed by one decrement restores a live reference exactly |
| NodeApiReference.IncWrapsAtLimit | API/hermes_node_api/hermes_node_api.cpp:2490 | at count 2^32 - 1 an increment wraps to zero while the value is still held strongly |
| NodeApiReference.ValueOfMeaning | API/hermes_node_api/hermes_node_api.cpp:2516-2522 | a reference yields nothing exactly when its storage is empty, and otherwise yields its value while the collector has not taken it |
| NodeApiReference.Reference.constructor | API/hermes_node_api/hermes_node_api.cpp:2559-2571 | the new state is `Create` of the value and initial count |
| NodeApiReference.Reference.IncRefCount | API/hermes_node_api/hermes_node_api.cpp:2483-2494 | the new state and the returned count are those of `Inc` on the old state |
| NodeApiReference.Reference.DecRefCount | API/hermes_node_api/hermes_node_api.cpp:2496-2506 | the new state and the returned count are those of `Dec` on the old state |
| NodeApiReference.Reference.ConvertToValueStorage | API/hermes_node_api/hermes_node_api.cpp:2649-2674 | weak storage becomes strong storage of the object, or empty if it was collected |
| NodeApiReference.Reference.ConvertToWeakRootStorage | API/hermes_node_api/hermes_node_api.cpp:2676-2712 | strong storage of an object becomes weak; a value that cannot be held weakly is reset; empty or weak storage is left as it is |
| NodeApiReference.Reference.ResetStorage | API/hermes_node_api/hermes_node_api.cpp:2593-2602 | the storage becomes empty and the count is unchanged |
| NodeApiOrderedSet.OrderedSet.constructor | API/hermes_node_api/hermes_node_api.cpp:2987-2988 | a new set is empty and its items are strictly ascending |
| NodeApiScopes.Close | API/hermes_node_api/hermes_node_api.cpp:6350-6364 | succeeds exactly for the innermost open scope, and then truncates the value stack to the size saved at open and pops the scope; otherwise nothing changes |
| NodeApiScopes.PushAll | API/hermes_node_api/hermes_node_api.cpp:6424-6428 | pushing values appends them in order above the existing values and leaves the scope stack alone |
| NodeApiScopes.WellNestedAllowsResize | API/hermes_node_api/hermes_node_api.cpp:6361 | while saved sizes are nested, closing any scope only ever shrinks the value stack, as `resize` demands |
| NodeApiScopes.OpenKeepsWellNested | API/hermes_node_api/hermes_node_api.cpp:6341-6348 | opening a scope keeps the saved sizes nested within the value stack |
| NodeApiScopes.OpenEscapableKeepsWellNested | API/hermes_node_api/hermes_node_api.cpp:6366-6375 | opening an escapable scope (slot, sentinel, scope) and pushing a value both keep the nesting |
| NodeApiScopes.CloseKeepsWellNested | API/hermes_node_api/hermes_node_api.cpp:6350-6364 | closing a scope keeps the nesting |
| NodeApiScopes.OpenPushCloseRestores | API/hermes_node_api/hermes_node_api.cpp:6341-6364 | opening a scope, pushing any values and closing it succeeds and restores the state before the open |
| NodeApiScopes.EscapeRoundTrip | API/hermes_node_api/hermes_node_api.cpp:6366-6422 | opening an escapable scope, pushing values, escaping one and closing leaves the state before plus exactly the escaped value, and the escape returns that value's slot |
| NodeApiScopes.EscapeOnlyOnce | API/hermes_node_api/hermes_node_api.cpp:6413-6414 | a second escape through the same scope returns `napi_escape_called_twice`, whatever was pushed in between |
| NodeApiScopes.EscapeWritesBelowSentinel | API/hermes_node_api/hermes_node_api.cpp:6405-6421 | a successful escape writes the value into the slot just below the sentinel, marks the sentinel used and changes no other slot |
| NodeApiScopes.ValueScopes.PushValue | API/hermes_node_api/hermes_node_api.cpp:6424-6428 | the state becomes `Push` of the old state |
| NodeApiScopes.ValueScopes.OpenValueScope | API/hermes_node_api/hermes_node_api.cpp:6341-6348 | status, handle and new state are those of `Open` |
| NodeApiScopes.ValueScopes.CloseValueScope | API/hermes_node_api/hermes_node_api.cpp:6350-6364 | status and new state are those of `Close` |
| NodeApiScopes.ValueScopes.OpenEscapableValueScope | API/hermes_node_api/hermes_node_api.cpp:6366-6375 | status, handle and new state are those of `OpenEscapable` |
| NodeApiScopes.ValueScopes.CloseEscapableValueScope | API/hermes_node_api/hermes_node_api.cpp:6377-6395 | status and new state are those of `CloseEscapable` |
| NodeApiScopes.ValueScopes.EscapeValue | API/hermes_node_api/hermes_node_api.cpp:6397-6422 | status, result and new state are those of `Escape` |
| NodeApiEnvData.SetData | API/hermes_node_api/hermes_node_api.cpp:7316-7320 | non-null data is added only under an absent tag and never overwrites; null data erases the tag; other tags are untouched |
| NodeApiEnvData.SetThenLookup | API/hermes_node_api/hermes_node_api.cpp:7306-7340 | a lookup after a store yields the first non-null data stored under the tag, null after an erase, and is unchanged for other tags |
| NodeApiEnvData.LookupNullMeansAbsent | API/hermes_node_api/hermes_node_api.cpp:7337-7338 | a lookup yields null exactly when the tag is absent |
| NodeApiEnvData.Environment.Root | API/hermes_node_api/hermes_node_api.cpp:7311-7314 | the environment that forwarding reaches: the last ancestor, or the environment itself when it has no parent |
| NodeApiEnvData.Environment.constructor | API/hermes_node_api/hermes_node_api.cpp:7311-7314 | a module environment forwards to the same root as its parent and starts with no data |
| NodeApiEnvData.SetEnvironmentData | API/hermes_node_api/hermes_node_api.cpp:7306-7323 | a null environment is `napi_invalid_arg`; otherwise the root environment's map becomes `SetData` of its old map |
| NodeApiEnvData.GetEnvironmentData | API/hermes_node_api/hermes_node_api.cpp:7325-7340 | a null environment or result pointer is `napi_invalid_arg`; otherwise the data is the root's lookup of the tag |
| NodeApiScopes.ValueScopes.constructor | API/hermes_node_api/hermes_node_api.cpp:2050-2053 | a new environment has no values and no open scope |
| NodeApiUtf8.NextCodePointAt | API/hermes_node_api/hermes_node_api.cpp:3459-3478 | reading at a position yields a Unicode scalar value and advances by at least one unit without passing the end |
| NodeApiUtf8.NextCodePointMeaning | API/hermes_node_api/hermes_node_api.cpp:3459-3478 | two units are consumed exactly for a high surrogate followed by a low one, and they combine into the pair's code point; a non-surrogate is itself; a lone surrogate becomes U+FFFD |
| NodeApiUtf8.CodePointsFrom | API/hermes_node_api/hermes_node_api.cpp:3417-3440 | the code points read from a position are scalar values, no more than the units left |
| NodeApiUtf8.Utf8FromEncodesCodePoints | API/hermes_node_api/hermes_node_api.cpp:3480-3483 | the bytes produced for the whole input are the UTF-8 encodings of its code points, one after another |
| NodeApiUtf8.FittingFits | API/hermes_node_api/hermes_node_api.cpp:3485-3490 | the converted output never exceeds the buffer size |
| NodeApiUtf8.FittingWhole | API/hermes_node_api/hermes_node_api.cpp:3485-3490 | when the buffer is large enough, the converted output is the full encoding, whose length `utf8LengthWithReplacements` computes |
| NodeApiUtf8.FittingEnd | API/hermes_node_api/hermes_node_api.cpp:3452-3490 | the position where conversion stops lies between the start and the end of the input |
| NodeApiUtf8.FittingIsPrefix | API/hermes_node_api/hermes_node_api.cpp:3485-3490 | the converted output followed by the encoding of the rest of the input is the full encoding, so conversion emits a prefix and no partial code point |
| NodeApiUtf8.FittingStopsWhenFull | API/hermes_node_api/hermes_node_api.cpp:3485-3490 | conversion stops before the end of the input only when the next code point's encoding would not fit |
| NodeApiUtf8.CodePointsOfEncodedUTF16 | API/hermes_node_api/hermes_node_api.cpp:3459-3478 | reading back well-formed UTF-16 yields the code points it encodes, so no replacement happens on valid input |
| NodeApiUtf8.Utf8LengthWithReplacements | API/hermes_node_api/hermes_node_api.cpp:3415-3444 | the length is that of the full encoding: 1, 2 or 3 bytes per unit, 4 per valid surrogate pair and 3 per lone surrogate |
| NodeApiUtf8.ConvertUTF16ToUTF8WithReplacements | API/hermes_node_api/hermes_node_api.cpp:3446-3494 | writes at most bufSize bytes, exactly the longest prefix of whole code-point encodings that fits, and leaves the rest of the buffer alone |
| NodeApiUtf8.RunFromMeaning | API/hermes_node_api/hermes_node_api.cpp:3452-3490 | the loop's output from any point is what it has written followed by the fitting conversion of the rest into the room left |
| NodeApiUtf8.ConvertCodePointAt | API/hermes_node_api/hermes_node_api.cpp:3456-3490 | one turn of the loop: reads one code point, encodes it, and copies the bytes only when they fit |
| NodeApiUtf8.DecodeNonASCII | API/hermes_node_api/hermes_node_api.cpp:3465-3478 | the code point and next position are those of `NextCodePointAt` |
| NodeApiUtf8.CopyBytes | API/hermes_node_api/hermes_node_api.cpp:3486-3487 | copies the bytes at the given position and changes nothing else in the buffer |
| NodeApiUtf8.CopyASCIIToUTF8 | API/hermes_node_api/hermes_node_api.cpp:3405-3413 | copies min(input size, maxCharacters) characters unchanged and returns that count |
| Unicode.SurrogatePairToCodePoint | API/hermes_node_api/hermes_node_api.cpp:3474 | a high surrogate followed by a low surrogate combine into a supplementary code point, between 0x10000 and 0x10FFFF |
| Unicode.EncodeUTF8 | API/hermes_node_api/hermes_node_api.cpp:3480-3483 | a code point is encoded in as many bytes as its UTF-8 width |
| Unicode.EncodeUTF8Shape | API/hermes_node_api/hermes_node_api.cpp:3480-3483 | the encoding has a lead byte announcing its length (as in section 3 of RFC 3629) and continuation bytes after it |
| Unicode.EncodeAllUTF8Append | API/hermes_node_api/hermes_node_api.cpp:3452-3490 | encoding code points one after another is concatenation |
| Unicode.EncodeUTF16 | API/jsi/jsi/jsi.cpp:204-214 | one unit below 0x10000; otherwise a high surrogate then a low surrogate that recombine into the code point |
| JsiUtf.DecodeUTF8AsWritten | API/jsi/jsi/jsi.cpp:136-201 | the decoder as written yields a value of at most 0x10FFFF and advances one to four bytes |
| JsiUtf.DecodeUTF8 | API/jsi/jsi/jsi.cpp:136-201 | the corrected decoder always yields a Unicode scalar value |
| JsiUtf.DecodeUTF8Bounds | API/jsi/jsi/jsi.cpp:136-201 | the decoder as written advances between one and four bytes without passing the end and yields a value of at most 0x10FFFF, so `convertUTF8ToUTF16` terminates |
| JsiUtf.DecodeUTF8AsWrittenLetsSurrogateThrough | API/jsi/jsi/jsi.cpp:155-170 | the three bytes ED A0 80 decode as written to the lone surrogate 0xD800, while the corrected decoder yields U+FFFD |
| JsiUtf.DecodeTwoBytes | API/jsi/jsi/jsi.cpp:144-154 | a well-formed two-byte sequence decodes to its value and advances two bytes |
| JsiUtf.DecodeThreeBytes | API/jsi/jsi/jsi.cpp:155-170 | a well-formed, not overlong three-byte sequence decodes to its value and advances three bytes |
| JsiUtf.DecodeFourBytes | API/jsi/jsi/jsi.cpp:171-195 | a well-formed four-byte sequence for a code point above 0xFFFF and at most 0x10FFFF decodes to it and advances four bytes |
| JsiUtf.DecodeAsWrittenEncode | API/jsi/jsi/jsi.cpp:136-201 | the decoder as written inverts the UTF-8 encoding of every code point up to 0x10FFFF |
| JsiUtf.DecodeEncodeUTF8 | API/jsi/jsi/jsi.cpp:136-201 | the corrected decoder inverts the UTF-8 encoding of every scalar value |
| JsiUtf.DecodeAllFrom | API/jsi/jsi/jsi.cpp:219-228 | decoding repeatedly from a position with the decoder as written yields code points of at most 0x10FFFF, at most one per remaining byte |
| JsiUtf.DecodeAllOfEncoded | API/jsi/jsi/jsi.cpp:219-228 | decoding, as written, the encoding of any code points up to 0x10FFFF, surrogates included, yields them back |
| JsiUtf.DecodeAllFromStep | API/jsi/jsi/jsi.cpp:223-226 | the decoded sequence is the first code point followed by what decodes after it |
| JsiUtf.ConvertFromMeaning | API/jsi/jsi/jsi.cpp:219-228 | the loop's output is what it has emitted followed by the UTF-16 encoding of every code point decoded from the rest |
| JsiUtf.ConvertUTF8ToUTF16 | API/jsi/jsi/jsi.cpp:219-228 | the result is the UTF-16 encoding of the code points the decoder as written reads, surrogates passed through as units of the same value |
| JsiUtf.DecodeUTF8Step | API/jsi/jsi/jsi.cpp:136-201 | one decoding step returns the code point and next position of the decoder as written |
| JsiUtf.ConvertRoundTrip | API/jsi/jsi/jsi.cpp:219-228 | converting the UTF-8 encoding of any code points up to 0x10FFFF gives their UTF-16 encoding |
| JsiUtf.ConvertLetsSurrogateThrough | API/jsi/jsi/jsi.cpp:219-228 | converting the bytes ED A0 80 yields the lone surrogate unit 0xD800 |
| JsiUtf.HexDigit | API/jsi/jsi/jsi.cpp:233-235 | a value below 16 becomes a digit or an upper-case letter A-F |
| JsiUtf.HexDigitRoundTrip | API/jsi/jsi/jsi.cpp:233-235 | the hexadecimal value of the digit produced is the value given |
| JsiUtf.IsAllASCII | API/jsi/jsi/jsi.cpp:239-245 | true exactly when every unit is at most 0x7F |
| JsiUtf.CodeUnitEscape | API/jsi/jsi/jsi.cpp:258-265 | each unit is written as six characters |
| JsiUtf.CodeUnitEscapeExpressesUnit | API/jsi/jsi/jsi.cpp:258-265 | the six characters are a backslash, `u` and four hexadecimal digits whose value is the unit |
| JsiUtf.EscapesOfAt | API/jsi/jsi/jsi.cpp:254-266 | the escape of unit j occupies characters 6j to 6j+5 of the body |
| JsiUtf.Utf16CodeUnitString | API/jsi/jsi/jsi.cpp:249-270 | the result has length 6n+2 |
| JsiUtf.GetUtf16CodeUnitString | API/jsi/jsi/jsi.cpp:249-270 | the loop builds exactly the quoted string of the units' escapes |
| JsiUtf.WriteEscape | API/jsi/jsi/jsi.cpp:258-265 | writes the unit's six escape characters at the position and nothing else |
| JsiUtf.CreateStringFromUtf16 | API/jsi/jsi/jsi.cpp:390-400 | the ASCII path is taken exactly when every unit is at most 0x7F, and then carries the units unchanged; otherwise the code-unit string is evaluated |
| JsiRuntime.StrictEquals | API/jsi/jsi/jsi.cpp:640-670 | values of different kinds are never equal; for undefined, null, booleans and numbers equality implies the two values are the same, and a value of those kinds equals itself unless it is NaN |
| JsiRuntime.StrictEqualsMeaning | API/jsi/jsi/jsi.cpp:640-670 | values of different kinds are never equal; two undefined or two null values are equal; booleans compare by value; numbers compare as doubles (NaN equal to nothing); symbols, big integers, strings and objects are compared by the runtime |
| JsiRuntime.StrictEqualsSymmetric | API/jsi/jsi/jsi.cpp:640-670 | when the runtime's comparison is symmetric, so is strict equality |
| JsiRuntime.StrictEqualsReflexive | API/jsi/jsi/jsi.cpp:640-670 | when the runtime's comparison is reflexive, every value except NaN equals itself |
| JsiRuntime.SetThenGet | API/jsi/jsi/jsi.cpp:469-523 | after storing, a lookup of the pair yields the new data and other pairs are unchanged; the first store for a runtime installs the clean-up object; storing over an existing uuid calls the old deleter on the old data first |
| JsiRuntime.GetAbsentIsNull | API/jsi/jsi/jsi.cpp:512-523 | a lookup of an absent runtime or uuid yields null |
| JsiRuntime.RuntimeDataGlobal.constructor | API/jsi/jsi/jsi.cpp:469-473 | the global map starts empty and nothing has happened yet |
| JsiRuntime.RuntimeDataGlobal.SetRuntimeData | API/jsi/jsi/jsi.cpp:469-510 | the new map and the events appended are those of `SetData` |
| JsiRuntime.RuntimeDataGlobal.GetRuntimeData | API/jsi/jsi/jsi.cpp:512-523 | returns `GetData` of the map |
| JsiRuntime.RuntimeDataGlobal.RemoveRuntimeData | API/jsi/jsi/jsi.cpp:58-75 | the runtime's entry is erased, earlier events are kept, and the new events are one deleter call per UUID of the entry, on that UUID's data, in some order of the UUIDs, with no other call |
| JsiRuntime.FreesEachUUID | API/jsi/jsi/jsi.cpp:69-72 | two different UUIDs get their deleter calls at two different places among the events, so data stored under two UUIDs is freed twice |
| JSLexerSpec.HexDigitOfMeaning | lib/Parser/JSLexer.cpp:1208-1219 | the digit value read by `consumeHex` (digits, then letters lower-cased with `| 32`) agrees with the hexadecimal value of the character |
| JSLexerSpec.DigitValue | lib/Parser/JSLexer.cpp:1208-1219 | a digit's value is below the radix, or -1 for a character that is not a digit |
| JSLexerSpec.DigitRun | lib/Parser/JSLexer.cpp:1207-1228 | the run of digits read is at most n long, consists of digits only, and stops at a non-digit when shorter than n |
| JSLexerSpec.NumberBound | lib/Parser/JSLexer.cpp:1198-1200 | a value read from len digits of radix 8 or 16 is below radix^len |
| JSLexerSpec.DigitRunInside | lib/Parser/JSLexer.cpp:1207-1228 | the digit run never passes the end of the buffer |
| JSLexerSpec.BraceEnd | lib/Parser/JSLexer.cpp:1231-1303 | finds the first `}` from a position, or the end of the buffer |
| JSLexerSpec.ScanHexMeaning | lib/Parser/JSLexer.cpp:1204-1229 | `consumeHex(n)` succeeds exactly when the next n characters are hex digits (either case), then consumes them and returns their value (below 16^n); otherwise it stops at the first non-hex character |
| JSLexerSpec.HexDigitsMeaning | lib/Parser/JSLexer.cpp:1208-1219 | all n characters are hex digits exactly when the digit run is n long |
| JSLexerSpec.SmallNumberKept | lib/Parser/JSLexer.cpp:1225 | two or four hex digits never overflow the 32-bit accumulator |
| JSLexerSpec.ScanHexReadsEscape | lib/Parser/JSLexer.cpp:1204-1229 | reading back the four digits of a `\uXXXX` escape written by `getUtf16CodeUnitString` yields the code unit |
| JSLexerSpec.FourHexDigits | lib/Parser/JSLexer.cpp:1225 | the accumulated value of four hex digits is the positional sum of their values |
| JSLexerSpec.ScanBracedMeaning | lib/Parser/JSLexer.cpp:1231-1303 | `consumeBracedCodePoint` always advances, consumes the closing `}` when there is one, succeeds exactly for a non-empty all-hex body closed by `}`, and a success is at most 0x10FFFF |
| JSLexerSpec.BraceEndUnique | lib/Parser/JSLexer.cpp:1231-1303 | the first closing brace is unique |
| JSLexerSpec.ScanUnicodeEscapeBound | lib/Parser/JSLexer.cpp:1034-1101 | a `\u` escape always advances and a success is a code point up to 0x10FFFF inside the buffer |
| JSLexerSpec.OctalEscapeFitsByte | lib/Parser/JSLexer.cpp:1186-1202 | a legacy octal escape reads 1 to 3 digits when the first is 0-3 and 1 to 2 when it is 4-7, and its value is at most 255 |
| JSLexerSpec.OctalRunValue | lib/Parser/JSLexer.cpp:1197-1199 | the octal value of such a run fits in a byte |
| JSLexerSpec.StringStepAdvances | lib/Parser/JSLexer.cpp:1852-1990 | one turn of the string scanner stays within the buffer and advances unless it stops |
| JSLexerSpec.StringEscapeUnicodeInside | lib/Parser/JSLexer.cpp:1928-1931 | a `\u` escape in a string ends inside the buffer |
| JSLexerSpec.StringEscapes | lib/Parser/JSLexer.cpp:1859-1948 | `\b \f \n \r \t \v` give 8, 12, 10, 13, 9, 11 and quote or backslash escapes give themselves; escaped LF, CR, CR LF, U+2028 and U+2029 contribute nothing (section 11.8.4 of ECMAScript 2015); an octal escape gives one value up to 255 |
| JSLexerSpec.ScanStringEnds | lib/Parser/JSLexer.cpp:1842-1990 | without new errors, a scanned string ends right after its closing quote; the scan never passes the buffer |
| JSLexerSpec.StringStopsAtQuote | lib/Parser/JSLexer.cpp:1853-1855 | the only error-free stop is at the closing quote, which is consumed |
| JSLexerTemplate.Trv | lib/Parser/JSLexer.cpp:2019-2028 | the template raw value of a character is never CR, and is the character itself for anything but CR |
| JSLexerTemplate.TemplateStepAdvances | lib/Parser/JSLexer.cpp:2031-2187 | one turn of the template scanner stays within the buffer and advances unless it stops |
| JSLexerTemplate.TemplateScanStep | lib/Parser/JSLexer.cpp:2031-2187 | the scan from a position is one turn followed by the scan from where the turn ends |
| JSLexerTemplate.KindOf | lib/Parser/JSLexer.cpp:2224-2244 | the token kind is no-substitution, head, middle or tail exactly by (opened by a backquote or not) x (closed by a backquote or not) |
| JSLexerTemplate.TemplateEnds | lib/Parser/JSLexer.cpp:2031-2041 | without new errors a template piece ends right after a backquote (tail) or after `${`; a NotEscapeSequence once seen stays seen |
| JSLexerTemplate.TemplateStopsAtCloser | lib/Parser/JSLexer.cpp:2032-2040 | an error-free stop consumes exactly the backquote or the `${` |
| JSLexerTemplate.NotEscapeSequences | lib/Parser/JSLexer.cpp:2089-2143 | `\1`-`\9` and `\0` before a digit are NotEscapeSequences; `\0` otherwise cooks to 0; `\x` and `\u` are NotEscapeSequences exactly when their digits are malformed, and then `\u` keeps only its two characters in the raw value |
| JSLexerTemplate.RawHasNoCarriageReturn | lib/Parser/JSLexer.cpp:2148-2204 | the raw value never holds a CR: CR and CR LF are stored as LF (section 11.8.6 of ECMAScript 2015) |
| JSLexerTemplate.TemplateHexAt | lib/Parser/JSLexer.cpp:2116-2125 | a `\x` escape cooks to its value, keeps its characters in the raw value, and marks a NotEscapeSequence when malformed |
| JSLexerTemplate.TemplateUnicodeAt | lib/Parser/JSLexer.cpp:2128-2143 | a `\u` escape cooks to its code point or, when malformed, is a NotEscapeSequence that consumes only `\u` |
| JSLexerTemplate.StepRawHasNoCarriageReturn | lib/Parser/JSLexer.cpp:2194-2205 | one turn never adds CR to the raw value |
| JSLexerTemplate.BracedHasNoCarriageReturn | lib/Parser/JSLexer.cpp:1231-1303 | a well-formed braced code point holds no CR |
| JSLexerTemplate.HexRunHasNoCarriageReturn | lib/Parser/JSLexer.cpp:1204-1229 | a run of hex digits holds no CR |
| JSLexerTemplate.NoEscapeCookedIsRaw | lib/Parser/JSLexer.cpp:2194-2215 | without backslashes, the cooked value equals the raw value and no NotEscapeSequence is seen |
| JSLexerTemplate.ScanTemplateMeaning | lib/Parser/JSLexer.cpp:1992-2246 | the cooked value is null exactly when a NotEscapeSequence was seen; an error-free head ends at `${` and a no-substitution or tail token at a backquote |
| JSLexerTokens.PunctuatorLongestMatch | lib/Parser/JSLexer.cpp:252-576 | the punctuator produced is spelled at the cursor and no punctuator spelled there is longer, except that `?.` is not produced before a digit; no punctuator is produced only for `/` and for `.` before a digit |
| JSLexerTokens.PunctuatorLength | lib/Parser/JSLexer.cpp:252-576 | every punctuator is one to four characters long, as `>>>=` is |
| JSLexerTokens.PunctuatorSpelled | lib/Parser/JSLexer.cpp:252-576 | a punctuator chosen from the next four characters is a punctuator spelled by them |
| JSLexerTokens.LongestOf | lib/Parser/JSLexer.cpp:352-375 | among punctuators spelled by the next characters, the one chosen is the longest, with the `?.`-before-digit exception |
| JSLexerTokens.ScanReservedWord | lib/Parser/JSLexer.cpp:1729-1751 | a reserved-word result names the word scanned |
| JSLexerTokens.ReservedWordMeaning | lib/Parser/JSLexer.cpp:1729-1751 | a word is reserved exactly when it is in the table and, outside strict mode, not one of implements, interface, package, private, protected, public, static and yield (section 11.6.2.2 of ECMAScript 2015) |
| JSLexerTokens.StrictModeReservesMore | lib/Parser/JSLexer.cpp:1733-1748 | strict mode reserves every word non-strict mode does, and they differ exactly on the future reserved words in the table |
| JSLexerNumber.RunEnd | lib/Parser/JSLexer.cpp:1488-1496 | the digit run ends at the first character that is not a digit of the radix or a separator |
| JSLexerNumber.Exponent | lib/Parser/JSLexer.cpp:1531-1544 | the exponent part makes the number real and keeps radix and prefix facts |
| JSLexerNumber.Fraction | lib/Parser/JSLexer.cpp:1515-1529 | the fraction part makes the number real and keeps radix and prefix facts |
| JSLexerNumber.Integer | lib/Parser/JSLexer.cpp:1488-1513 | the integer part keeps radix and prefix facts, and a 0x/0o/0b literal never becomes real |
| JSLexerNumber.ScanNumber | lib/Parser/JSLexer.cpp:1448-1544 | a number consumes at least one character and its digits start inside it |
| JSLexerNumber.LowerCaseLetter | lib/Parser/JSLexer.cpp:1464-1475 | `c | 32` equals a lower-case letter exactly for that letter in either case |
| JSLexerNumber.RadixFollowsPrefix | lib/Parser/JSLexer.cpp:1463-1487 | radix 16, 8 (non-legacy) and 2 come exactly from the prefixes 0x, 0o and 0b in either case, whose digits start after the prefix; a literal not starting with 0 is decimal |
| JSLexerNumber.LegacyOctalPrefix | lib/Parser/JSLexer.cpp:1476-1487 | a leading 0 not followed by x, o, b, e (either case) or `.` starts a legacy octal literal of radix 8; `0.`, `0e` and `0E` are decimal reals |
| JSLexerNumber.ExponentNeedsDigits | lib/Parser/JSLexer.cpp:1535-1544 | after an optional sign the exponent is accepted exactly when a digit follows, and then consumes digits and separators |
| JSLexerNumber.LegacyOctalExponentCaseMatters | lib/Parser/JSLexer.cpp:1581-1599 | `017E5` and `017e5` scan alike, yet the radix update as written makes the first decimal and leaves the second octal |
| JSLexerNumber.BeforeFractionOrExponent | lib/Parser/JSLexer.cpp:1589-1591 | the integer digits end at the first `.`, `e` or `E` |
| JSLexerNumber.LegacyOctalRadixAsWritten | lib/Parser/JSLexer.cpp:1581-1599 | the radix as written is 8 or 10, and 10 exactly when a byte from `8` up other than `_` comes before any `.` or lower-case `e` |
| JSLexerNumber.LegacyOctalRealBytes | lib/Parser/JSLexer.cpp:1581-1599 | in a scanned literal, a byte before the fraction and lower-case exponent that the check as written takes for a decimal digit is an 8, a 9 or an upper-case E |
| JSLexerNumber.AsWrittenOnDigits | lib/Parser/JSLexer.cpp:1581-1599 | on digits and separators the check as written is 10 exactly when an 8 or 9 appears |
| JSLexerNumber.LegacyOctalIntegerRadix | lib/Parser/JSLexer.cpp:1677-1700 | a legacy octal integer is read in radix 10 exactly when it holds an 8 or 9 |
| JSLexerNumber.LegacyOctalRadix | lib/Parser/JSLexer.cpp:1579-1599 | the corrected radix is 10 exactly when an 8 or 9 appears before the fraction or exponent, and 8 otherwise |
| JSLexerNumber.LegacyOctalRadixIgnoresCase | lib/Parser/JSLexer.cpp:1589-1591 | the corrected radix does not depend on the case of the exponent letter |
| JSLexerNumber.LegacyOctalRadixAgreesOnDigits | lib/Parser/JSLexer.cpp:1588-1598 | without an upper-case E the corrected and as-written radix agree, except on characters that are neither digits nor separators nor `e` |
| JSLexerNumber.LiteralRadix | lib/Parser/JSLexer.cpp:1601-1715 | a literal that is not legacy octal keeps the radix of its prefix; a legacy octal one ends in radix 8 or 10 |
| JSLexerNumber.LiteralErrors | lib/Parser/JSLexer.cpp:1601-1715 | a malformed literal reports exactly one error, and no literal more than two |
| JSLexerNumber.AcceptedLiteralRadix | lib/Parser/JSLexer.cpp:1601-1715 | a literal with no error is well formed; a real one is decimal; an integer that is not legacy octal keeps its prefix radix and has digits; a legacy octal one is radix 8 or 10, and in strict mode is a lone `0`; a real legacy octal one is accepted only outside strict mode and holds an 8, a 9 or an upper-case E |
| JSLexer.Lexer.constructor | lib/Parser/JSLexer.cpp:101-108 | the lexer starts at the beginning of the buffer with empty storage, no errors and no token |
| JSLexer.Lexer.ConsumeHex | lib/Parser/JSLexer.cpp:1204-1229 | result and new cursor are those of `ScanHex`; one error is reported exactly when it fails with errorOnFail |
| JSLexer.Lexer.ConsumeBracedCodePoint | lib/Parser/JSLexer.cpp:1231-1303 | result and new cursor are those of `ScanBraced`; one error exactly when it fails with errorOnFail |
| JSLexer.Lexer.ConsumeBracedBody | lib/Parser/JSLexer.cpp:1236-1290 | stops at the first `}` or the end of the buffer, fails exactly for an empty, non-hex or too large body, and otherwise returns the body's value |
| JSLexer.Lexer.ConsumeUnicodeEscape | lib/Parser/JSLexer.cpp:1034-1066 | returns the escape's code point, or U+FFFD with one error when it is malformed |
| JSLexer.Lexer.ConsumeUnicodeEscapeOptional | lib/Parser/JSLexer.cpp:1068-1101 | returns the escape's code point and consumes it, or returns none and restores the cursor to the backslash; never reports an error |
| JSLexer.Lexer.ConsumeOctal | lib/Parser/JSLexer.cpp:1186-1202 | value and new cursor are those of `ScanOctal`; one error in strict mode |
| JSLexer.Lexer.ConsumeOctalDigits | lib/Parser/JSLexer.cpp:1197-1201 | the digit loop yields the value and cursor of `ScanOctal` |
| JSLexer.Lexer.ScanString | lib/Parser/JSLexer.cpp:1842-1990 | the token, stored value, cursor and error count are those of `ScanStringFrom` after the opening quote |
| JSLexer.Lexer.ConsumeStringBody | lib/Parser/JSLexer.cpp:1852-1985 | the loop's storage, cursor, escape flag and new errors are those of `ScanStringFrom` |
| JSLexer.Lexer.StringTurn | lib/Parser/JSLexer.cpp:1853-1985 | one loop turn appends the step's value and moves to its end |
| JSLexer.Lexer.StringEscapeTurn | lib/Parser/JSLexer.cpp:1856-1956 | one escape appends the value of `StringEscapeAt` and moves past it |
| JSLexer.Lexer.StringCharacterEscape | lib/Parser/JSLexer.cpp:1949-1955 | any other escaped character stands for itself (decoded when it starts a UTF-8 sequence) |
| JSLexer.Lexer.ScanTemplateLiteral | lib/Parser/JSLexer.cpp:1992-2246 | the token, cursor and errors are those of `ScanTemplate`; the cooked and raw storage are those of `TemplateFrom` |
| JSLexer.Lexer.TemplateTurn | lib/Parser/JSLexer.cpp:2031-2217 | one loop turn appends the step's cooked and raw values and reports whether it stopped, at a tail, after a NotEscapeSequence |
| JSLexer.Lexer.TemplateEscape | lib/Parser/JSLexer.cpp:2041-2172 | one escape yields the cooked and raw values of `TemplateEscapeAt` |
| JSLexer.Lexer.TemplateCharacterEscape | lib/Parser/JSLexer.cpp:2172-2186 | any other escaped character stands for itself in both values |
| JSLexer.Lexer.TemplateHexEscape | lib/Parser/JSLexer.cpp:2116-2125 | a `\x` escape as `TemplateEscapeAt` describes it, without reporting errors |
| JSLexer.Lexer.TemplateUnicodeEscape | lib/Parser/JSLexer.cpp:2128-2143 | a `\u` escape as `TemplateEscapeAt` describes it, without reporting errors |
| JSLexer.Lexer.ScanPunctuator | lib/Parser/JSLexer.cpp:252-576 | a punctuator is found exactly when `PunctuatorAt` gives one; then it becomes the token and the cursor moves past its spelling; otherwise nothing changes |
| JSLexer.Lexer.ConsumeRun | lib/Parser/JSLexer.cpp:1488-1496 | the cursor moves to the end of the digit run |
| JSLexer.Lexer.ConsumeExponent | lib/Parser/JSLexer.cpp:1531-1544 | the shape and cursor are those of `Exponent` |
| JSLexer.Lexer.ConsumeFraction | lib/Parser/JSLexer.cpp:1515-1529 | the shape and cursor are those of `Fraction` |
| JSLexer.Lexer.ConsumeInteger | lib/Parser/JSLexer.cpp:1488-1513 | the shape and cursor are those of `Integer` |
| JSLexer.Lexer.ScanNumericLiteral | lib/Parser/JSLexer.cpp:1448-1728 | the cursor, token radix and errors are those of `ScanNumber`, `LiteralRadix` and `LiteralErrors`, following the branches as written for reals, decimals, legacy octal and prefixed integers |
| JSLexer.Lexer.ConsumeNumber | lib/Parser/JSLexer.cpp:1448-1544 | the shape and cursor are those of `ScanNumber` |
| JSLexer.Lexer.UpdateLegacyOctalRadix | lib/Parser/JSLexer.cpp:1581-1599 | the radix is `LegacyOctalRadixAsWritten`: 10 exactly when a byte from `8` up other than `_` comes before the first `.` or lower-case `e`, and otherwise unchanged |
| JSLexer.StringScanStep | lib/Parser/JSLexer.cpp:1852-1985 | a string scan is one turn followed by the scan from where the turn ends |
| JSLexer.OctalStep | lib/Parser/JSLexer.cpp:1198-1199 | each further octal digit multiplies the value by 8 and adds the digit |
| JSLexer.BracedStep | lib/Parser/JSLexer.cpp:1240-1262 | each further hex digit keeps a braced code point valid exactly while the value stays at most 0x10FFFF |
| JSLexer.BracedEnd | lib/Parser/JSLexer.cpp:1231-1303 | a braced code point is malformed at end of buffer, otherwise valid exactly for a non-empty valid body |
| JSLexer.DigitRunStops | lib/Parser/JSLexer.cpp:1207-1228 | a digit run is exactly as long as the digits before the first non-digit |
| JSLexer.NumberGrows | lib/Parser/JSLexer.cpp:1225 | one more hex digit multiplies the value by at least 16 |
| DtoaWords.NormalizedBound | external/dtoa/dtoa.c:1087-1118 | a normalized number of n > 1 words is worth at least Base^(n-1), the fact `cmp` relies on when it decides by word count |
| DtoaWords.NormalizedFromBound | external/dtoa/dtoa.c:1087-1118 | conversely, n words worth at least Base^(n-1) have a nonzero top word |
| DtoaWords.ValBound | external/dtoa/dtoa.c:1087-1118 | n words are worth less than Base^n |
| DtoaWords.LongerIsLarger | external/dtoa/dtoa.c:1105-1106 | of two normalized numbers, the one with fewer words is the smaller |
| DtoaWords.LowerAtIsSmaller | external/dtoa/dtoa.c:1111-1113 | equal-length numbers that agree above word j and differ at j compare as word j does, which is what the top-down scan of `cmp` returns |
| DtoaWords.ValTrimmed | external/dtoa/dtoa.c:958 | dropping zero top words leaves the value unchanged |
| DtoaWords.MulAccStep | external/dtoa/dtoa.c:680-701 | one multiply-and-add step splits x * m + acc + carry into a low word and a carry word exactly |
| DtoaWords.MulAccNoWrap | external/dtoa/dtoa.c:680-701 | x * m + acc + carry for 32-bit words never exceeds 64 bits, so the 64-bit intermediate does not wrap |
| DtoaWords.SubStep | external/dtoa/dtoa.c:1166-1171 | one subtraction step gives a word and a borrow of 0 or 1 with word - borrow * Base == x - sub - borrow |
| DtoaWords.SubStepWrapped | external/dtoa/dtoa.c:1166-1171 | the source's unsigned 64-bit wrap-around, low word and `>> 32 & 1` borrow, computes exactly that step |
| DtoaWords.ShiftPair | external/dtoa/dtoa.c:1054-1061 | shifting a word left by 0 < s < 32 with the bits carried in from below gives a word and a carry that together stand for x * 2^s + z |
| DtoaWords.ShiftStep | external/dtoa/dtoa.c:1054-1061 | the source's `x << k | z` and `x >> (32 - k)` are that split |
| DtoaWords.QuotientEstimate | external/dtoa/dtoa.c:2215 | the digit estimated from the top words, top(b) / (top(S) + 1), is never above the true quotient: q * S <= b |
| DtoaWordOps.Zeros | external/dtoa/dtoa.c:886-887 | n words, all zero |
| DtoaWordOps.ZerosWorthNothing | external/dtoa/dtoa.c:886-887 | zero words are worth zero |
| DtoaWordOps.MulAccValue | external/dtoa/dtoa.c:680-701 | the multiply-and-accumulate loop leaves words plus the carry out at the top worth xs * y + acc + carry |
| DtoaWordOps.SubWordsValue | external/dtoa/dtoa.c:1166-1200 | the subtracting loop leaves words less the borrow out at the top worth xs - ys - borrow |
| DtoaWordOps.SubMulWordsValue | external/dtoa/dtoa.c:2226-2256 | the multiply-and-subtract loop of `quorem` leaves words worth bs - q * ss, less what was owed at the start, plus what is still owed at the top |
| DtoaWordOps.ShiftWordsValue | external/dtoa/dtoa.c:1054-1061 | the shifting loop leaves words plus the bits shifted out at the top worth xs * 2^s + z |
| DtoaBits.Hi0Bits | external/dtoa/dtoa.c:756-787 | the count of leading zero bits: 32 for zero, otherwise k < 32 with the top set bit at position 31 - k |
| DtoaBits.Lo0Bits | external/dtoa/dtoa.c:790-835 | the count of trailing zero bits and the word shifted right by it: the shifted word is odd and shifting it back gives the input; zero gives 32 and is left alone |
| DtoaBits.PowerOfTwoBits | external/dtoa/dtoa.c:756-835 | 2^j has 31 - j leading and j trailing zero bits, and shifting out the trailing zeros leaves 1 |
| DtoaBits.ToLower | external/dtoa/dtoa.c:1616-1617 | the lowered byte is never an upper-case ASCII letter |
| DtoaBits.Match | external/dtoa/dtoa.c:1605-1623 | the keyword matches exactly when every one of its bytes equals the lowered input byte after the cursor; on a match the cursor moves past it, otherwise it stays |
| DtoaBits.UpperCaseKeywordNeverMatches | external/dtoa/dtoa.c:1616-1617 | a keyword holding an upper-case letter never matches, since only the input is lowered |
| DtoaBits.MatchIgnoresCase | external/dtoa/dtoa.c:1605-1623 | inputs differing only in letter case match the same keywords |
| DtoaBits.MatchWithinInput | external/dtoa/dtoa.c:1605-1623 | a successful match lies wholly inside the input, before its terminating zero |
| DtoaAlloc.DoublesFor | external/dtoa/dtoa.c:618-619 | the doubles reserved for a block of class k hold the header and its 2^k words |
| DtoaAlloc.Bigint.constructor | external/dtoa/dtoa.c:617-629 | a carved block has class k, capacity 2^k, a fresh word array of that size, sign 0 and no words |
| DtoaAlloc.Allocator.constructor | external/dtoa/dtoa.c:559-563 | an allocator starts with every free list empty and its whole pool unused |
| DtoaAlloc.Allocator.Balloc | external/dtoa/dtoa.c:603-633 | a block of class k with sign and word count 0: the top of class k's free list when there is one (popped), else carved from the pool when k <= Kmax and it fits, else from the heap |
| DtoaAlloc.Allocator.Bfree | external/dtoa/dtoa.c:636-655 | null is ignored; a block above Kmax goes back to the heap; any other block is pushed on its class's free list |
| DtoaAlloc.FreeThenAllocReuses | external/dtoa/dtoa.c:603-655 | the block that `Bfree` pushes is the one the next `Balloc` of its class pops, and the free lists return to what they were |
| DtoaAlloc.PopKeepsStacks | external/dtoa/dtoa.c:614-615 | popping a class's stack keeps the free lists holding exactly the free blocks, each once, on the stack of its class |
| DtoaAlloc.PushKeepsStacks | external/dtoa/dtoa.c:651-652 | pushing a block that is not free onto its class's stack keeps that invariant with the block added |
| DtoaLoops.MulAddWords | external/dtoa/dtoa.c:680-701 | the in-place loop of `multadd` leaves exactly the words and carry of the multiply-and-accumulate specification, and touches no word above wds |
| DtoaLoops.CopyWords | external/dtoa/dtoa.c:1049-1050 | n words are copied to the offset and no other word changes |
| DtoaLoops.ZeroWords | external/dtoa/dtoa.c:886-887 | the first n words are zero and the rest unchanged |
| DtoaLoops.MulRowLoop | external/dtoa/dtoa.c:899-904 | one row of `mult` leaves the words and carry of the accumulate specification at offset j and nothing else changes |
| DtoaLoops.MulRow | external/dtoa/dtoa.c:894-906 | a row adds y times A at weight Base^j to the product so far |
| DtoaLoops.MulWords | external/dtoa/dtoa.c:886-957 | the rows of `mult` leave A * B in the first wa + wb words |
| DtoaLoops.MulStep | external/dtoa/dtoa.c:894-906 | after row j the words hold A times the first j + 1 words of B |
| DtoaLoops.ShiftLoop | external/dtoa/dtoa.c:1057-1061 | the shifting loop leaves the words and carry-out of the shift specification and nothing else changes |
| DtoaLoops.ShiftedWords | external/dtoa/dtoa.c:1049-1081 | the words of `lshift` are worth b * 2^k, in k / 32 + wds words plus one more exactly when the bits shifted out are nonzero |
| DtoaLoops.SubBothWords | external/dtoa/dtoa.c:1166-1171 | the first loop of `diff` leaves the subtraction specification's words and borrow |
| DtoaLoops.SubRestWords | external/dtoa/dtoa.c:1172-1178 | the second loop propagates the borrow through a's remaining words |
| DtoaLoops.SubWords | external/dtoa/dtoa.c:1166-1207 | together the loops leave words worth a - b plus Base^wa times the borrow out, which is 0 or 1 |
| DtoaLoops.SubMulWords | external/dtoa/dtoa.c:2229-2256 | the subtracting pass of `quorem` leaves exactly the words, borrow and carry of its specification and touches no word above len |
| DtoaLoops.CompareWords | external/dtoa/dtoa.c:1108-1117 | the top-down scan returns -1, 0 or 1 as the first n words compare in value, and 0 exactly when they are equal |
| DtoaLoops.TrimWords | external/dtoa/dtoa.c:958 | the trim keeps the value, leaves a nonzero top word or no word at all, and leaves none exactly when the value is zero |
| DtoaLoops.TrimNonzero | external/dtoa/dtoa.c:1208-1209 | the unbounded trim of `diff` stops at the highest nonzero word, keeping the value |
| DtoaLoops.TrimBelowTop | external/dtoa/dtoa.c:2257-2262 | the trim of `quorem` after a zero top word keeps the value and leaves the words normalized, or none when only one word was there |
| DtoaBigint.Cmp | external/dtoa/dtoa.c:1087-1118 | different word counts give their difference; equal counts give -1, 0 or 1 as the values compare; on normalized operands the sign of the result is the order of the values in both directions |
| DtoaBigint.CountDecides | external/dtoa/dtoa.c:1105-1106 | between normalized numbers of different lengths the word count alone decides the order |
| DtoaBigint.Multadd | external/dtoa/dtoa.c:661-716 | the result is worth b * m + a; when the carry needs a word and b is full, a block of the next class is allocated and b is freed |
| DtoaBigint.MultaddValue | external/dtoa/dtoa.c:680-714 | the loop's words, with the carry appended when it is nonzero, are worth xs * m + a and stay normalized |
| DtoaBigint.ScaleWords | external/dtoa/dtoa.c:680-701 | in place, b's words become b * m + a less the carry out of the top word, which is returned |
| DtoaBigint.Grow | external/dtoa/dtoa.c:705-710 | b's sign and words move to a block of the next class, and b is freed |
| DtoaBigint.I2b | external/dtoa/dtoa.c:838-851 | a one-word block of class 1 worth i |
| DtoaBigint.Mult | external/dtoa/dtoa.c:854-961 | a new block worth a * b with sign 0, normalized, or with no words when the product is zero |
| DtoaBigint.MultInto | external/dtoa/dtoa.c:886-959 | the rows write x * y into c and the trim keeps it normalized |
| DtoaBigint.Lshift | external/dtoa/dtoa.c:1027-1084 | a new block worth b * 2^k, of the smallest class at least b's that holds k / 32 + wds + 1 words; b is freed |
| DtoaBigint.ShiftInto | external/dtoa/dtoa.c:1049-1081 | the shifted words are worth b * 2^k and stay normalized for a nonzero b |
| DtoaBigint.ClassFor | external/dtoa/dtoa.c:1044-1046 | the doubling loop picks the smallest class at least k0 whose capacity holds n1 words |
| DtoaBigint.Diff | external/dtoa/dtoa.c:1121-1212 | a new normalized block worth the absolute difference, with sign 1 exactly when b is larger; equal operands give a zero block of class 0 |
| DtoaBigint.DiffOrdered | external/dtoa/dtoa.c:1155-1211 | for x above y, a block of x's class worth x - y with the given sign |
| DtoaBigint.SubInto | external/dtoa/dtoa.c:1157-1210 | the loops and trim of `diff` write x - y into c, normalized |
| DtoaBigint.ZeroBlock | external/dtoa/dtoa.c:1141-1145 | the result for equal operands: a normalized class-0 block worth zero |
| DtoaBigint.Estimate | external/dtoa/dtoa.c:2215 | the estimated digit never exceeds b's top word |
| DtoaBigint.Quorem | external/dtoa/dtoa.c:2186-2307 | b is replaced by the remainder and q returned with remainder + q * S equal to the old b; fewer words than S give 0; the remainder is below S whenever the estimate was at most two short |
| DtoaBigint.EstimatePass | external/dtoa/dtoa.c:2211-2263 | the first pass subtracts the estimated digit times S from b |
| DtoaBigint.CorrectionPass | external/dtoa/dtoa.c:2264-2305 | the second pass subtracts S once more exactly when b is still at least S |
| DtoaBigint.DigitArith | external/dtoa/dtoa.c:2264-2306 | the two passes leave remainder + q * S equal to b, and a remainder below S when b was below (estimate + 2) * S |
| DtoaBigint.SubtractMultiple | external/dtoa/dtoa.c:2226-2263 | subtracting q * S, when it does not exceed b, leaves b - q * S normalized |
| DtoaBigint.SubtractedExactly | external/dtoa/dtoa.c:2229-2256 | when q * S does not exceed b the pass leaves exactly b - q * S, with nothing owed |
| DtoaBigint.PutCarry | external/dtoa/dtoa.c:711-712 | the carry becomes a new top word above the old words, which are kept |
| Calendar.MonthStartsAddUp | lib/Platform/Unicode/PlatformUnicodeWinGlob.cpp:176-189 | the table of month starts begins at 0, each step is the month's length, and the year ends at 365 or 366 |
| Calendar.FLeap | lib/Platform/Unicode/PlatformUnicodeWinGlob.cpp:251-253 | a leap year is divisible by 4; one divisible by 4 but not by 100 is leap; a century is leap exactly when divisible by 400 |
| Calendar.FLeapWithCRemainder | lib/Platform/Unicode/PlatformUnicodeWinGlob.cpp:251-253 | the leap test, written with `& 3` and C's truncating remainder, is the Gregorian rule for every year, negative ones included |
| Calendar.DayFromYear | lib/Platform/Unicode/PlatformUnicodeWinGlob.cpp:229-240 | 1970 starts at day 0, and the day number of 1 January lies between 365 and 366 days per year away from 1970, on the side of 1970 the year is on |
| Calendar.DayFromYearIsFloorFormula | lib/Platform/Unicode/PlatformUnicodeWinGlob.cpp:229-240 | both branches of DayFromYear (truncating for years after 1970, flooring otherwise) give the day number of 1 January |
| Calendar.DayFromYearEpoch | lib/Platform/Unicode/PlatformUnicodeWinGlob.cpp:229-240 | 1 January 1970 is day 0 |
| Calendar.DayFromYearStep | lib/Platform/Unicode/PlatformUnicodeWinGlob.cpp:229-240 | consecutive New Year days are 366 days apart exactly when the year is a leap year, else 365 |
| Calendar.YearStartStep | lib/Platform/Unicode/PlatformUnicodeWinGlob.cpp:229-240 | the same step for the floor formula |
| Calendar.LeapCount | lib/Platform/Unicode/PlatformUnicodeWinGlob.cpp:251-253 | the year length is 365 plus one for multiples of 4, less one for multiples of 100, plus one for multiples of 400 |
| Calendar.YearEstimate | lib/Platform/Unicode/PlatformUnicodeWinGlob.cpp:257-273 | the estimate floor((400 d + 398) / 146097) is at most one year too large: day d lies between the start of the year before the estimate and the end of the estimated year |
| Calendar.DayNumberEstimate | lib/Platform/Unicode/PlatformUnicodeWinGlob.cpp:255-263 | 400 times the day number of year y stays within [-398, 481] of 146097 y, the bound behind the estimate |
| Calendar.DblModPos | lib/Platform/Unicode/PlatformUnicodeWinGlob.cpp:219-227 | the non-negative remainder of a time value: in [0, den) and congruent to it |
| Calendar.DblModPosMeaning | lib/Platform/Unicode/PlatformUnicodeWinGlob.cpp:219-227 | adding the divisor to a negative truncated remainder gives the Euclidean remainder |
| Calendar.Ymd.ToSystemTime | lib/Platform/Unicode/PlatformUnicodeWinGlob.cpp:201-213 | every field is cast to a 16-bit WORD; for a month, day and time of day in range the fields are the month and day counted from one and the hour, minute, second and millisecond of the time of day |
| Calendar.ClockFields | lib/Platform/Unicode/PlatformUnicodeWinGlob.cpp:205-212 | for a time of day in range, the truncating divisions and remainders and the WORD casts give the hour below 24, minutes and seconds below 60 and milliseconds below 1000 |
| Calendar.GetDayMinAndUpdateYear | lib/Platform/Unicode/PlatformUnicodeWinGlob.cpp:242-249 | the year moves back by one exactly when the day precedes its New Year, and the first day of the resulting year is returned |
| Calendar.SplitTimeValue | lib/Platform/Unicode/PlatformUnicodeWinGlob.cpp:268-286 | the day number is the floor of tv over a day, the time of day its remainder, the week day counts from a Thursday at day 0, the year found contains the day, and yt is the week day of its 1 January |
| Calendar.SplitPositiveTimeValue | lib/Platform/Unicode/PlatformUnicodeWinGlob.cpp:268-276 | the same for a positive time value, by the truncating branch |
| Calendar.SplitNonPositiveTimeValue | lib/Platform/Unicode/PlatformUnicodeWinGlob.cpp:277-286 | the same for other time values, by the flooring branch |
| Calendar.GetYmdFromTv | lib/Platform/Unicode/PlatformUnicodeWinGlob.cpp:264-320 | the decomposition is exact: the year contains the day, the day of year is in range (365 only in a leap year), yt adds 7 in a leap year, and the month and day of month place the day of year within that month of that year |
| Calendar.MonthOfLeapYearDay | lib/Platform/Unicode/PlatformUnicodeWinGlob.cpp:295-315 | the comparison tree returns the month whose range in the leap-year table holds the day |
| Calendar.MonthFromLeapTable | lib/Platform/Unicode/PlatformUnicodeWinGlob.cpp:293-319 | shifting common-year days from 1 March by one and reading the leap-year table gives the month and day of month of the reference calendar |
| Calendar.PositiveDayFacts | lib/Platform/Unicode/PlatformUnicodeWinGlob.cpp:268-272 | for a positive time value the truncating casts and remainders agree with floor division |
| Calendar.YearFound | lib/Platform/Unicode/PlatformUnicodeWinGlob.cpp:271-273 | the year settled on after the one-year correction contains the day |
| DebuggerScopes.Starts | lib/VM/Debugger/Debugger.cpp:123-149 | every listed frame start is an index inside the part of the chain walked |
| DebuggerScopes.ScopeDescIndexForFrame | lib/VM/Debugger/Debugger.cpp:123-149 | the walk returns exactly where frame `frame` starts, counting the innermost as 0, and None when the chain holds fewer frames |
| DebuggerScopes.StartsPrefix | lib/VM/Debugger/Debugger.cpp:123-149 | walking further only adds frame starts after those already found |
| DebuggerScopes.StartsIncrease | lib/VM/Debugger/Debugger.cpp:123-149 | frame starts are found in increasing order |
| DebuggerScopes.StartsAreStarts | lib/VM/Debugger/Debugger.cpp:123-149 | each frame start found is the chain's first descriptor or follows a descriptor that is not an inner scope |
| DebuggerScopes.FrameStartAt | lib/VM/Debugger/Debugger.cpp:123-149 | a descriptor that starts a frame, with f frame starts before it, is where frame f starts |
| DebuggerScopes.FrameStartCharacterized | lib/VM/Debugger/Debugger.cpp:123-149 | frame f starts at i if and only if descriptor i starts a frame and exactly f frames start before it |
| DebuggerScopes.FirstFrameAtTop | lib/VM/Debugger/Debugger.cpp:123-149 | the innermost frame starts at the first descriptor of a non-empty chain |
| DebuggerScopes.FrameEnd | lib/VM/Debugger/Debugger.cpp:1141-1151 | the end of a frame is the first descriptor at or after its start that is not an inner scope; all those before it are inner scopes |
| DebuggerScopes.GetFrameSize | lib/VM/Debugger/Debugger.cpp:1141-1151 | the loop adds up the names of the frame's descriptors, from its start up to and including its end |
| DebuggerScopes.SumNamesStep | lib/VM/Debugger/Debugger.cpp:1141-1151 | counting one more descriptor adds its names |
| DebuggerScopes.NextFrameStart | lib/VM/Debugger/Debugger.cpp:123-149 | the frame after frame f starts right after f's end, or there is none when f ends the chain |
| DebuggerScopes.NoStartsInside | lib/VM/Debugger/Debugger.cpp:123-149 | no frame starts strictly inside another frame |
| DebuggerLaws.InitialValid | lib/VM/Debugger/Debugger.cpp:713-742 | a debugger with no breakpoint yet has consistent tables and no breakpoint location |
| DebuggerLaws.ValidAllowsUnset | lib/VM/Debugger/Debugger.cpp:895-920 | in consistent tables every enabled resolved user breakpoint has a location whose user it is, as unsetUserBreakpoint asserts |
| DebuggerLaws.InstallFacts | lib/VM/Debugger/Debugger.cpp:805-818 | installing finds or creates the location; a new location is patched and nothing else changes |
| DebuggerTables.Install | lib/VM/Debugger/Debugger.cpp:805-818 | the location exists afterwards: a new one holds no breakpoint and its instruction is patched, an existing one is unchanged; nothing else changes |
| DebuggerTables.Uninstall | lib/VM/Debugger/Debugger.cpp:820-833 | the instruction is unpatched, or, when it is the one waiting to be restored, the restore is cancelled instead; the locations are unchanged |
| DebuggerTables.Restore | lib/VM/Debugger/Debugger.cpp:1044-1052 | reports whether a restore was pending; the pending instruction is patched again and nothing is left pending |
| DebuggerTables.Suspend | lib/VM/Debugger/Debugger.cpp:1100-1116 | the instruction becomes the one waiting to be restored and is unpatched, unless it was already waiting; the locations are unchanged |
| DebuggerTables.SetUser | lib/VM/Debugger/Debugger.cpp:835-841 | the location exists afterwards with this user breakpoint; its other fields and every other location are unchanged |
| DebuggerTables.UnsetUser | lib/VM/Debugger/Debugger.cpp:895-920 | the location loses its user; it stays exactly while something else uses it, and otherwise is erased and either unpatched or its pending restore cancelled |
| DebuggerTables.Create | lib/VM/Debugger/Debugger.cpp:713-742 | refused with nothing changed exactly when the resolved instruction already has a user breakpoint; otherwise the next id is issued and recorded as an enabled breakpoint, which becomes its location's user when resolved and leaves the locations alone when not |
| DebuggerTables.SetCondition | lib/VM/Debugger/Debugger.cpp:744-753 | only that breakpoint's condition changes; an unknown id changes nothing |
| DebuggerTables.Delete | lib/VM/Debugger/Debugger.cpp:755-767 | the breakpoint is forgotten and the others kept; its location loses its user when it was enabled and resolved, and otherwise no location changes |
| DebuggerTables.DeleteAll | lib/VM/Debugger/Debugger.cpp:769-777 | no user breakpoint is left and no location is added; every remaining location is still in use, keeps its other fields and has no deleted breakpoint as user; the id counter and the lists are kept |
| DebuggerTables.SetEnabledAsWritten | lib/VM/Debugger/Debugger.cpp:779-798 | as written: only the breakpoint's flag changes among the breakpoints, and enabling a resolved one makes it its location's user even when another breakpoint holds it |
| DebuggerTables.SetEnabled | lib/VM/Debugger/Debugger.cpp:779-798 | as intended: a change of the flag is refused only when enabling a location that another breakpoint holds; enabling never takes a location from its user |
| DebuggerTables.SetNonUser | lib/VM/Debugger/Debugger.cpp:843-871 | the location exists with the flag of its kind and the call-stack depth; it joins that kind's list only when it did not carry the flag; its user, on-load mark and the other list are unchanged |
| DebuggerTables.SetOnLoad | lib/VM/Debugger/Debugger.cpp:881-893 | the location exists, is marked on-load and is appended to the temporary list; its user and flags are unchanged |
| DebuggerTables.ClearOne | lib/VM/Debugger/Debugger.cpp:988-1029 | the location no longer carries the flag of the kind cleared, keeps its user and other flag, and is reported for erasing only when nothing uses it |
| DebuggerTables.ClearFrom | lib/VM/Debugger/Debugger.cpp:988-1029 | the list being cleared is emptied and the other kept; the locations to erase are gone, none on the rest of the list keeps the flag, no flag is set, users and the other kind's flags are kept, and no location is added |
| DebuggerTables.ClearNonUser | lib/VM/Debugger/Debugger.cpp:988-1029 | afterwards that kind's list is empty and no location on it keeps the flag; users, the other kind's flags and the other list are kept, and no location is added |
| DebuggerLaws.SuspendRestoreRoundTrip | lib/VM/Debugger/Debugger.cpp:1093-1116 | uninstalling a breakpointed return or call and recording it for restore, then restoring it, gives back the same tables and reports the restore |
| DebuggerLaws.RestoreOnce | lib/VM/Debugger/Debugger.cpp:1044-1052 | the restore reports true exactly when an instruction was waiting, patches it again, and a second restore does nothing |
| DebuggerLaws.UninstallPendingCancels | lib/VM/Debugger/Debugger.cpp:820-833 | uninstalling the instruction waiting to be restored cancels the restore and leaves the patched set alone |
| DebuggerLaws.CreateOutcome | lib/VM/Debugger/Debugger.cpp:713-742 | creation is refused, changing nothing, exactly when the resolved instruction already has a user breakpoint; otherwise the next id is taken, the breakpoint recorded enabled, and a resolved one becomes its location's user |
| DebuggerLaws.CreateKeepsValid | lib/VM/Debugger/Debugger.cpp:713-742 | creating a breakpoint keeps the tables consistent |
| DebuggerLaws.SetConditionKeepsValid | lib/VM/Debugger/Debugger.cpp:744-753 | setting a condition records it and keeps the tables consistent |
| DebuggerLaws.UnknownIdChangesNothing | lib/VM/Debugger/Debugger.cpp:744-798 | condition, delete and enable on an id with no breakpoint change nothing |
| DebuggerLaws.UserOnlyAtOwnLocation | lib/VM/Debugger/Debugger.cpp:895-920 | a location's user is the breakpoint enabled and resolved to that location |
| DebuggerLaws.UnsetLocationsValid | lib/VM/Debugger/Debugger.cpp:895-920 | unsetting a user drops the location when nothing else uses it, else keeps it without the user |
| DebuggerLaws.UnsetKeepsLocation | lib/VM/Debugger/Debugger.cpp:912-913 | a location still used by a step, restoration or on-load breakpoint stays, without its user |
| DebuggerLaws.UnsetDropsLocation | lib/VM/Debugger/Debugger.cpp:914-919 | a location nothing else uses is uninstalled and erased |
| DebuggerLaws.UnsetKeepsValid | lib/VM/Debugger/Debugger.cpp:895-920 | taking a linked breakpoint off its location and changing only its own entry keeps the tables consistent |
| DebuggerLaws.DeleteKeepsValid | lib/VM/Debugger/Debugger.cpp:755-767 | deleting keeps the tables consistent, forgets the id, and leaves no location with it as user |
| DebuggerLaws.DropUsersStep | lib/VM/Debugger/Debugger.cpp:769-777 | each turn of deleteAllBreakpoints drops the user of an enabled resolved breakpoint and nothing for the others |
| DebuggerLaws.DropNoUsers | lib/VM/Debugger/Debugger.cpp:769-777 | before the first turn the tables are unchanged |
| DebuggerLaws.DeleteAllKeepsValid | lib/VM/Debugger/Debugger.cpp:769-777 | deleting all keeps the tables consistent, forgets every user breakpoint, keeps the id counter, and keeps exactly the locations still in use, without users |
| DebuggerLaws.SetEnabledKeepsValid | lib/VM/Debugger/Debugger.cpp:779-798 | enabling or disabling, with the correction below, keeps the tables consistent |
| DebuggerLaws.EnableKeepsValid | lib/VM/Debugger/Debugger.cpp:787-791 | enabling a disabled breakpoint keeps the tables consistent |
| DebuggerLaws.DisableKeepsValid | lib/VM/Debugger/Debugger.cpp:792-797 | disabling an enabled breakpoint keeps the tables consistent |
| DebuggerLaws.SetEnabledIdempotent | lib/VM/Debugger/Debugger.cpp:779-798 | repeating the same enable or disable changes nothing more |
| DebuggerLaws.SetEnabledFlips | lib/VM/Debugger/Debugger.cpp:779-798 | a resolved breakpoint ends with the requested flag; enabled, it is its location's user and the instruction is patched or waiting to be restored; disabled, it is no location's user |
| DebuggerLaws.SetNonUserKeepsValid | lib/VM/Debugger/Debugger.cpp:843-871 | setting a step or restoration breakpoint keeps the tables consistent |
| DebuggerLaws.SetNonUserFlags | lib/VM/Debugger/Debugger.cpp:843-871 | it adds the location if needed and changes no user |
| DebuggerLaws.SetNonUserShape | lib/VM/Debugger/Debugger.cpp:843-871 | every location stays in use and patched, the users stay where they were |
| DebuggerLaws.SetNonUserListed | lib/VM/Debugger/Debugger.cpp:855-870 | the flag set is listed on the matching list |
| DebuggerLaws.SetNonUserListsOnce | lib/VM/Debugger/Debugger.cpp:849-864 | a location joins a list only with the first breakpoint of that kind there; later ones only record their call-stack depth |
| DebuggerLaws.SetOnLoadKeepsValid | lib/VM/Debugger/Debugger.cpp:881-893 | setting an on-load breakpoint keeps the tables consistent |
| DebuggerLaws.SuspendKeepsValid | lib/VM/Debugger/Debugger.cpp:1093-1116 | uninstalling a breakpointed return or call for later restore keeps the tables consistent |
| DebuggerLaws.ClearStart | lib/VM/Debugger/Debugger.cpp:988-994 | the clearing loop's invariant holds before the first entry |
| DebuggerLaws.ClearStep | lib/VM/Debugger/Debugger.cpp:994-1024 | clearing one entry keeps the invariant |
| DebuggerLaws.ClearOneFrame | lib/VM/Debugger/Debugger.cpp:994-1024 | clearing one entry changes only the locations' flags, the patched set and the pending restore, and marks only an existing location |
| DebuggerLaws.ClearStepOther | lib/VM/Debugger/Debugger.cpp:994-1024 | clearing an entry leaves the other locations as they were |
| DebuggerLaws.ClearStepAt | lib/VM/Debugger/Debugger.cpp:1002-1023 | clearing an entry clears its own location's flag and, when nothing else uses it, marks it for erasure |
| DebuggerLaws.ClearEnd | lib/VM/Debugger/Debugger.cpp:1025-1028 | erasing the marked locations and emptying the list leaves consistent tables |
| DebuggerLaws.ClearEndFlags | lib/VM/Debugger/Debugger.cpp:1025-1028 | afterwards the list is empty, the other list unchanged, and no location carries the cleared flag |
| DebuggerLaws.ClearEndKept | lib/VM/Debugger/Debugger.cpp:1006-1013 | a location flagged with the other kind is kept, only losing the cleared flag |
| DebuggerLaws.ClearEndLinks | lib/VM/Debugger/Debugger.cpp:988-1029 | user breakpoints and their locations survive clearing |
| DebuggerLaws.ClearFromDone | lib/VM/Debugger/Debugger.cpp:994-1028 | the whole loop from any point of the invariant ends in the cleared tables |
| DebuggerLaws.ClearNonUserEffect | lib/VM/Debugger/Debugger.cpp:988-1029 | clearing one kind leaves consistent tables, drops each location nothing else uses, and changes no user breakpoint |
| DebuggerLaws.ClearBothLeavesUsers | lib/VM/Debugger/Debugger.cpp:1031-1057 | clearing both lists leaves exactly the locations of user breakpoints, each with nothing but its user |
| DebuggerLaws.TakeOverScenario | lib/VM/Debugger/Debugger.cpp:713-798 | a disabled breakpoint 1 and a new breakpoint 2 at the same place give consistent tables in which 2 holds the location |
| HermesDebugger.Debugger.constructor | lib/VM/Debugger/Debugger.cpp:713-742 | a new debugger has the initial tables, which are consistent, and neither pause flag set |
| HermesDebugger.Debugger.InstallBreakpoint | lib/VM/Debugger/Debugger.cpp:805-818 | the fields become the installed tables |
| HermesDebugger.Debugger.UninstallBreakpoint | lib/VM/Debugger/Debugger.cpp:820-833 | the fields become the uninstalled tables |
| HermesDebugger.Debugger.RestoreBreakpointIfAny | lib/VM/Debugger/Debugger.cpp:1044-1052 | the fields and the result are the restore's, and stay consistent |
| HermesDebugger.Debugger.SetUserBreakpoint | lib/VM/Debugger/Debugger.cpp:835-841 | the location is installed and gets the user |
| HermesDebugger.Debugger.UnsetUserBreakpoint | lib/VM/Debugger/Debugger.cpp:895-920 | the location loses its user and is dropped when nothing else uses it |
| HermesDebugger.Debugger.CreateBreakpoint | lib/VM/Debugger/Debugger.cpp:713-742 | the fields and the id are those of creation, and stay consistent |
| HermesDebugger.Debugger.SetBreakpointCondition | lib/VM/Debugger/Debugger.cpp:744-753 | the condition is recorded and the tables stay consistent |
| HermesDebugger.Debugger.DeleteBreakpoint | lib/VM/Debugger/Debugger.cpp:755-767 | the fields become the tables after deletion, which stay consistent |
| HermesDebugger.Debugger.DeleteAllBreakpoints | lib/VM/Debugger/Debugger.cpp:769-777 | the fields become the tables after deleting all, which stay consistent |
| HermesDebugger.Debugger.UnsetAll | lib/VM/Debugger/Debugger.cpp:770-775 | the loop drops the users of all enabled resolved breakpoints |
| HermesDebugger.Debugger.UnsetIfSet | lib/VM/Debugger/Debugger.cpp:771-774 | one turn drops one more breakpoint's user |
| HermesDebugger.Debugger.SetBreakpointEnabled | lib/VM/Debugger/Debugger.cpp:779-798 | the fields become `SetEnabled` of the old tables, which refuses to take over a location held by another breakpoint, and stay consistent |
| HermesDebugger.Debugger.DoSetNonUserBreakpoint | lib/VM/Debugger/Debugger.cpp:843-871 | the fields become the tables with the step or restoration breakpoint set, and stay consistent |
| HermesDebugger.Debugger.SetStepBreakpoint | lib/VM/Debugger/Debugger.cpp:873-879 | a step breakpoint is set and the tables stay consistent |
| HermesDebugger.Debugger.SetRestorationBreakpoint | lib/VM/Debugger/Debugger.cpp:1036-1042 | a restoration breakpoint is set and the tables stay consistent |
| HermesDebugger.Debugger.SetOnLoadBreakpoint | lib/VM/Debugger/Debugger.cpp:881-893 | an on-load breakpoint is set and the tables stay consistent |
| HermesDebugger.Debugger.DoClearNonUserBreakpoints | lib/VM/Debugger/Debugger.cpp:988-1029 | the fields become the tables with that kind cleared, and stay consistent |
| HermesDebugger.Debugger.ClearTurn | lib/VM/Debugger/Debugger.cpp:995-1023 | one turn of the clearing loop |
| HermesDebugger.Debugger.EraseAll | lib/VM/Debugger/Debugger.cpp:1025-1027 | exactly the marked locations are erased |
| HermesDebugger.Debugger.ClearTempBreakpoints | lib/VM/Debugger/Debugger.cpp:1031-1034 | step breakpoints are cleared and pausing on all code blocks is turned off |
| HermesDebugger.Debugger.ClearRestorationBreakpoints | lib/VM/Debugger/Debugger.cpp:1054-1057 | restoration breakpoints are cleared and pausing to restore a breakpoint is turned off |
| DebuggerLaws.SetUserKeepsValid | lib/VM/Debugger/Debugger.cpp:835-841 | making an enabled breakpoint the user of a location nobody holds keeps the tables consistent and records it as that location's user |
| DebuggerLaws.SetEnabledAsWrittenBreaksTables | lib/VM/Debugger/Debugger.cpp:779-798 | as written, disabling breakpoint 1, creating breakpoint 2 at the same instruction and enabling 1 again leaves two enabled breakpoints of which only one is the location's user; deleting 2 then leaves 1 enabled with no location to be taken off, while the corrected enable leaves the tables alone |
| Intl.Units | lib/Platform/Intl/PlatformIntlWindows.cpp:193 | an ASCII literal becomes the UTF-16 string of the same characters |
| Intl.NormalizeLanguageTag | lib/Platform/Intl/PlatformIntlWindows.cpp:64-114 | the empty tag is a RangeError before ICU is asked; any other tag succeeds exactly when the ICU steps canonicalize it, giving their result, and otherwise fails naming the tag |
| Intl.CanonicalizeLocaleList | lib/Platform/Intl/PlatformIntlWindows.cpp:117-153 | the loop returns the canonical list: empty input gives an empty list, the first tag that fails fails the call, and otherwise each canonical form is appended only when not yet seen |
| Intl.FailurePersists | lib/Platform/Intl/PlatformIntlWindows.cpp:142-144 | once a tag fails, the later tags no longer change the outcome |
| Intl.IndexOf | lib/Platform/Intl/PlatformIntlWindows.cpp:147-148 | the position of the first appearance of an element |
| Intl.CanonicalFormsMeaning | lib/Platform/Intl/PlatformIntlWindows.cpp:136-151 | the forms succeed exactly when every tag normalizes, then hold each tag's canonical form in order; a failure is the error of the first tag that fails, all before it succeeding |
| Intl.FirstOccurrencesElements | lib/Platform/Intl/PlatformIntlWindows.cpp:147-150 | keeping first occurrences keeps exactly the elements of the list |
| Intl.FirstOccurrencesDistinct | lib/Platform/Intl/PlatformIntlWindows.cpp:147-150 | the kept list has no element twice and is never longer |
| Intl.IndexOfSnoc | lib/Platform/Intl/PlatformIntlWindows.cpp:147-150 | appending an element leaves earlier first appearances where they were, and a new element first appears at the end |
| Intl.FirstOccurrencesOrder | lib/Platform/Intl/PlatformIntlWindows.cpp:147-150 | the kept elements come in the order of their first appearance |
| Intl.OrderStep | lib/Platform/Intl/PlatformIntlWindows.cpp:147-150 | one more list element keeps that order for every pair of kept elements |
| Intl.CanonicalLocalesMeaning | lib/Platform/Intl/PlatformIntlWindows.cpp:117-153 | the result is empty for no tags; it succeeds exactly when every tag normalizes; it then holds exactly the canonical forms of the tags, each once, in the order they first appear, and no more of them than there were tags; a failure is some tag's error |
| Intl.EmptyTagRejected | lib/Platform/Intl/PlatformIntlWindows.cpp:66-69 | an empty tag fails the whole call with the empty-tag RangeError unless an earlier tag fails first |
| Intl.Collator.constructor | lib/Platform/Intl/PlatformIntlWindows.cpp:174-178 | a new collator has no locale yet |
| Intl.Collator.Initialize | lib/Platform/Intl/PlatformIntlWindows.cpp:189-195 | whatever is asked for, the collator's locale becomes "en-US" |
| Intl.Collator.ResolvedOptions | lib/Platform/Intl/PlatformIntlWindows.cpp:197-202 | the options are exactly the locale and numeric = false |
| Intl.Collator.Compare | lib/Platform/Intl/PlatformIntlWindows.cpp:204-208 | the comparison's sign is -1, 0 or 1 |
| Intl.CompareEqualAndAntisymmetric | lib/Platform/Intl/PlatformIntlWindows.cpp:204-208 | the comparison is zero exactly for equal strings, and swapping the strings flips its sign |
| Intl.CompareIsCodeUnitOrder | lib/Platform/Intl/PlatformIntlWindows.cpp:204-208 | the comparison is negative exactly when x comes first in UTF-16 code-unit order |
| Intl.WitnessOrdersFirst | lib/Platform/Intl/PlatformIntlWindows.cpp:204-208 | a first difference where x has the smaller unit, or x ending first, makes the comparison negative |
| Intl.FirstHasWitness | lib/Platform/Intl/PlatformIntlWindows.cpp:204-208 | a negative comparison has such a first difference |
| CrashManager.RegisterCalls | API/hermes_shared/hermes_api.cpp:86-104 | the intended registrations: a small block whole, a large one as length / 64K + 1 registrations, none larger than WER accepts |
| CrashManager.Pieces | API/hermes_shared/hermes_api.cpp:93-97 | the intended n full-size pieces, one per WER registration, at pointer-sized offsets |
| CrashManager.PieceStarts | API/hermes_shared/hermes_api.cpp:110-113 | the intended starts of n pieces, one per WER unregistration |
| CrashManager.RegisterCallsTile | API/hermes_shared/hermes_api.cpp:86-104 | the registrations cover the block exactly: consecutive pieces from its start, none larger than WER accepts, lengths adding up to the block's; a large block takes length / 64K + 1 of them |
| CrashManager.UnregisterMatchesRegister | API/hermes_shared/hermes_api.cpp:106-122 | unregistering a block unregisters exactly the starts of the pieces it was registered as, in the same order |
| CrashManager.PiecesAsWritten | API/hermes_shared/hermes_api.cpp:93-97 | n full-size pieces whose offsets are the 32-bit wrap of i * 64K: congruent to it modulo 2^32 and within the `int` range |
| CrashManager.RegisterCallsAsWritten | API/hermes_shared/hermes_api.cpp:86-104 | as written: as many registrations of the same sizes as intended, each at an address congruent modulo 2^32 to the intended one |
| CrashManager.PieceStartsAsWritten | API/hermes_shared/hermes_api.cpp:110-113 | the unregistered starts as written, congruent modulo 2^32 to the intended ones |
| CrashManager.UnregisterCallsAsWritten | API/hermes_shared/hermes_api.cpp:106-122 | as written: an unrecorded block is unregistered whole, a recorded one as length / 64K + 1 unregistrations |
| CrashManager.UnregisterMatchesRegisterAsWritten | API/hermes_shared/hermes_api.cpp:106-122 | as written too, unregistering a block unregisters exactly the addresses it was registered at, in the same order |
| CrashManager.ReplaceColons | API/hermes_shared/hermes_api.cpp:140 | every ':' becomes '_' and nothing else changes, so no ':' is left |
| CrashManager.CStr | API/hermes_shared/hermes_api.cpp:128 | what WER reads through `c_str()`: the longest zero-free prefix of the string |
| CrashManager.CStrAppend | API/hermes_shared/hermes_api.cpp:128 | a zero-free front is read whole, then the reading goes on into what follows |
| CrashManager.CStrReplace | API/hermes_shared/hermes_api.cpp:140-145 | replacing colons commutes with what WER reads |
| CrashManager.CrashManagerImpl.constructor | API/hermes_shared/hermes_api.cpp:84-85 | a new crash manager has no large block, no callback and has made no call |
| CrashManager.CrashManagerImpl.RegisterMemory | API/hermes_shared/hermes_api.cpp:86-104 | as written: a block larger than WER accepts is recorded and registered as length / 64K full pieces at 32-bit `int` offsets and then the remainder, a small one whole; the callbacks are untouched |
| CrashManager.CrashManagerImpl.UnregisterMemory | API/hermes_shared/hermes_api.cpp:106-122 | as written: a recorded block is unregistered piece by piece at the same 32-bit offsets and forgotten, any other whole |
| CrashManager.CrashManagerImpl.Utf8ToUtf16 | API/hermes_shared/hermes_api.cpp:181-201 | an empty input gives the empty string; otherwise what WER reads is the conversion of the first 64 bytes at most, or nothing when they do not convert |
| CrashManager.CrashManagerImpl.ContextualKey | API/hermes_shared/hermes_api.cpp:135-140 | the key is "TID", the thread id and the converted key, with no ':' left |
| CrashManager.CrashManagerImpl.SetCustomData | API/hermes_shared/hermes_api.cpp:124-128 | one metadata registration of what WER reads of the converted key and value |
| CrashManager.CrashManagerImpl.RemoveCustomData | API/hermes_shared/hermes_api.cpp:130-133 | one metadata unregistration of the converted key |
| CrashManager.CrashManagerImpl.SetContextualCustomData | API/hermes_shared/hermes_api.cpp:135-146 | one metadata registration under the thread's contextual key |
| CrashManager.CrashManagerImpl.RemoveContextualCustomData | API/hermes_shared/hermes_api.cpp:148-158 | one metadata unregistration under the thread's contextual key |
| CrashManager.CrashManagerImpl.RegisterCallback | API/hermes_shared/hermes_api.cpp:160-164 | as written: the key is the address of the by-value parameter; the callback is stored under it unless an entry already holds that key, which is then kept, and the key is returned either way |
| CrashManager.CrashManagerImpl.UnregisterCallback | API/hermes_shared/hermes_api.cpp:166-168 | the callback under the key is dropped and nothing else changes |
| CrashManager.CrashManagerImpl.CrashHandler | API/hermes_shared/hermes_api.cpp:174-178 | each registered callback is invoked with the crash file, in increasing key order |
| CrashManager.PaddedCStr | API/hermes_shared/hermes_api.cpp:190-193 | the zero units padding the converted text are not read by WER |
| CrashManager.ContextualKeySeenByWer | API/hermes_shared/hermes_api.cpp:135-158 | WER reads "TID", the thread id and the converted key, colons replaced, so setting and removing on the same thread name the same entry |
| CrashManager.ConversionReadsAtMost64 | API/hermes_shared/hermes_api.cpp:182-183 | inputs agreeing on their first 64 bytes convert alike |
| CrashManager.Int32 | API/hermes_shared/hermes_api.cpp:93-96 | a two's-complement 32-bit int congruent to its input |
| CrashManager.LargeBlockOffsetOverflows | API/hermes_shared/hermes_api.cpp:93-96 | with the 32-bit piece offsets as written, a block of 0x8001_0000 bytes has its piece 0x8000 registered at a negative offset and the pieces no longer cover the block, while the corrected ones do |
| CrashManager.SmallBlocksUnaffected | API/hermes_shared/hermes_api.cpp:93-96 | below 2 GiB the 32-bit offsets are exact, so registration and unregistration as written are the intended ones |
| CrashManager.CallbackKeyCollides | API/hermes_shared/hermes_api.cpp:160-164 | keyed by the address of the by-value parameter, two registrations from the same stack slot get the same key, the second callback is silently dropped, and unregistering it removes the first |
| CrashManager.RegisterCallbackAsWritten | API/hermes_shared/hermes_api.cpp:160-164 | the key returned is the parameter's address and is registered afterwards; the keys grow by that one, old entries are kept, and the new callback is stored exactly when the key was free or already held it |
| CrashManager.RegisterCallbackCounted | API/hermes_shared/hermes_api.cpp:160-164 | the intended registration: a key no live registration has, the callback stored under it and nothing else changed, with every key below the next counter |
| CrashManager.CountedKeysDistinct | API/hermes_shared/hermes_api.cpp:160-178 | with counted keys two registrations get distinct keys, the crash handler invokes both in registration order, and unregistering the second keeps the first |
| CrashManager.MinOf | API/hermes_shared/hermes_api.cpp:175 | the least key of a non-empty set |
| CrashManager.MinExists | API/hermes_shared/hermes_api.cpp:175 | a non-empty set of keys has a least element |
| CrashManager.MinAtOrBelow | API/hermes_shared/hermes_api.cpp:175 | descending from any key reaches the least one |
| CrashManager.SortedKeysFirst | API/hermes_shared/hermes_api.cpp:175 | the ordered keys start with the least one |
| CrashManager.LeastKey | API/hermes_shared/hermes_api.cpp:175 | the next key a `std::map` iteration visits is the least one left |
| CrashManager.SortedKeysStep | API/hermes_shared/hermes_api.cpp:175-177 | visiting the least key moves it from the keys left to the keys done |
| CrashManager.SortedKeysMeaning | API/hermes_shared/hermes_api.cpp:175 | the ordered keys are exactly the set's keys, each once, strictly increasing |
| CrashManager.SortedKeysLength | API/hermes_shared/hermes_api.cpp:175 | there are as many ordered keys as keys |
| CrashManager.SortedKeysElements | API/hermes_shared/hermes_api.cpp:175 | the ordered keys are the set's keys |
| CrashManager.SortedKeysIncreasing | API/hermes_shared/hermes_api.cpp:175 | the ordered keys strictly increase |
| CrashManager.Invocations | API/hermes_shared/hermes_api.cpp:176 | one invocation per key |
| CrashManager.InvocationsSnoc | API/hermes_shared/hermes_api.cpp:175-177 | one more key adds its callback's invocation at the end |
| CrashManager.CrashHandlerCallsEachOnce | API/hermes_shared/hermes_api.cpp:174-178 | the crash handler calls each registered callback exactly once, with the crash file, in increasing key order |
| HermesApi.ConfigWrapper.constructor | API/hermes_shared/hermes_api.cpp:482-491 | a new configuration has every flag off, no runtime name, port 0 and no host object installed |
| HermesApi.ConfigWrapper.EnableDefaultCrashHandler | API/hermes_shared/hermes_api.cpp:393-396 | succeeds and changes only the crash-handler flag |
| HermesApi.ConfigWrapper.EnableInspector | API/hermes_shared/hermes_api.cpp:398-401 | succeeds and changes only the inspector flag |
| HermesApi.ConfigWrapper.SetInspectorRuntimeName | API/hermes_shared/hermes_api.cpp:403-406 | succeeds and changes only the runtime name |
| HermesApi.ConfigWrapper.SetInspectorPort | API/hermes_shared/hermes_api.cpp:408-411 | succeeds and changes only the port |
| HermesApi.ConfigWrapper.SetInspectorBreakOnStart | API/hermes_shared/hermes_api.cpp:413-416 | succeeds and changes only the break-on-start flag |
| HermesApi.ConfigWrapper.SetExplicitMicrotasks | API/hermes_shared/hermes_api.cpp:418-421 | succeeds and changes only the explicit-microtasks flag |
| HermesApi.ConfigWrapper.SetUnhandledErrorCallback | API/hermes_shared/hermes_api.cpp:423-427 | succeeds, installs the callback and changes no setting |
| HermesApi.ConfigWrapper.SetTaskRunner | API/hermes_shared/hermes_api.cpp:429-432 | succeeds, installs the task runner and changes no setting |
| HermesApi.ConfigWrapper.SetScriptCache | API/hermes_shared/hermes_api.cpp:434-437 | succeeds, installs the script cache and changes no setting |
| HermesApi.ConfigWrapper.GetRuntimeConfig | API/hermes_shared/hermes_api.cpp:472-480 | a crash manager is installed when the configuration asks for one, the microtask queue follows the explicit-microtasks flag, and everything else is the builder's default |
| HermesApi.InspectorName | API/hermes_shared/hermes_api.cpp:648-651 | the runtime is registered under the configured name, or "Hermes" when none is configured, never under an empty name |
| HermesApi.CompileFlagsFor | API/hermes_shared/hermes_api.cpp:607-628 | debug info when inspectable; lazy compilation unless eager is forced; zero preemptive thresholds when lazy is forced, the defaults otherwise; generators and async break checks as the runtime configuration says |
| HermesApi.RuntimeWrapper.constructor | API/hermes_shared/hermes_api.cpp:602-655 | the runtime is inspectable as configured, gets the configuration's runtime settings; its compile flags have debug info when inspectable or when the defaults ask for it, lazy compilation unless eager is forced, zero preemptive thresholds when lazy is forced and the defaults otherwise, and generators and async break checks as the runtime configuration says; it is registered for debugging under its inspector name exactly when the inspector is enabled |
| HermesApi.RuntimeWrapper.GetDescription | API/hermes_shared/hermes_api.cpp:688-692 | a null out-pointer is a generic failure; otherwise "Hermes" is written |
| HermesApi.RuntimeWrapper.IsInspectable | API/hermes_shared/hermes_api.cpp:694-698 | a null out-pointer is a generic failure; otherwise whether the runtime is inspectable is written |
| HermesApi.CreateConfig | API/hermes_shared/hermes_api.cpp:1002-1006 | a null out-pointer fails; otherwise a fresh default configuration is written |
| HermesApi.DeleteConfig | API/hermes_shared/hermes_api.cpp:1008-1012 | fails exactly for a null configuration |
| HermesApi.CreateRuntime | API/hermes_shared/hermes_api.cpp:950-957 | fails exactly when the configuration or the out-pointer is null, and then writes nothing; otherwise a fresh runtime is written whose inspectability, runtime config, compile flags and debugging name are those the constructor gives the configuration |
| HermesApi.DeleteRuntime | API/hermes_shared/hermes_api.cpp:959-963 | fails exactly for a null runtime |
| HermesApi.ConfigEnableDefaultCrashHandler | API/hermes_shared/hermes_api.cpp:1014-1018 | a null configuration fails; otherwise only the crash-handler flag changes |
| HermesApi.ConfigEnableInspector | API/hermes_shared/hermes_api.cpp:1020-1022 | a null configuration fails; otherwise only the inspector flag changes |
| HermesApi.ConfigSetInspectorRuntimeName | API/hermes_shared/hermes_api.cpp:1024-1028 | a null configuration fails; otherwise only the runtime name changes |
| HermesApi.ConfigSetInspectorPort | API/hermes_shared/hermes_api.cpp:1030-1032 | a null configuration fails; otherwise only the port changes |
| HermesApi.ConfigSetInspectorBreakOnStart | API/hermes_shared/hermes_api.cpp:1034-1036 | a null configuration fails; otherwise only the break-on-start flag changes |
| HermesApi.ConfigSetExplicitMicrotasks | API/hermes_shared/hermes_api.cpp:1043-1045 | a null configuration fails; otherwise only the explicit-microtasks flag changes |
| HermesApi.ConfigOnUnhandledError | API/hermes_shared/hermes_api.cpp:1061-1069 | a null configuration fails; otherwise only the unhandled-error callback is installed |
| HermesApi.ConfigSetTaskRunner | API/hermes_shared/hermes_api.cpp:1047-1059 | a null configuration fails; otherwise only the task runner is installed |
| HermesApi.ConfigSetScriptCache | API/hermes_shared/hermes_api.cpp:1071-1085 | a null configuration fails; otherwise only the script cache is installed |
| HermesWin.ConfigWrapper.constructor | API/hermes/hermes_win.cpp:407-415 | a new configuration has every flag off, no runtime name, port 0 and no host object installed |
| HermesWin.ConfigWrapper.EnableDefaultCrashHandler | API/hermes/hermes_win.cpp:335-338 | succeeds and changes only the crash-handler flag |
| HermesWin.ConfigWrapper.EnableDebugger | API/hermes/hermes_win.cpp:340-343 | succeeds and changes only the debugger flag |
| HermesWin.ConfigWrapper.SetDebuggerRuntimeName | API/hermes/hermes_win.cpp:345-348 | succeeds and changes only the runtime name |
| HermesWin.ConfigWrapper.SetDebuggerPort | API/hermes/hermes_win.cpp:350-353 | succeeds and changes only the port |
| HermesWin.ConfigWrapper.SetDebuggerBreakOnStart | API/hermes/hermes_win.cpp:355-358 | succeeds and changes only the break-on-start flag |
| HermesWin.ConfigWrapper.SetTaskRunner | API/hermes/hermes_win.cpp:360-363 | succeeds, installs the task runner and changes no setting |
| HermesWin.ConfigWrapper.SetScriptCache | API/hermes/hermes_win.cpp:365-368 | succeeds, installs the script cache and changes no setting |
| HermesWin.RuntimeWrapper.constructor | API/hermes/hermes_win.cpp:398-452 | a crash manager is installed exactly when the configuration asks for one, and the runtime is registered for debugging under its name, or "Hermes", exactly when the debugger is enabled |
| HermesWin.CreateRuntimeAsWritten | API/hermes/hermes_win.cpp:514-522 | as written the call is refused exactly for a null out-pointer, and dereferences null exactly for a null configuration with an out-pointer |
| HermesWin.CreateRuntimeOutcome | API/hermes/hermes_win.cpp:514-522 | the intended outcome: a runtime is created exactly when both the configuration and the out-pointer are there, and null is never dereferenced |
| HermesWin.CreateRuntimeNullConfig | API/hermes/hermes_win.cpp:514-522 | the call as written differs from the intended one exactly for a null configuration with an out-pointer, and there it dereferences null |
| HermesWin.CreateRuntime | API/hermes/hermes_win.cpp:514-522 | the corrected call succeeds exactly when both pointers are there, and then writes a fresh runtime with the crash manager and debugging name the constructor gives the configuration; on failure nothing is written |
| HermesWin.DeleteRuntime | API/hermes/hermes_win.cpp:524-528 | fails exactly for a null runtime |
| HermesWin.CreateConfig | API/hermes/hermes_win.cpp:561-566 | a null out-pointer fails; otherwise a fresh default configuration is written |
| HermesWin.DeleteConfig | API/hermes/hermes_win.cpp:568-572 | fails exactly for a null configuration |
| HermesWin.ConfigEnableDefaultCrashHandler | API/hermes/hermes_win.cpp:574-578 | a null configuration fails; otherwise only the crash-handler flag changes |
| HermesWin.ConfigEnableDebugger | API/hermes/hermes_win.cpp:580-582 | a null configuration fails; otherwise only the debugger flag changes |
| HermesWin.ConfigSetDebuggerRuntimeName | API/hermes/hermes_win.cpp:584-588 | a null configuration fails; otherwise only the runtime name changes |
| HermesWin.ConfigSetDebuggerPort | API/hermes/hermes_win.cpp:590-594 | a null configuration fails; otherwise only the port changes |
| HermesWin.ConfigSetDebuggerBreakOnStart | API/hermes/hermes_win.cpp:596-600 | a null configuration fails; otherwise only the break-on-start flag changes |
| HermesWin.ConfigSetTaskRunner | API/hermes/hermes_win.cpp:602-614 | a null configuration fails; otherwise only the task runner is installed |
| HermesWin.ConfigSetScriptCache | API/hermes/hermes_win.cpp:616-630 | a null configuration fails; otherwise only the script cache is installed |

## Left out

- **Node-API:**
  - All calls into the Hermes VM are left out: GC handles, property access, error, promise and buffer creation, `callIntoModule`, weak roots and predefined symbols. Values are opaque integers.
  - Concurrency is left out: the pending finalizers, the task-runner finalizer scheduling and the mutexes.
  - `NodeApiDoubleConversion` is left out because it is floating point.
  - Whether the GC has collected a weakly held object is a parameter of `NodeApiReference`.
- NodeApiList.LinkedList.PushBack: requires that the item is not already the last item. Pushing the last item back unlinks it and then links after it through the null link the unlink left, which dereferences null; that case is excluded rather than modelled.
- NodeApiScopes.Close: requires that closing the innermost scope does not grow the value stack. The source's `resize` only shrinks, and closing a plain scope as an escapable one can break the nesting that would otherwise guarantee this.
- NodeApiScopes.ValueScopes.CloseValueScope: requires, as `NodeApiScopes.Close` does, that closing does not grow the value stack, where the source's `resize` would crash.
- NodeApiScopes.ValueScopes.CloseEscapableValueScope: requires, as `NodeApiScopes.Close` does, that closing does not grow the value stack, where the source's `resize` would crash.
- **JSI:**
  - The mutex around the runtime-data map is left out.
  - `Runtime::strictEquals` for symbols, BigInts, strings and objects is a parameter.
  - Numbers are compared with a modelled double that has NaN and infinities. It has no IEEE rounding.
  - The iteration order of the `unordered_map` in the runtime-data clean-up is left unspecified.
- **JavaScript lexer:**
  - `decodeUTF8` is a parameter of the model, and so are the Unicode identifier tables. It is the slow path for bytes of 0x80 and above.
  - `hermes_g_strtod`, `parseIntWithRadix` and string interning are not modelled, so number values and identifier atoms are left out.
  - BigInt literals, numeric separators and the identifier-after-number error are left out.
  - The Flow and JSX lexing contexts are left out.
- JSLexer.Lexer.ScanNumericLiteral: counts every error and never stops at the lexer's error limit. In the source, `JSLexer::error` (lib/Parser/JSLexer.cpp:2356-2381) forces end of input once the limit is reached, which skips the literal's remaining checks. Errors from `hermes_g_strtod`, from `parseIntWithRadix` (such as the digit 2 in `0b12`), from misplaced numeric separators and from an identifier right after the number are not counted.
- JSLexer.Lexer.ConsumeOctal: counts its strict-mode error without the error limit; in the source, reaching the limit ends lexing at once.
- JSLexer.Lexer.ConsumeBracedCodePoint: counts its errors without the error limit; in the source, reaching the limit ends lexing at once.
- **dtoa:**
  - All floating point is left out: `strtod`, `bigcomp`, `ulp`, `b2d`, `d2b`, `ratio`, `sulp` and the `dtoa.inc` modes.
  - `gethex`, `increment`, `rshift` and `any_on` only compile with hex floating point, and they call `Balloc`/`lshift` with the wrong number of arguments, so they are left out.
  - `quorem`'s debug-only check that the quotient digit is at most 9 is left out.
  - Memory comes from a modelled pool and heap, and a freed block keeps whatever its words held. `Balloc` requires `k <= 30` so that `1 << k` fits an `int`.
- DtoaBigint.Quorem: requires what the source assumes of its callers: b has at most as many words as S, and S's top word is below 0xFFFFFFFF, so `*sxe + 1` does not wrap to zero.
- **Debugger:**
  - Patching of the bytecode is modelled as the set of patched locations.
  - `resolveBreakpointLocation`, `processInstUnderDebuggerOpCode`, the interpreter loop, stepping, `evalInFrame`, `getStackTrace` and `getLexicalInfoInFrame` are left out. A breakpoint's resolved location is a parameter of `Create`.
  - `Debugger.h` is not part of this model. The first breakpoint id is a parameter, ids are unbounded, and `BreakpointLocation::count()` is abstract: zero exactly when the location has no user breakpoint, no call-stack depth and no on-load flag.
  - `deleteAllBreakpoints` visits the user breakpoints in an unspecified order.
- HermesDebugger.Debugger.SetBreakpointEnabled: follows `DebuggerTables.SetEnabled`, not the source. Take this input: disable breakpoint 1, create breakpoint 2 at the same instruction, then enable 1. The source makes 1 the location's user in place of 2; the model refuses and leaves the tables unchanged. The behaviour as written is `DebuggerTables.SetEnabledAsWritten`, which breaks the tables' consistency (`DebuggerLaws.SetEnabledAsWrittenBreaksTables`).
- **Calendar:**
  - Time values are integer milliseconds, so the floating-point paths of `GetYmdFromTv` for non-integral or non-finite values are left out.
  - `GetDateFormatW` and `GetTimeFormatW` are left out.
- **Intl:**
  - The ICU steps of `NormalizeLangugeTag` (`uloc_forLanguageTag`, `uloc_canonicalize`, `uloc_toLanguageTag` and their UTF-8 round trip) are one partial function given as a parameter.
  - Because those steps are a parameter, the check at lib/Platform/Intl/PlatformIntlWindows.cpp:107 is not modelled: it tests the length returned by `uloc_forLanguageTag` again, not the one from `uloc_toLanguageTag`.
  - `supportedLocalesOf`, `toLocaleLowerCase`, `toLocaleUpperCase` and the `DateTimeFormat`/`NumberFormat` stubs return constants and are left out. `getCanonicalLocales` is a one-line wrapper and is left out too.
- **Crash manager:**
  - `WerRegisterMemoryBlock` and the other WER calls are events in a log.
  - The thread id is a parameter.
  - `mbstowcs` is a conversion function given as a parameter.
  - `setHeapInfo` is left out.
  - The JSON call stack that `hermesCrashHandler` writes is left out.
  - Addresses are unbounded integers.
  - The `hermes_win.cpp` copy differs only in passing the remainder length without a cast. It is covered by the same members.
- **Host libraries:**
  - The VM, the Node-API environment, the sampling profiler, `getNodeApi` and `dump_crash_data` are left out.
  - Registration with the inspector or the chrome debugger is recorded as the name the runtime is registered under. The runtime builder's defaults are a parameter.
  - Freeing configurations and runtimes is left out.
  - `jsr_get_description` and `jsr_is_inspectable` look up the runtime from an environment. That lookup is left out, and the members take the runtime directly.
- HermesWin.CreateRuntime: returns `hermes_error` for a null configuration with a non-null out-pointer, where the source dereferences the null configuration. `HermesWin.CreateRuntimeAsWritten` records what the source does.

## Findings

| source | as written | input that shows it | evidently intended | confidence | as-written member | corrected member |
|---|---|---|---|---|---|---|
| lib/VM/Debugger/Debugger.cpp:779-798 | re-enabling a resolved breakpoint installs it as the user breakpoint of its location without checking whether another breakpoint already holds that location | disable breakpoint 1, create breakpoint 2 at the same instruction, re-enable breakpoint 1: deleting 2 then removes the location although 1 is enabled there, and deleting 1 afterwards fails the assertion in `unsetUserBreakpoint` | refuse to take over a location held by another user breakpoint, as `createBreakpoint` refuses duplicates | medium, not executed | DebuggerLaws.SetEnabledAsWrittenBreaksTables | DebuggerLaws.SetEnabledKeepsValid |
| API/hermes_node_api/hermes_node_api.cpp:625-627 | `isEmpty` compares the sentinel's next and previous links | a list holding one item: both links point at that item, so it reports empty | empty exactly when the sentinel links to itself | high, not executed | NodeApiList.IsEmptyAsWrittenHoldsForOneItem | NodeApiList.IsEmptyMeaning |
| API/jsi/jsi/jsi.cpp:155-170 | a three-byte sequence is rejected only when overlong, so encoded surrogates pass | the bytes ED A0 80 decode to U+D800, which is not a Unicode scalar value (section 3 of RFC 3629) | decode surrogate code points to U+FFFD | medium, not executed | JsiUtf.DecodeUTF8AsWrittenLetsSurrogateThrough | JsiUtf.DecodeEncodeUTF8 |
| lib/Parser/JSLexer.cpp:1581-1599 | the legacy-octal check stops at `.` and lower-case `e` only | `017E5` is read as a decimal number with an exponent, while `017e5` is treated as legacy octal and rejected | the exponent marker is recognised in either case | medium, not executed | JSLexerNumber.LegacyOctalExponentCaseMatters | JSLexerNumber.LegacyOctalRadixIgnoresCase |
| API/hermes_shared/hermes_api.cpp:93-96 | the piece offset `i * WER_MAX_MEM_BLOCK_SIZE` is computed in 32-bit `int` | a block of 0x8001_0000 bytes: piece 0x8000 is registered at offset -0x80000000, before the block | offsets computed in pointer-sized arithmetic, so the pieces tile the block | medium, not executed | CrashManager.LargeBlockOffsetOverflows | CrashManager.RegisterCallsTile |
| API/hermes_shared/hermes_api.cpp:160-164 | a callback's key is the address of the by-value parameter | two registrations made from the same stack slot get the same key: the second callback is never stored, and unregistering the second key removes the first | a key unique to each live registration | medium, not executed | CrashManager.CallbackKeyCollides | CrashManager.CountedKeysDistinct |
| API/hermes/hermes_win.cpp:514-522 | `hermes_create_runtime` checks only the out-pointer before reading the configuration | a null configuration with a non-null out-pointer dereferences null | return `hermes_error` for a null configuration too, as `jsr_create_runtime` does | high, not executed | HermesWin.CreateRuntimeNullConfig | HermesWin.CreateRuntime |
