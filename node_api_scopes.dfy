/*
 * The handle scopes of a Node-API environment. Every `napi_value` handed out
 * lives on the value stack; opening a scope saves the value-stack size on the
 * scope stack, and closing it cuts the value stack back to that size. An
 * escapable scope first pushes a slot for the escaping value and a native
 * sentinel tag below its saved size; escaping writes the value into that
 * slot and marks the tag as used.
 *
 * Both stacks are chunked stacks whose items never move (modelled in
 * NodeApiStack); here they are sequences, and a scope handle, which is the
 * address of a saved size, is its position on the scope stack.
 */
module NodeApiScopes {

  datatype Option<T> = None | Some(value: T)

  /** The Node-API statuses these operations return. */
  datatype Status = Ok | InvalidArg | HandleScopeMismatch | EscapeCalledTwice

  /** A value-stack slot: the empty value pushed for an escapable scope, a
      native integer (the sentinel tags), or a JavaScript value. */
  datatype Slot = EmptySlot | NativeSlot(tag: int) | JsSlot(value: int)

  /** A scope handle: null, or the address of the saved size at `index` on
      the scope stack. */
  datatype ScopeHandle = NullScope | ScopeAt(index: int)

  const EscapableSentinelTag: int := 0x4a616e75
  const UsedEscapableSentinelTag: int := EscapableSentinelTag + 1

  /** The value stack and the stack of saved value-stack sizes. */
  datatype Scopes = Scopes(values: seq<Slot>, saved: seq<nat>)

  /** Closing `scope` would not grow the value stack, which its resize
      forbids. */
  predicate ResizeAllowed(st: Scopes, scope: ScopeHandle)
  {
    |st.saved| > 0 && scope == ScopeAt(|st.saved| - 1) ==> st.saved[|st.saved| - 1] <= |st.values|
  }

  /** Saved sizes never decrease from outer to inner scope and never exceed
      the value stack. */
  ghost predicate WellNested(st: Scopes)
  {
    && (forall i, j :: 0 <= i < j < |st.saved| ==> st.saved[i] <= st.saved[j])
    && (forall i :: 0 <= i < |st.saved| ==> st.saved[i] <= |st.values|)
  }

  /** Opens a scope at the current value-stack size. The scope is pushed even
      when there is nowhere to write its handle. */
  function Open(st: Scopes, hasResult: bool): (Status, ScopeHandle, Scopes)
  {
    var st' := Scopes(st.values, st.saved + [|st.values|]);
    if hasResult then (Ok, ScopeAt(|st.saved|), st') else (InvalidArg, NullScope, st')
  }

  /** Closes the innermost scope, cutting the value stack back to its saved
      size; any other handle is a mismatch and changes nothing. */
  function Close(st: Scopes, scope: ScopeHandle): (r: (Status, Scopes))
    requires ResizeAllowed(st, scope)
    ensures r.0 == Ok <==> |st.saved| > 0 && scope == ScopeAt(|st.saved| - 1)
    ensures r.0 != Ok ==> r.1 == st
    ensures r.0 == Ok ==> r.1.values == st.values[..st.saved[|st.saved| - 1]] && r.1.saved == st.saved[..|st.saved| - 1]
  {
    if scope == NullScope then (InvalidArg, st)
    else if |st.saved| == 0 then (HandleScopeMismatch, st)
    else if scope != ScopeAt(|st.saved| - 1) then (HandleScopeMismatch, st)
    else (Ok, Scopes(st.values[..st.saved[|st.saved| - 1]], st.saved[..|st.saved| - 1]))
  }

  /** Pushes the slot for the escaping value and the sentinel, then opens a
      scope above them. */
  function OpenEscapable(st: Scopes, hasResult: bool): (Status, ScopeHandle, Scopes)
  {
    if !hasResult then (InvalidArg, NullScope, st)
    else Open(Scopes(st.values + [EmptySlot, NativeSlot(EscapableSentinelTag)], st.saved), true)
  }

  /** Closes an escapable scope: closes the scope, then drops the sentinel,
      which must be a tag, used or not. */
  function CloseEscapable(st: Scopes, scope: ScopeHandle): (Status, Scopes)
    requires ResizeAllowed(st, scope)
  {
    var (status, st1) := Close(st, scope);
    if status != Ok then (status, st1)
    else if |st1.values| <= 1 then (HandleScopeMismatch, st1)
    else
      var top := st1.values[|st1.values| - 1];
      if !top.NativeSlot? then (HandleScopeMismatch, st1)
      else if top.tag != EscapableSentinelTag && top.tag != UsedEscapableSentinelTag then (HandleScopeMismatch, st1)
      else (Ok, Scopes(st1.values[..|st1.values| - 1], st1.saved))
  }

  /** Escapes `escapee` through `scope`: writes it into the slot below the
      scope's sentinel and marks the sentinel used; returns that slot's
      position. The value is written even when there is nowhere to write the
      result. */
  function Escape(st: Scopes, scope: ScopeHandle, escapee: Option<int>, hasResult: bool): (Status, Option<int>, Scopes)
    requires scope.ScopeAt? ==> 0 <= scope.index < |st.saved|
  {
    if scope == NullScope || escapee == None then (InvalidArg, None, st)
    else
      var saved := st.saved[scope.index];
      if !(saved > 1) then (InvalidArg, None, st)
      else if !(saved <= |st.values|) then (InvalidArg, None, st)
      else
        var tag := st.values[saved - 1];
        if !tag.NativeSlot? then (InvalidArg, None, st)
        else if tag.tag == UsedEscapableSentinelTag then (EscapeCalledTwice, None, st)
        else if tag.tag != EscapableSentinelTag then (InvalidArg, None, st)
        else
          var st' := Scopes(st.values[saved - 2 := JsSlot(escapee.value)][saved - 1 := NativeSlot(UsedEscapableSentinelTag)], st.saved);
          if hasResult then (Ok, Some(saved - 2), st') else (InvalidArg, None, st')
  }

  /** Pushes a new JavaScript value, as every Node-API call that returns one
      does. */
  function Push(st: Scopes, value: int): Scopes
  {
    Scopes(st.values + [JsSlot(value)], st.saved)
  }

  /** Pushes several values in order. */
  function PushAll(st: Scopes, vs: seq<int>): (r: Scopes)
    ensures r.saved == st.saved && |r.values| == |st.values| + |vs|
    ensures r.values[..|st.values|] == st.values
    ensures forall k :: 0 <= k < |vs| ==> r.values[|st.values| + k] == JsSlot(vs[k])
    decreases |vs|
  {
    if vs == [] then st else PushAll(Push(st, vs[0]), vs[1..])
  }

  // ---------------------------------------------------------------------------
  // What the scopes promise.
  // ---------------------------------------------------------------------------

  /** Well-nested scopes may always be closed. */
  lemma WellNestedAllowsResize(st: Scopes, scope: ScopeHandle)
    requires WellNested(st)
    ensures ResizeAllowed(st, scope)
  {
    if |st.saved| > 0 {
      assert st.saved[|st.saved| - 1] <= |st.values|;
    }
  }

  /** Opening a scope keeps the scopes well nested. */
  lemma OpenKeepsWellNested(st: Scopes, hasResult: bool)
    requires WellNested(st)
    ensures WellNested(Open(st, hasResult).2)
  {
    var st' := Open(st, hasResult).2;
    forall i | 0 <= i < |st'.saved| ensures st'.saved[i] <= |st.values| {
      if i < |st.saved| {
        assert st'.saved[i] == st.saved[i];
      }
    }
  }

  /** Opening an escapable scope and pushing a value keep the scopes well
      nested. */
  lemma OpenEscapableKeepsWellNested(st: Scopes, hasResult: bool, value: int)
    requires WellNested(st)
    ensures WellNested(OpenEscapable(st, hasResult).2)
    ensures WellNested(Push(st, value))
  {
    var st1 := Scopes(st.values + [EmptySlot, NativeSlot(EscapableSentinelTag)], st.saved);
    assert WellNested(st1);
    OpenKeepsWellNested(st1, true);
  }

  /** Closing a scope keeps the scopes well nested. */
  lemma CloseKeepsWellNested(st: Scopes, scope: ScopeHandle)
    requires WellNested(st)
    ensures ResizeAllowed(st, scope) && WellNested(Close(st, scope).1)
  {
    WellNestedAllowsResize(st, scope);
    var n := |st.saved|;
    if Close(st, scope).0 == Ok {
      var st' := Close(st, scope).1;
      assert forall i :: 0 <= i < |st'.saved| ==> st'.saved[i] == st.saved[i] <= st.saved[n - 1];
    }
  }

  /** A scope that is opened and closed again, with any values pushed in
      between, leaves both stacks as they were. */
  lemma OpenPushCloseRestores(st: Scopes, vs: seq<int>)
    ensures var (_, scope, st1) := Open(st, true);
      var st2 := PushAll(st1, vs);
      ResizeAllowed(st2, scope) && Close(st2, scope) == (Ok, st)
  {
    var (_, scope, st1) := Open(st, true);
    var st2 := PushAll(st1, vs);
    assert st2.values[..|st.values|] == st.values;
    assert st2.saved[..|st.saved|] == st.saved;
  }

  /** Escaping one value through an escapable scope and closing it, with any
      values pushed inside, leaves exactly that value pushed on the
      enclosing scope. */
  lemma EscapeRoundTrip(st: Scopes, vs: seq<int>, value: int)
    ensures var (s1, scope, st1) := OpenEscapable(st, true);
      var st2 := PushAll(st1, vs);
      var (s3, result, st3) := Escape(st2, scope, Some(value), true);
      && s1 == Ok && s3 == Ok && result == Some(|st.values|)
      && ResizeAllowed(st3, scope)
      && CloseEscapable(st3, scope) == (Ok, Push(st, value))
  {
    var n := |st.values|;
    var (s1, scope, st1) := OpenEscapable(st, true);
    assert st1.values == st.values + [EmptySlot, NativeSlot(EscapableSentinelTag)];
    assert st1.saved == st.saved + [n + 2] && scope == ScopeAt(|st.saved|);
    var st2 := PushAll(st1, vs);
    assert st2.values[..n + 2] == st1.values;
    assert st2.values[n + 1] == st1.values[n + 1] == NativeSlot(EscapableSentinelTag);
    var (s3, result, st3) := Escape(st2, scope, Some(value), true);
    assert st3.values == st2.values[n := JsSlot(value)][n + 1 := NativeSlot(UsedEscapableSentinelTag)];
    var (s4, st4) := Close(st3, scope);
    assert st4.values == st3.values[..n + 2] == st.values + [JsSlot(value), NativeSlot(UsedEscapableSentinelTag)];
    assert st4.values[..n + 1] == st.values + [JsSlot(value)];
  }

  /** Once a value has escaped through a scope, escaping again through it
      fails with `EscapeCalledTwice`, whatever was pushed in between. */
  lemma EscapeOnlyOnce(st: Scopes, scope: ScopeHandle, first: int, second: int, vs: seq<int>, hasResult: bool)
    requires scope.ScopeAt? && 0 <= scope.index < |st.saved|
    requires Escape(st, scope, Some(first), true).0 == Ok
    ensures var st2 := PushAll(Escape(st, scope, Some(first), true).2, vs);
      Escape(st2, scope, Some(second), hasResult).0 == EscapeCalledTwice
  {
    var saved := st.saved[scope.index];
    var st1 := Escape(st, scope, Some(first), true).2;
    assert st1.values[saved - 1] == NativeSlot(UsedEscapableSentinelTag);
    var st2 := PushAll(st1, vs);
    assert st2.values[saved - 1] == st2.values[..|st1.values|][saved - 1];
  }

  /** A successful escape changes only the slot below the sentinel, which now
      holds the value, and the sentinel, which is marked used. */
  lemma EscapeWritesBelowSentinel(st: Scopes, scope: ScopeHandle, value: int)
    requires scope.ScopeAt? && 0 <= scope.index < |st.saved|
    requires Escape(st, scope, Some(value), true).0 == Ok
    ensures var saved := st.saved[scope.index];
      var (_, result, st') := Escape(st, scope, Some(value), true);
      && 2 <= saved <= |st.values| && result == Some(saved - 2)
      && st.values[saved - 1] == NativeSlot(EscapableSentinelTag)
      && st'.saved == st.saved && |st'.values| == |st.values|
      && st'.values[saved - 2] == JsSlot(value) && st'.values[saved - 1] == NativeSlot(UsedEscapableSentinelTag)
      && forall k :: 0 <= k < |st.values| && k != saved - 2 && k != saved - 1 ==> st'.values[k] == st.values[k]
  {
  }

  /** The two stacks of one environment. */
  class ValueScopes {
    var values: seq<Slot>
    var saved: seq<nat>

    function State(): Scopes
      reads this
    {
      Scopes(values, saved)
    }

    constructor ()
      ensures State() == Scopes([], [])
    {
      values := [];
      saved := [];
    }

    /** Pushes a new JavaScript value. */
    method PushValue(value: int)
      modifies this
      ensures State() == Push(old(State()), value)
    {
      values := values + [JsSlot(value)];
    }

    method OpenValueScope(hasResult: bool) returns (status: Status, handle: ScopeHandle)
      modifies this
      ensures (status, handle, State()) == Open(old(State()), hasResult)
    {
      var scope := |values|;
      saved := saved + [scope];
      if !hasResult {
        return InvalidArg, NullScope;
      }
      return Ok, ScopeAt(|saved| - 1);
    }

    method CloseValueScope(scope: ScopeHandle) returns (status: Status)
      requires ResizeAllowed(State(), scope)
      modifies this
      ensures (status, State()) == Close(old(State()), scope)
    {
      if scope == NullScope {
        return InvalidArg;
      }
      if |saved| == 0 {
        return HandleScopeMismatch;
      }
      var top := |saved| - 1;
      if scope != ScopeAt(top) {
        return HandleScopeMismatch;
      }
      values := values[..saved[top]];
      saved := saved[..top];
      return Ok;
    }

    method OpenEscapableValueScope(hasResult: bool) returns (status: Status, handle: ScopeHandle)
      modifies this
      ensures (status, handle, State()) == OpenEscapable(old(State()), hasResult)
    {
      if !hasResult {
        return InvalidArg, NullScope;
      }
      values := values + [EmptySlot];
      values := values + [NativeSlot(EscapableSentinelTag)];
      assert values == old(values) + [EmptySlot, NativeSlot(EscapableSentinelTag)];
      status, handle := OpenValueScope(true);
    }

    method CloseEscapableValueScope(scope: ScopeHandle) returns (status: Status)
      requires ResizeAllowed(State(), scope)
      modifies this
      ensures (status, State()) == CloseEscapable(old(State()), scope)
    {
      status := CloseValueScope(scope);
      if status != Ok {
        return;
      }
      if !(|values| > 1) {
        return HandleScopeMismatch;
      }
      var sentinelTag := values[|values| - 1];
      if !sentinelTag.NativeSlot? {
        return HandleScopeMismatch;
      }
      if !(sentinelTag.tag == EscapableSentinelTag || sentinelTag.tag == UsedEscapableSentinelTag) {
        return HandleScopeMismatch;
      }
      values := values[..|values| - 1];
      return Ok;
    }

    method EscapeValue(scope: ScopeHandle, escapee: Option<int>, hasResult: bool) returns (status: Status, result: Option<int>)
      requires scope.ScopeAt? ==> 0 <= scope.index < |saved|
      modifies this
      ensures (status, result, State()) == Escape(old(State()), scope, escapee, hasResult)
    {
      if scope == NullScope || escapee == None {
        return InvalidArg, None;
      }
      var stackScope := saved[scope.index];
      if !(stackScope > 1) || !(stackScope <= |values|) {
        return InvalidArg, None;
      }
      var sentinelTag := values[stackScope - 1];
      if !sentinelTag.NativeSlot? {
        return InvalidArg, None;
      }
      if sentinelTag.tag == UsedEscapableSentinelTag {
        return EscapeCalledTwice, None;
      }
      if sentinelTag.tag != EscapableSentinelTag {
        return InvalidArg, None;
      }
      values := values[stackScope - 2 := JsSlot(escapee.value)];
      values := values[stackScope - 1 := NativeSlot(UsedEscapableSentinelTag)];
      if !hasResult {
        return InvalidArg, None;
      }
      return Ok, Some(stackScope - 2);
    }
  }
}
