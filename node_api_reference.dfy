/*
 * The reference-count state machine of a Node-API reference. A reference
 * holds its value strongly while its count is positive; at count zero an
 * object is held weakly, so the garbage collector may take it, and any other
 * value is dropped. The collector's verdict on a weakly held object is a
 * parameter (`alive`) of the operations that look at it.
 */
module NodeApiReference {

  datatype Option<T> = None | Some(value: T)

  /** One more than the largest unsigned 32-bit value. */
  const Uint32Limit: int := 0x1_0000_0000

  /** A VM value: the empty value, `undefined`, an object (by identity), or
      any other value. */
  datatype Value = EmptyValue | UndefinedValue | ObjectValue(obj: int) | OtherValue(v: int)

  /** The storage of a reference: a strong root holding a value, or a weak
      root naming an object. */
  datatype Storage = Strong(value: Value) | Weak(obj: int)

  /** The state of a reference: its storage, its unsigned 32-bit count, and
      whether its value is one that may be held weakly (an object). */
  datatype RefState = RefState(storage: Storage, refCount: int, canBeWeak: bool)

  predicate IsStorageEmpty(s: RefState)
  {
    s.storage == Strong(EmptyValue)
  }

  /** The value is kept alive by the reference. */
  predicate IsRooted(s: RefState)
  {
    s.storage.Strong? && s.storage.value != EmptyValue
  }

  /** `s` refers to `target` and nothing else: it holds it strongly, holds the
      object weakly, or holds nothing; only objects are held weakly, and only
      at count zero. */
  ghost predicate Refers(s: RefState, target: Value)
  {
    && 0 <= s.refCount < Uint32Limit
    && s.canBeWeak == target.ObjectValue?
    && (s.storage == Strong(EmptyValue) || s.storage == Strong(target) || (s.storage.Weak? && target == ObjectValue(s.storage.obj)))
    && (s.storage.Weak? ==> s.refCount == 0)
  }

  /** Refers to `target`, and holds it strongly only while counted. */
  ghost predicate Counted(s: RefState, target: Value)
  {
    Refers(s, target) && (IsRooted(s) ==> s.refCount > 0)
  }

  /** Weak storage becomes strong again: the object if the collector has not
      taken it, empty otherwise. */
  function ToValueStorage(s: RefState, alive: bool): RefState
    requires s.storage.Weak? ==> s.canBeWeak
  {
    if !s.storage.Weak? then s
    else s.(storage := Strong(if alive then ObjectValue(s.storage.obj) else EmptyValue))
  }

  /** Strong storage becomes weak for an object and empty for anything else. */
  function ToWeakRootStorage(s: RefState): RefState
    requires s.canBeWeak && s.storage.Strong? && s.storage.value != EmptyValue ==> s.storage.value.ObjectValue?
  {
    if s.storage.Weak? then s
    else if IsStorageEmpty(s) then s
    else if !s.canBeWeak then s.(storage := Strong(EmptyValue))
    else s.(storage := Weak(s.storage.value.obj))
  }

  /** A new reference to `value` with the given count; at count zero it does
      not keep its value alive. */
  function Create(value: Value, initialRefCount: int): (s: RefState)
    requires 0 <= initialRefCount < Uint32Limit
    ensures Counted(s, value)
    ensures initialRefCount > 0 ==> s.storage == Strong(value)
    ensures initialRefCount == 0 ==> !IsRooted(s)
  {
    var s := RefState(Strong(value), initialRefCount, value.ObjectValue?);
    if initialRefCount == 0 then ToWeakRootStorage(s) else s
  }

  /** Counts one more use and returns the new count; the step from zero to
      one takes a weakly held object back into strong storage. A reference
      whose storage is empty stays as it is and returns zero. */
  function Inc(s: RefState, alive: bool): (RefState, int)
    requires 0 <= s.refCount < Uint32Limit && (s.storage.Weak? ==> s.canBeWeak)
  {
    if IsStorageEmpty(s) then (s, 0)
    else
      var count := (s.refCount + 1) % Uint32Limit;
      var s1 := s.(refCount := count);
      var s2 := if count == 1 && s.canBeWeak then ToValueStorage(s1, alive) else s1;
      (s2, count)
  }

  /** Counts one use less and returns the new count; the step from one to
      zero lets go of the value. An empty reference or one already at zero
      stays as it is and returns zero. */
  function Dec(s: RefState): (RefState, int)
    requires s.canBeWeak && IsRooted(s) ==> s.storage.value.ObjectValue?
  {
    if IsStorageEmpty(s) || s.refCount == 0 then (s, 0)
    else
      var count := s.refCount - 1;
      var s1 := s.(refCount := count);
      ((if count == 0 then ToWeakRootStorage(s1) else s1), count)
  }

  /** The value a reference yields: none when its storage is empty,
      `undefined` when its weakly held object was collected. */
  function ValueOf(s: RefState, alive: bool): Option<Value>
  {
    if IsStorageEmpty(s) then None
    else if s.storage.Weak? then Some(if alive then ObjectValue(s.storage.obj) else UndefinedValue)
    else Some(s.storage.value)
  }

  // ---------------------------------------------------------------------------
  // What the state machine promises.
  // ---------------------------------------------------------------------------

  /** Counting up never makes a reference refer to anything else, and keeps
      the count-zero rule unless the count wraps around. */
  lemma IncKeepsReferent(s: RefState, target: Value, alive: bool)
    requires Refers(s, target)
    ensures var (s', count) := Inc(s, alive);
      && Refers(s', target) && (!IsStorageEmpty(s) ==> count == s'.refCount)
      && (count == 0 <==> IsStorageEmpty(s) || s.refCount == Uint32Limit - 1)
      && (Counted(s, target) && s.refCount < Uint32Limit - 1 ==> Counted(s', target))
  {
  }

  /** Counting down never makes a reference refer to anything else, and a
      reference whose count reaches zero no longer keeps its value alive. */
  lemma DecKeepsReferent(s: RefState, target: Value)
    requires Refers(s, target)
    ensures var (s', count) := Dec(s);
      && Refers(s', target)
      && (Counted(s, target) ==> Counted(s', target))
      && (!IsStorageEmpty(s) && s.refCount > 0 ==> count == s.refCount - 1 == s'.refCount)
      && (!IsStorageEmpty(s) && s.refCount == 1 ==> !IsRooted(s'))
  {
  }

  /** Taking a live reference up by one and down again leaves it as it was. */
  lemma IncDecRoundTrip(s: RefState, target: Value)
    requires Counted(s, target) && !IsStorageEmpty(s) && s.refCount < Uint32Limit - 1
    ensures var s1 := Inc(s, true).0;
      Refers(s1, target) && Dec(s1).0 == s
  {
    var s1 := Inc(s, true).0;
    IncKeepsReferent(s, target, true);
    if s.refCount == 0 {
      assert s.storage.Weak?;
      assert s1.storage == Strong(ObjectValue(s.storage.obj));
    }
  }

  /** After 2^32 - 1 uses the count wraps around to zero while the value is
      still held strongly. */
  lemma IncWrapsAtLimit(target: Value)
    requires target != EmptyValue
    ensures var s := Create(target, Uint32Limit - 1);
      var (s', count) := Inc(s, true);
      count == 0 && IsRooted(s')
  {
  }

  /** A reference the collector has not taken yields its value; one whose
      storage was emptied yields none. */
  lemma ValueOfMeaning(s: RefState, target: Value)
    requires Refers(s, target) && target != EmptyValue
    ensures ValueOf(s, true) == None <==> IsStorageEmpty(s)
    ensures !IsStorageEmpty(s) ==> ValueOf(s, true) == Some(target)
  {
  }

  class Reference {
    var storage: Storage
    var refCount: int
    const canBeWeak: bool

    function State(): RefState
      reads this
    {
      RefState(storage, refCount, canBeWeak)
    }

    constructor (value: Value, initialRefCount: int)
      requires 0 <= initialRefCount < Uint32Limit
      ensures State() == Create(value, initialRefCount)
    {
      storage := Strong(value);
      refCount := initialRefCount;
      canBeWeak := value.ObjectValue?;
      new;
      if refCount == 0 {
        ConvertToWeakRootStorage();
      }
    }

    method IncRefCount(alive: bool) returns (count: int)
      requires 0 <= refCount < Uint32Limit && (storage.Weak? ==> canBeWeak)
      modifies this
      ensures (State(), count) == Inc(old(State()), alive)
    {
      if storage == Strong(EmptyValue) {
        return 0;
      }
      refCount := (refCount + 1) % Uint32Limit;
      if refCount == 1 && canBeWeak {
        ConvertToValueStorage(alive);
      }
      return refCount;
    }

    method DecRefCount() returns (count: int)
      requires canBeWeak && IsRooted(State()) ==> storage.value.ObjectValue?
      modifies this
      ensures (State(), count) == Dec(old(State()))
    {
      if storage == Strong(EmptyValue) || refCount == 0 {
        return 0;
      }
      refCount := refCount - 1;
      if refCount == 0 {
        ConvertToWeakRootStorage();
      }
      return refCount;
    }

    method ConvertToValueStorage(alive: bool)
      requires storage.Weak? ==> canBeWeak
      modifies this
      ensures State() == ToValueStorage(old(State()), alive)
    {
      if !storage.Weak? {
        return;
      }
      storage := Strong(if alive then ObjectValue(storage.obj) else EmptyValue);
    }

    method ConvertToWeakRootStorage()
      requires canBeWeak && IsRooted(State()) ==> storage.value.ObjectValue?
      modifies this
      ensures State() == ToWeakRootStorage(old(State()))
    {
      if storage.Weak? {
        return;
      }
      if storage == Strong(EmptyValue) {
        return;
      }
      if !canBeWeak {
        ResetStorage();
        return;
      }
      storage := Weak(storage.value.obj);
    }

    method ResetStorage()
      modifies this
      ensures storage == Strong(EmptyValue) && refCount == old(refCount)
    {
      storage := Strong(EmptyValue);
    }

    function Value(alive: bool): Option<Value>
      reads this
    {
      ValueOf(State(), alive)
    }
  }
}
