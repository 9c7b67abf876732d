/*
 * The runtime-independent parts of a JavaScript Interface value and runtime:
 * strict equality of values, dispatched on the value's kind, and the global
 * table of custom data that native code attaches to a runtime under a UUID.
 *
 * Symbols, big integers, strings and objects are pointers into the runtime;
 * comparing two of them is the runtime's business, so the runtime's own
 * strict equality is a parameter. Data pointers, deleters and runtimes are
 * integers, with 0 for null.
 */
module JsiRuntime {

  /** An IEEE 754 double as strict equality sees it: NaN, an infinity, or a
      finite value (the two zeros compare equal, so one finite zero stands
      for both). */
  datatype Double = NaN | PositiveInfinity | NegativeInfinity | Finite(value: real)

  /** The kinds of a value, in the order they are declared. */
  datatype Kind = UndefinedKind | NullKind | BooleanKind | NumberKind | SymbolKind | BigIntKind | StringKind | ObjectKind

  datatype Value =
    | Undefined
    | Null
    | Boolean(b: bool)
    | Number(n: Double)
    | Symbol(symbol: int)
    | BigInt(bigint: int)
    | String(str: int)
    | Object(obj: int)

  function KindOf(v: Value): Kind
  {
    match v
    case Undefined => UndefinedKind
    case Null => NullKind
    case Boolean(_) => BooleanKind
    case Number(_) => NumberKind
    case Symbol(_) => SymbolKind
    case BigInt(_) => BigIntKind
    case String(_) => StringKind
    case Object(_) => ObjectKind
  }

  /** The kinds whose values live in the runtime. */
  predicate IsPointerKind(k: Kind)
  {
    k == SymbolKind || k == BigIntKind || k == StringKind || k == ObjectKind
  }

  /** The pointer a runtime-held value carries. */
  function PointerOf(v: Value): int
    requires IsPointerKind(KindOf(v))
  {
    match v
    case Symbol(p) => p
    case BigInt(p) => p
    case String(p) => p
    case Object(p) => p
  }

  /** `==` on doubles: NaN equals nothing, not even itself. */
  predicate DoubleEquals(x: Double, y: Double)
  {
    !x.NaN? && x == y
  }

  /** Strict equality of two values. Values of different kinds are never
      equal; `undefined` and `null` equal themselves; booleans and numbers
      compare their contents; the rest is asked of the runtime, which is
      given the kind and the two pointers. */
  function StrictEquals(runtimeEquals: (Kind, int, int) -> bool, a: Value, b: Value): (equal: bool)
    ensures KindOf(a) != KindOf(b) ==> !equal
    ensures equal && !IsPointerKind(KindOf(a)) ==> a == b
    ensures a == b && !IsPointerKind(KindOf(a)) ==> (equal <==> a != Number(NaN))
  {
    if KindOf(a) != KindOf(b) then false
    else match a
      case Undefined => true
      case Null => true
      case Boolean(x) => x == b.b
      case Number(x) => DoubleEquals(x, b.n)
      case Symbol(p) => runtimeEquals(SymbolKind, p, b.symbol)
      case BigInt(p) => runtimeEquals(BigIntKind, p, b.bigint)
      case String(p) => runtimeEquals(StringKind, p, b.str)
      case Object(p) => runtimeEquals(ObjectKind, p, b.obj)
  }

  /** What strict equality decides, kind by kind. */
  lemma StrictEqualsMeaning(runtimeEquals: (Kind, int, int) -> bool, a: Value, b: Value)
    ensures KindOf(a) != KindOf(b) ==> !StrictEquals(runtimeEquals, a, b)
    ensures a.Undefined? && b.Undefined? ==> StrictEquals(runtimeEquals, a, b)
    ensures a.Null? && b.Null? ==> StrictEquals(runtimeEquals, a, b)
    ensures a.Boolean? && b.Boolean? ==> (StrictEquals(runtimeEquals, a, b) <==> a.b == b.b)
    ensures a.Number? && b.Number? ==> (StrictEquals(runtimeEquals, a, b) <==> !a.n.NaN? && a.n == b.n)
    ensures IsPointerKind(KindOf(a)) && KindOf(a) == KindOf(b) ==>
      StrictEquals(runtimeEquals, a, b) == runtimeEquals(KindOf(a), PointerOf(a), PointerOf(b))
  {
  }

  /** Strict equality is symmetric when the runtime's is. */
  lemma StrictEqualsSymmetric(runtimeEquals: (Kind, int, int) -> bool, a: Value, b: Value)
    requires forall k, p, q :: runtimeEquals(k, p, q) == runtimeEquals(k, q, p)
    ensures StrictEquals(runtimeEquals, a, b) == StrictEquals(runtimeEquals, b, a)
  {
  }

  /** Every value but NaN strictly equals itself when the runtime's equality
      is reflexive. */
  lemma StrictEqualsReflexive(runtimeEquals: (Kind, int, int) -> bool, a: Value)
    requires forall k, p :: runtimeEquals(k, p, p)
    ensures StrictEquals(runtimeEquals, a, a) <==> a != Number(NaN)
  {
  }

  // ---------------------------------------------------------------------------
  // Custom runtime data.
  // ---------------------------------------------------------------------------

  /** A 128-bit UUID as its two halves. */
  datatype UUID = UUID(high: int, low: int)

  /** A stored pointer and the deleter that releases it. */
  datatype Entry = Entry(data: int, deleter: int)

  /** What the table makes happen outside itself: a deleter called on a
      pointer, or the clean-up host object installed on a runtime's global
      object. */
  datatype Event = DeleterCalled(deleter: int, data: int) | CleanupInstalled(runtime: int)

  type DataMap = map<int, map<UUID, Entry>>

  /** Storing `data` for `runtime` under `uuid`: an entry already there has
      its deleter run on its pointer first; the first data stored for a
      runtime installs the clean-up object. */
  function SetData(m: DataMap, runtime: int, uuid: UUID, data: int, deleter: int): (DataMap, seq<Event>)
  {
    if runtime in m then
      var inner := m[runtime];
      var freed := if uuid in inner then [DeleterCalled(inner[uuid].deleter, inner[uuid].data)] else [];
      (m[runtime := inner[uuid := Entry(data, deleter)]], freed)
    else
      (m[runtime := map[uuid := Entry(data, deleter)]], [CleanupInstalled(runtime)])
  }

  /** The pointer stored for `runtime` under `uuid`, null when none is. */
  function GetData(m: DataMap, runtime: int, uuid: UUID): int
  {
    if runtime in m && uuid in m[runtime] then m[runtime][uuid].data else 0
  }

  /** The events are the deleter calls of the entries under the UUIDs of
      `order`, one call per UUID, where `order` lists every UUID of the
      runtime's data exactly once. */
  ghost predicate FreedInOrder(inner: map<UUID, Entry>, order: seq<UUID>, events: seq<Event>)
  {
    && |order| == |events|
    && (forall i, j :: 0 <= i < j < |order| ==> order[i] != order[j])
    && (forall u :: u in inner <==> u in order)
    && (forall i :: 0 <= i < |order| ==>
          order[i] in inner && events[i] == DeleterCalled(inner[order[i]].deleter, inner[order[i]].data))
  }

  /** Every entry of a runtime's data as the deleter call that frees it:
      one call per UUID, in some order of the UUIDs, and nothing else. */
  ghost predicate FreesAll(inner: map<UUID, Entry>, events: seq<Event>)
  {
    && |events| == |inner|
    && (forall u :: u in inner ==> DeleterCalled(inner[u].deleter, inner[u].data) in events)
    && (forall k :: 0 <= k < |events| ==> exists u :: u in inner && events[k] == DeleterCalled(inner[u].deleter, inner[u].data))
    && exists order :: FreedInOrder(inner, order, events)
  }

  /** Two UUIDs get a deleter call each, at two different places among the
      events, even when they hold the same pointer and deleter: an entry
      stored twice is freed twice. */
  lemma FreesEachUUID(inner: map<UUID, Entry>, order: seq<UUID>, events: seq<Event>, u1: UUID, u2: UUID)
    requires FreedInOrder(inner, order, events)
    requires u1 in inner && u2 in inner && u1 != u2
    ensures exists i, j :: (0 <= i < |events| && 0 <= j < |events| && i != j
      && events[i] == DeleterCalled(inner[u1].deleter, inner[u1].data)
      && events[j] == DeleterCalled(inner[u2].deleter, inner[u2].data))
  {
    assert u1 in order && u2 in order;
    var i :| 0 <= i < |order| && order[i] == u1;
    var j :| 0 <= j < |order| && order[j] == u2;
    assert events[i] == DeleterCalled(inner[u1].deleter, inner[u1].data);
    assert events[j] == DeleterCalled(inner[u2].deleter, inner[u2].data);
  }

  /** A lookup after a store finds the new pointer; the old one, if any, has
      been handed to its deleter, the clean-up object is installed exactly
      when the runtime had no data, and nothing else changes. */
  lemma SetThenGet(m: DataMap, runtime: int, uuid: UUID, data: int, deleter: int, r: int, u: UUID)
    ensures var (m', events) := SetData(m, runtime, uuid, data, deleter);
      && GetData(m', runtime, uuid) == data
      && ((r, u) != (runtime, uuid) ==> GetData(m', r, u) == GetData(m, r, u))
      && (events == [CleanupInstalled(runtime)] <==> runtime !in m)
      && (runtime in m && uuid in m[runtime] ==> events == [DeleterCalled(m[runtime][uuid].deleter, m[runtime][uuid].data)])
      && (runtime in m && uuid !in m[runtime] ==> events == [])
      && runtime in m'
  {
  }

  /** A runtime nobody stored data for yields null for every UUID. */
  lemma GetAbsentIsNull(m: DataMap, runtime: int, uuid: UUID)
    requires runtime !in m || uuid !in m[runtime]
    ensures GetData(m, runtime, uuid) == 0
  {
  }

  /** The process-wide table, keyed by runtime and then by UUID, together with
      the events it has caused so far. */
  class RuntimeDataGlobal {
    var dataMap: DataMap
    var events: seq<Event>

    constructor ()
      ensures dataMap == map[] && events == []
    {
      dataMap := map[];
      events := [];
    }

    /** Stores `data` and its deleter for `runtime` under `uuid`. */
    method SetRuntimeData(runtime: int, uuid: UUID, data: int, deleter: int)
      modifies this
      ensures (dataMap, events) == (SetData(old(dataMap), runtime, uuid, data, deleter).0,
                                    old(events) + SetData(old(dataMap), runtime, uuid, data, deleter).1)
    {
      if runtime in dataMap {
        var inner := dataMap[runtime];
        if uuid in inner {
          events := events + [DeleterCalled(inner[uuid].deleter, inner[uuid].data)];
        } else {
          assert events == events + [];
        }
        dataMap := dataMap[runtime := inner[uuid := Entry(data, deleter)]];
        return;
      }
      dataMap := dataMap[runtime := map[uuid := Entry(data, deleter)]];
      events := events + [CleanupInstalled(runtime)];
    }

    /** The pointer stored for `runtime` under `uuid`, or null. */
    method GetRuntimeData(runtime: int, uuid: UUID) returns (data: int)
      ensures data == GetData(dataMap, runtime, uuid)
    {
      if runtime in dataMap {
        if uuid in dataMap[runtime] {
          return dataMap[runtime][uuid].data;
        }
      }
      return 0;
    }

    /** What the clean-up object does when its runtime goes away: runs the
        deleter of every entry of the runtime, in no particular order, and
        forgets the runtime. The object exists only once data was stored, so
        the runtime is always in the table. */
    method RemoveRuntimeData(runtime: int)
      requires runtime in dataMap
      modifies this
      ensures dataMap == old(dataMap) - {runtime}
      ensures |events| >= |old(events)| && events[..|old(events)|] == old(events)
      ensures FreesAll(old(dataMap)[runtime], events[|old(events)|..])
    {
      var inner := dataMap[runtime];
      var rest := inner.Keys;
      var freed: seq<Event> := [];
      ghost var order: seq<UUID> := [];
      while rest != {}
        invariant rest <= inner.Keys
        invariant |freed| + |rest| == |inner|
        invariant forall u :: u in inner && u !in rest ==> DeleterCalled(inner[u].deleter, inner[u].data) in freed
        invariant forall k :: 0 <= k < |freed| ==> exists u :: u in inner && freed[k] == DeleterCalled(inner[u].deleter, inner[u].data)
        invariant |order| == |freed|
        invariant forall i, j :: 0 <= i < j < |order| ==> order[i] != order[j]
        invariant forall u :: u in order <==> u in inner && u !in rest
        invariant forall i :: 0 <= i < |order| ==>
          order[i] in inner && freed[i] == DeleterCalled(inner[order[i]].deleter, inner[order[i]].data)
        decreases |rest|
      {
        var u :| u in rest;
        freed := freed + [DeleterCalled(inner[u].deleter, inner[u].data)];
        order := order + [u];
        rest := rest - {u};
      }
      assert FreedInOrder(inner, order, freed);
      assert |inner.Keys| == |inner|;
      events := events + freed;
      dataMap := dataMap - {runtime};
      assert events[|old(events)|..] == freed;
    }
  }
}
