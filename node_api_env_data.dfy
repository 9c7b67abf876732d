/*
 * Data that native code attaches to a Node-API environment under a 128-bit
 * type tag. A module's environment has a parent environment and forwards
 * every request to it, so all modules loaded into one runtime share the data
 * of the root environment. Data pointers are integers with 0 for null.
 */
module NodeApiEnvData {
  import opened NodeApiScopes

  datatype TypeTag = TypeTag(lower: int, upper: int)

  /** Stores `data` under `tag` unless something is stored there already;
      null data removes the entry instead. */
  function SetData(m: map<TypeTag, int>, tag: TypeTag, data: int): (m': map<TypeTag, int>)
    ensures data != 0 && tag in m ==> m' == m
    ensures data != 0 && tag !in m ==> m' == m[tag := data]
    ensures data == 0 ==> tag !in m' && forall t :: t in m' <==> t in m && t != tag
    ensures forall t :: t != tag ==> (t in m' <==> t in m) && (t in m ==> m'[t] == m[t])
  {
    if data != 0 then (if tag in m then m else m[tag := data]) else m - {tag}
  }

  /** The data stored under `tag`, null when there is none. */
  function Lookup(m: map<TypeTag, int>, tag: TypeTag): int
  {
    if tag in m then m[tag] else 0
  }

  /** Only non-null data is ever stored. */
  ghost predicate NonNullData(m: map<TypeTag, int>)
  {
    forall t :: t in m ==> m[t] != 0
  }

  /** Setting keeps the data non-null; what a later lookup finds is the data
      stored first under that tag, or nothing after a null store; no other
      tag is affected. */
  lemma SetThenLookup(m: map<TypeTag, int>, tag: TypeTag, data: int, other: TypeTag)
    requires NonNullData(m)
    ensures NonNullData(SetData(m, tag, data))
    ensures Lookup(SetData(m, tag, data), tag) == if data == 0 then 0 else if Lookup(m, tag) != 0 then Lookup(m, tag) else data
    ensures other != tag ==> Lookup(SetData(m, tag, data), other) == Lookup(m, other)
  {
  }

  /** With only non-null data stored, a null lookup means the tag is absent. */
  lemma LookupNullMeansAbsent(m: map<TypeTag, int>, tag: TypeTag)
    requires NonNullData(m)
    ensures Lookup(m, tag) == 0 <==> tag !in m
  {
  }

  class Environment {
    /** The environment this one forwards to, null for a root environment. */
    var parent: Environment?
    var taggedData: map<TypeTag, int>
    /** The parent, its parent, and so on up to the root. */
    ghost var ancestors: seq<Environment>

    ghost predicate Valid()
      reads this, ancestors
      decreases |ancestors|
    {
      && this !in ancestors
      && if parent == null then ancestors == []
      else |ancestors| > 0 && ancestors[0] == parent && parent.ancestors == ancestors[1..] && parent.Valid()
    }

    /** The environment that keeps the data: the last ancestor. */
    ghost function Root(): (root: Environment)
      reads this, ancestors
      requires Valid()
      ensures root == if ancestors == [] then this else ancestors[|ancestors| - 1]
      decreases |ancestors|
    {
      if parent == null then this else parent.Root()
    }

    constructor (parent: Environment?)
      requires parent != null ==> parent.Valid()
      ensures Valid() && this.parent == parent && taggedData == map[]
      ensures parent != null ==> Root() == parent.Root()
    {
      this.parent := parent;
      taggedData := map[];
      ancestors := if parent == null then [] else [parent] + parent.ancestors;
    }
  }

  /** Attaches `data` to `env` under `tag`; a null environment is an invalid
      argument. */
  method SetEnvironmentData(env: Environment?, tag: TypeTag, data: int) returns (status: Status)
    requires env != null ==> env.Valid()
    modifies (if env == null then {} else {env.Root()})`taggedData
    ensures env == null ==> status == InvalidArg
    ensures env != null ==> status == Ok && env.Valid() && env.Root() == old(env.Root())
    ensures env != null ==> env.Root().taggedData == SetData(old(env.Root().taggedData), tag, data)
    decreases if env == null then 0 else |env.ancestors|
  {
    if env == null {
      return InvalidArg;
    }
    if env.parent != null {
      status := SetEnvironmentData(env.parent, tag, data);
      return;
    }
    if data != 0 {
      if tag !in env.taggedData {
        env.taggedData := env.taggedData[tag := data];
      }
    } else {
      env.taggedData := env.taggedData - {tag};
    }
    return Ok;
  }

  /** Reads the data attached to `env` under `tag`; `hasResult` says whether
      there is somewhere to write it. */
  method GetEnvironmentData(env: Environment?, tag: TypeTag, hasResult: bool) returns (status: Status, data: int)
    requires env != null ==> env.Valid()
    ensures env == null || !hasResult ==> status == InvalidArg
    ensures env != null && hasResult ==> status == Ok && data == Lookup(env.Root().taggedData, tag)
    decreases if env == null then 0 else |env.ancestors|
  {
    if env == null {
      return InvalidArg, 0;
    }
    if env.parent != null {
      status, data := GetEnvironmentData(env.parent, tag, hasResult);
      return;
    }
    if !hasResult {
      return InvalidArg, 0;
    }
    data := if tag in env.taggedData then env.taggedData[tag] else 0;
    return Ok, data;
  }
}
