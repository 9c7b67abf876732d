/*
 * The breakpoint tables of the Hermes debugger, as values: the user
 * breakpoints by id, the breakpoint locations keyed by instruction, the
 * lists of step ("temp") and restoration breakpoints, and the slot of the
 * breakpoint left uninstalled while the interpreter runs the real
 * instruction of a return or a call. Which instructions are currently
 * patched with the breakpoint opcode is kept as a set.
 *
 * Each debugger operation is a function from the tables to the tables; the
 * lemmas show that the operations keep the tables consistent and do what
 * their comments in the source promise.
 */
module DebuggerTables {

  datatype Option<T> = None | Some(value: T)

  /** An instruction: a code block (a `CodeBlock *`, here an id) and an
      offset into its bytecode. The tables are keyed by the instruction's
      address, of which there is one per pair. */
  datatype Loc = Loc(codeBlock: nat, offset: nat)

  type BreakpointID = nat

  /** Where in the source a user asked for a breakpoint. */
  datatype SourceLocation = SourceLocation(fileId: nat, line: nat, column: nat)

  /** A user breakpoint: the requested place, the instruction it resolved to
      (None while unresolved), whether it is enabled, and its condition. */
  datatype Breakpoint = Breakpoint(requested: SourceLocation, at: Option<Loc>, enabled: bool, condition: string)

  /** A `BreakpointLocation`: the user breakpoint set at the instruction,
      the call-stack depths of the step and restoration breakpoints set
      there, whether an on-load breakpoint is set there, and whether a step
      or restoration `Breakpoint` for it is on its list. */
  datatype Location = Location(user: Option<BreakpointID>, callStackDepths: set<nat>, onLoad: bool,
                               hasStepBreakpoint: bool, hasRestorationBreakpoint: bool)

  /** The location `try_emplace` creates. */
  const NewLocation := Location(None, {}, false, false, false)

  /** `count() != 0`: some breakpoint still uses the location. */
  predicate InUse(l: Location)
  {
    l.user.Some? || l.callStackDepths != {} || l.onLoad
  }

  datatype Tables = Tables(
    userBreakpoints: map<BreakpointID, Breakpoint>,
    nextBreakpointId: BreakpointID,
    locations: map<Loc, Location>,
    patched: set<Loc>,
    tempBreakpoints: seq<Loc>,
    restorationBreakpoints: seq<Loc>,
    toRestore: Option<Loc>)

  /** A debugger that has set no breakpoint yet. */
  function Initial(firstId: BreakpointID): Tables
  {
    Tables(map[], firstId, map[], {}, [], [], None)
  }

  /** The instruction whose breakpoint waits to be restored, as a set. */
  function Pending(t: Tables): set<Loc>
  {
    if t.toRestore.Some? then {t.toRestore.value} else {}
  }

  // ---------------------------------------------------------------------------
  // What consistent tables satisfy.
  // ---------------------------------------------------------------------------

  /** A location is dropped as soon as nothing uses it. */
  ghost predicate LocationsInUse(t: Tables)
  {
    forall loc :: loc in t.locations ==> InUse(t.locations[loc])
  }

  /** Exactly the instructions with a location are patched, except the one
      waiting to be restored, which has a location. */
  ghost predicate PatchedMatches(t: Tables)
  {
    t.patched == t.locations.Keys - Pending(t) && Pending(t) <= t.locations.Keys
  }

  /** User breakpoint `id` is enabled and resolved to `loc`. */
  ghost predicate Linked(t: Tables, id: BreakpointID, loc: Loc)
  {
    id in t.userBreakpoints && t.userBreakpoints[id].enabled && t.userBreakpoints[id].at == Some(loc)
  }

  /** A location's user breakpoint is enabled and resolved to it, and every
      enabled resolved user breakpoint is the user of its location. */
  ghost predicate UsersLinked(t: Tables)
  {
    && (forall loc :: loc in t.locations && t.locations[loc].user.Some? ==> Linked(t, t.locations[loc].user.value, loc))
    && (forall id :: id in t.userBreakpoints && t.userBreakpoints[id].enabled && t.userBreakpoints[id].at.Some? ==>
          t.userBreakpoints[id].at.value in t.locations && t.locations[t.userBreakpoints[id].at.value].user == Some(id))
  }

  /** Every id handed out is below the next one. */
  ghost predicate IdsIssued(t: Tables)
  {
    forall id :: id in t.userBreakpoints ==> id < t.nextBreakpointId
  }

  /** Every step flag has its entry on the temp list, every restoration
      flag on the restoration list; an on-load location is on the temp list
      unless a restoration breakpoint still holds it; depths are recorded
      exactly while a step or restoration breakpoint is set. */
  ghost predicate FlagsListed(t: Tables)
  {
    forall loc :: loc in t.locations ==>
      && (t.locations[loc].hasStepBreakpoint ==> loc in t.tempBreakpoints)
      && (t.locations[loc].hasRestorationBreakpoint ==> loc in t.restorationBreakpoints)
      && (t.locations[loc].onLoad ==> loc in t.tempBreakpoints || t.locations[loc].hasRestorationBreakpoint)
      && (t.locations[loc].callStackDepths != {} <==>
            t.locations[loc].hasStepBreakpoint || t.locations[loc].hasRestorationBreakpoint)
  }

  ghost predicate Valid(t: Tables)
  {
    LocationsInUse(t) && PatchedMatches(t) && UsersLinked(t) && IdsIssued(t) && FlagsListed(t)
  }

  // ---------------------------------------------------------------------------
  // Patching: installBreakpoint, uninstallBreakpoint, restoreBreakpointIfAny
  // ---------------------------------------------------------------------------

  /** `installBreakpoint`: finds or creates the location; the instruction is
      patched when no breakpoint used it yet. */
  function Install(t: Tables, loc: Loc): (r: Tables)
    ensures loc in r.locations && r.locations - {loc} == t.locations - {loc}
    ensures loc in t.locations ==> r.locations == t.locations
    ensures loc !in t.locations ==> r.locations[loc] == NewLocation && loc in r.patched
    ensures r.patched - {loc} == t.patched - {loc}
    ensures r.(locations := t.locations, patched := t.patched) == t
  {
    var l := if loc in t.locations then t.locations[loc] else NewLocation;
    t.(locations := t.locations[loc := l], patched := if InUse(l) then t.patched else t.patched + {loc})
  }

  /** `uninstallBreakpoint`: unpatches the instruction, unless it is the one
      waiting to be restored, in which case the restore is cancelled. */
  function Uninstall(t: Tables, loc: Loc): (r: Tables)
    ensures r.toRestore != Some(loc)
    ensures t.toRestore == Some(loc) ==> r.patched == t.patched && r.toRestore == None
    ensures t.toRestore != Some(loc) ==> loc !in r.patched && r.patched - {loc} == t.patched - {loc} && r.toRestore == t.toRestore
    ensures r.(patched := t.patched, toRestore := t.toRestore) == t
  {
    if t.toRestore == Some(loc) then t.(toRestore := None) else t.(patched := t.patched - {loc})
  }

  /** `restoreBreakpointIfAny`: patches the instruction waiting to be
      restored, if any, and reports whether there was one. */
  function Restore(t: Tables): (r: (Tables, bool))
    ensures r.1 <==> t.toRestore.Some?
    ensures r.0.toRestore == None && r.0.patched == t.patched + Pending(t)
    ensures r.0.(patched := t.patched, toRestore := t.toRestore) == t
  {
    if t.toRestore.Some? then (t.(patched := t.patched + {t.toRestore.value}, toRestore := None), true)
    else (t, false)
  }

  /** What stepping over a breakpointed return or call does to the tables:
      the breakpoint is uninstalled and recorded as waiting to be
      restored. */
  function Suspend(t: Tables, loc: Loc): (r: Tables)
    requires loc in t.locations && (t.toRestore == None || t.toRestore == Some(loc))
    ensures r.toRestore == Some(loc) && Pending(r) == {loc}
    ensures t.toRestore == None ==> r.patched == t.patched - {loc}
    ensures t.toRestore == Some(loc) ==> r.patched == t.patched
    ensures r.(patched := t.patched, toRestore := t.toRestore) == t
  {
    Uninstall(t, loc).(toRestore := Some(loc))
  }

  // ---------------------------------------------------------------------------
  // User breakpoints
  // ---------------------------------------------------------------------------

  /** `setUserBreakpoint`: installs the location and records the user. */
  function SetUser(t: Tables, loc: Loc, id: BreakpointID): (r: Tables)
    ensures loc in r.locations && r.locations[loc].user == Some(id)
    ensures loc in t.locations ==> r.locations[loc] == t.locations[loc].(user := Some(id))
    ensures r.locations - {loc} == t.locations - {loc}
    ensures r.patched - {loc} == t.patched - {loc} && (loc !in t.locations ==> loc in r.patched)
    ensures r.(locations := t.locations, patched := t.patched) == t
  {
    var t1 := Install(t, loc);
    t1.(locations := t1.locations[loc := t1.locations[loc].(user := Some(id))])
  }

  /** `unsetUserBreakpoint`: clears the user; a location nothing uses any
      more is uninstalled and dropped. The location and its user must be
      there, as the source asserts. */
  function UnsetUser(t: Tables, loc: Loc): (r: Tables)
    requires loc in t.locations && t.locations[loc].user.Some?
    ensures var l := t.locations[loc].(user := None);
      && (loc in r.locations <==> InUse(l))
      && (InUse(l) ==> r.locations[loc] == l && r.patched == t.patched && r.toRestore == t.toRestore)
      && (!InUse(l) ==> r.toRestore != Some(loc) && (t.toRestore != Some(loc) ==> loc !in r.patched))
    ensures r.locations - {loc} == t.locations - {loc} && r.patched - {loc} == t.patched - {loc}
    ensures r.(locations := t.locations, patched := t.patched, toRestore := t.toRestore) == t
  {
    var l := t.locations[loc].(user := None);
    if InUse(l) then t.(locations := t.locations[loc := l])
    else
      var t1 := Uninstall(t.(locations := t.locations[loc := l]), loc);
      t1.(locations := t1.locations - {loc})
  }

  /** `createBreakpoint`: a new enabled breakpoint at the place resolved by
      the debugger (None when it could not be resolved yet). A breakpoint at
      an instruction that already holds a user breakpoint is refused
      (`kInvalidBreakpoint`, here None) and changes nothing; otherwise the
      next id is taken and the breakpoint recorded, resolved or not. */
  function Create(t: Tables, requested: SourceLocation, resolved: Option<Loc>): (r: (Tables, Option<BreakpointID>))
    ensures r.1.None? <==> resolved.Some? && resolved.value in t.locations && t.locations[resolved.value].user.Some?
    ensures r.1.None? ==> r.0 == t
    ensures r.1.Some? ==>
      && r.1.value == t.nextBreakpointId && r.0.nextBreakpointId == t.nextBreakpointId + 1
      && r.0.userBreakpoints == t.userBreakpoints[t.nextBreakpointId := Breakpoint(requested, resolved, true, "")]
      && (resolved.Some? ==> resolved.value in r.0.locations && r.0.locations[resolved.value].user == r.1)
      && (resolved.None? ==> r.0.locations == t.locations && r.0.patched == t.patched)
  {
    var bp := Breakpoint(requested, resolved, true, "");
    var id := t.nextBreakpointId;
    if resolved.Some? && resolved.value in t.locations && t.locations[resolved.value].user.Some? then (t, None)
    else
      var t1 := t.(nextBreakpointId := id + 1);
      var t2 := if resolved.Some? then SetUser(t1, resolved.value, id) else t1;
      (t2.(userBreakpoints := t2.userBreakpoints[id := bp]), Some(id))
  }

  /** `setBreakpointCondition`. */
  function SetCondition(t: Tables, id: BreakpointID, condition: string): (r: Tables)
    ensures r.userBreakpoints.Keys == t.userBreakpoints.Keys && r.userBreakpoints - {id} == t.userBreakpoints - {id}
    ensures id in t.userBreakpoints ==> r.userBreakpoints[id] == t.userBreakpoints[id].(condition := condition)
    ensures r.(userBreakpoints := t.userBreakpoints) == t
  {
    if id !in t.userBreakpoints then t
    else t.(userBreakpoints := t.userBreakpoints[id := t.userBreakpoints[id].(condition := condition)])
  }

  /** What `unsetUserBreakpoint` asserts before breakpoint `id` is taken off
      its location: when it is enabled and resolved, its location is there
      and has a user. */
  ghost predicate UnsetAllowed(t: Tables, id: BreakpointID)
  {
    id in t.userBreakpoints && t.userBreakpoints[id].enabled && t.userBreakpoints[id].at.Some? ==>
      t.userBreakpoints[id].at.value in t.locations && t.locations[t.userBreakpoints[id].at.value].user.Some?
  }

  /** `deleteBreakpoint`: takes an enabled resolved breakpoint off its
      location, then forgets it. */
  function Delete(t: Tables, id: BreakpointID): (r: Tables)
    requires UnsetAllowed(t, id)
    ensures r.userBreakpoints == t.userBreakpoints - {id} && r.nextBreakpointId == t.nextBreakpointId
    ensures r.tempBreakpoints == t.tempBreakpoints && r.restorationBreakpoints == t.restorationBreakpoints
    ensures id in t.userBreakpoints && t.userBreakpoints[id].enabled && t.userBreakpoints[id].at.Some? ==>
      var loc := t.userBreakpoints[id].at.value;
      r.locations - {loc} == t.locations - {loc} && (loc in r.locations ==> r.locations[loc].user == None)
    ensures !(id in t.userBreakpoints && t.userBreakpoints[id].enabled && t.userBreakpoints[id].at.Some?) ==>
      r.locations == t.locations && r.patched == t.patched && r.toRestore == t.toRestore
  {
    if id !in t.userBreakpoints then t
    else
      var bp := t.userBreakpoints[id];
      var t1 := if bp.enabled && bp.at.Some? then UnsetUser(t, bp.at.value) else t;
      t1.(userBreakpoints := t1.userBreakpoints - {id})
  }

  /** A location with its user dropped when that user's id is in
      `done`. */
  function DropUser(l: Location, done: set<BreakpointID>): Location
  {
    if l.user.Some? && l.user.value in done then l.(user := None) else l
  }

  /** The tables once the user breakpoints with ids in `done` are taken off
      their locations, as the loop of `deleteAllBreakpoints` does one id at
      a time: locations nothing uses any more are dropped, and unpatched
      unless waiting to be restored, in which case the restore is
      cancelled. */
  function DropUsers(t: Tables, done: set<BreakpointID>): Tables
  {
    var locs := map loc | loc in t.locations && InUse(DropUser(t.locations[loc], done)) :: DropUser(t.locations[loc], done);
    var gone := t.locations.Keys - locs.Keys;
    t.(locations := locs, patched := t.patched - gone,
       toRestore := if t.toRestore.Some? && t.toRestore.value in gone then None else t.toRestore)
  }

  /** `deleteAllBreakpoints`: every user breakpoint taken off its location,
      then all of them forgotten. */
  function DeleteAll(t: Tables): (r: Tables)
    ensures r.userBreakpoints == map[] && r.nextBreakpointId == t.nextBreakpointId
    ensures r.tempBreakpoints == t.tempBreakpoints && r.restorationBreakpoints == t.restorationBreakpoints
    ensures r.locations.Keys <= t.locations.Keys
    ensures forall loc :: loc in r.locations ==>
      && InUse(r.locations[loc])
      && r.locations[loc].(user := None) == t.locations[loc].(user := None)
      && (r.locations[loc].user.Some? ==> r.locations[loc].user.value !in t.userBreakpoints)
  {
    DropUsers(t, t.userBreakpoints.Keys).(userBreakpoints := map[])
  }

  /** `setBreakpointEnabled` as written: flipping the flag sets or unsets
      the user breakpoint of a resolved breakpoint, even when another user
      breakpoint holds the instruction, which it then takes over. */
  function SetEnabledAsWritten(t: Tables, id: BreakpointID, enable: bool): (r: Tables)
    requires UnsetAllowed(t, id)
    ensures r.userBreakpoints.Keys == t.userBreakpoints.Keys && r.userBreakpoints - {id} == t.userBreakpoints - {id}
    ensures r.nextBreakpointId == t.nextBreakpointId
    ensures id in t.userBreakpoints ==> r.userBreakpoints[id] == t.userBreakpoints[id].(enabled := enable)
    ensures id !in t.userBreakpoints || t.userBreakpoints[id].enabled == enable ==> r == t
    ensures id in t.userBreakpoints && enable && !t.userBreakpoints[id].enabled && t.userBreakpoints[id].at.Some? ==>
      t.userBreakpoints[id].at.value in r.locations && r.locations[t.userBreakpoints[id].at.value].user == Some(id)
  {
    if id !in t.userBreakpoints then t
    else
      var bp := t.userBreakpoints[id];
      if enable && !bp.enabled then
        var t1 := t.(userBreakpoints := t.userBreakpoints[id := bp.(enabled := true)]);
        if bp.at.Some? then SetUser(t1, bp.at.value, id) else t1
      else if !enable && bp.enabled then
        var t1 := if bp.at.Some? then UnsetUser(t, bp.at.value) else t;
        t1.(userBreakpoints := t1.userBreakpoints[id := bp.(enabled := false)])
      else t
  }

  /** `setBreakpointEnabled`, with enabling refused, as `createBreakpoint`
      refuses it, while another user breakpoint holds the instruction. */
  function SetEnabled(t: Tables, id: BreakpointID, enable: bool): (r: Tables)
    requires UnsetAllowed(t, id)
    ensures r.userBreakpoints.Keys == t.userBreakpoints.Keys && r.nextBreakpointId == t.nextBreakpointId
    ensures id in t.userBreakpoints && r.userBreakpoints[id].enabled != enable ==>
      && r == t && enable && t.userBreakpoints[id].at.Some?
      && t.userBreakpoints[id].at.value in t.locations && t.locations[t.userBreakpoints[id].at.value].user.Some?
    ensures enable ==> forall loc :: loc in t.locations && t.locations[loc].user.Some? ==>
      loc in r.locations && r.locations[loc].user == t.locations[loc].user
  {
    if id in t.userBreakpoints && enable && !t.userBreakpoints[id].enabled
       && t.userBreakpoints[id].at.Some? && t.userBreakpoints[id].at.value in t.locations
       && t.locations[t.userBreakpoints[id].at.value].user.Some?
    then t
    else SetEnabledAsWritten(t, id, enable)
  }

  // ---------------------------------------------------------------------------
  // Step, restoration and on-load breakpoints
  // ---------------------------------------------------------------------------

  /** The list of step or of restoration breakpoints. */
  function ListOf(t: Tables, isStep: bool): seq<Loc>
  {
    if isStep then t.tempBreakpoints else t.restorationBreakpoints
  }

  /** Whether a step (or else a restoration) breakpoint is set at the
      location. */
  predicate Flag(l: Location, isStep: bool)
  {
    if isStep then l.hasStepBreakpoint else l.hasRestorationBreakpoint
  }

  /** The location with its step (or else restoration) flag cleared. */
  function ClearFlag(l: Location, isStep: bool): Location
  {
    if isStep then l.(hasStepBreakpoint := false) else l.(hasRestorationBreakpoint := false)
  }

  /** `doSetNonUserBreakpoint`: installs the location and records the
      depth; the location is put on the list of its kind only the first
      time. */
  function SetNonUser(t: Tables, loc: Loc, depth: nat, isStep: bool): (r: Tables)
    ensures loc in r.locations && Flag(r.locations[loc], isStep) && depth in r.locations[loc].callStackDepths
    ensures loc in t.locations ==>
      && r.locations[loc].user == t.locations[loc].user && r.locations[loc].onLoad == t.locations[loc].onLoad
      && Flag(r.locations[loc], !isStep) == Flag(t.locations[loc], !isStep)
    ensures r.locations - {loc} == t.locations - {loc}
    ensures ListOf(r, isStep) == if loc in t.locations && Flag(t.locations[loc], isStep) then ListOf(t, isStep) else ListOf(t, isStep) + [loc]
    ensures ListOf(r, !isStep) == ListOf(t, !isStep)
    ensures r.userBreakpoints == t.userBreakpoints && r.nextBreakpointId == t.nextBreakpointId && r.toRestore == t.toRestore
  {
    var t1 := Install(t, loc);
    var l := t1.locations[loc];
    var l1 := l.(callStackDepths := l.callStackDepths + {depth});
    if isStep then
      var temp := if l.hasStepBreakpoint then t1.tempBreakpoints else t1.tempBreakpoints + [loc];
      t1.(locations := t1.locations[loc := l1.(hasStepBreakpoint := true)], tempBreakpoints := temp)
    else
      var rest := if l.hasRestorationBreakpoint then t1.restorationBreakpoints else t1.restorationBreakpoints + [loc];
      t1.(locations := t1.locations[loc := l1.(hasRestorationBreakpoint := true)], restorationBreakpoints := rest)
  }

  /** `setOnLoadBreakpoint`: installs the location, marks it on-load and
      puts it on the temp list. The source asserts it was not on-load
      already. */
  function SetOnLoad(t: Tables, loc: Loc): (r: Tables)
    requires loc in t.locations ==> !t.locations[loc].onLoad
    ensures loc in r.locations && r.locations[loc].onLoad
    ensures loc in t.locations ==> r.locations[loc] == t.locations[loc].(onLoad := true)
    ensures r.locations - {loc} == t.locations - {loc}
    ensures r.tempBreakpoints == t.tempBreakpoints + [loc] && r.restorationBreakpoints == t.restorationBreakpoints
    ensures r.userBreakpoints == t.userBreakpoints && r.nextBreakpointId == t.nextBreakpointId && r.toRestore == t.toRestore
  {
    var t1 := Install(t, loc);
    t1.(locations := t1.locations[loc := t1.locations[loc].(onLoad := true)],
        tempBreakpoints := t1.tempBreakpoints + [loc])
  }

  /** One turn of `doClearNonUserBreakpoints`: clears the flag of the kind
      being cleared; unless the other kind still holds the location, drops
      its depths and on-load mark and, when nothing uses it any more,
      uninstalls it. Reports whether it is to be erased. */
  function ClearOne(t: Tables, loc: Loc, isStep: bool): (r: (Tables, bool))
    ensures r.0.locations.Keys == t.locations.Keys && r.0.locations - {loc} == t.locations - {loc}
    ensures loc in t.locations ==>
      && !Flag(r.0.locations[loc], isStep) && r.0.locations[loc].user == t.locations[loc].user
      && Flag(r.0.locations[loc], !isStep) == Flag(t.locations[loc], !isStep)
    ensures r.1 ==> loc in t.locations && !InUse(r.0.locations[loc])
    ensures r.0.tempBreakpoints == t.tempBreakpoints && r.0.restorationBreakpoints == t.restorationBreakpoints
    ensures r.0.userBreakpoints == t.userBreakpoints && r.0.nextBreakpointId == t.nextBreakpointId
  {
    if loc !in t.locations then (t, false)
    else
      var l := t.locations[loc];
      var l1 := ClearFlag(l, isStep);
      if Flag(l, !isStep) || !InUse(l1) then (t.(locations := t.locations[loc := l1]), false)
      else
        var l2 := l1.(callStackDepths := {}, onLoad := false);
        var t1 := t.(locations := t.locations[loc := l2]);
        if InUse(l2) then (t1, false) else (Uninstall(t1, loc), true)
  }

  /** The rest of `doClearNonUserBreakpoints` from entry i of the list, with
      the instructions to erase so far: then the erasures and the emptied
      list. */
  function ClearFrom(t: Tables, list: seq<Loc>, i: nat, toErase: seq<Loc>, isStep: bool): (r: Tables)
    requires i <= |list|
    ensures ListOf(r, isStep) == [] && ListOf(r, !isStep) == ListOf(t, !isStep)
    ensures r.locations.Keys <= t.locations.Keys && forall x :: x in toErase ==> x !in r.locations
    ensures forall x :: x in r.locations ==>
      && r.locations[x].user == t.locations[x].user
      && Flag(r.locations[x], !isStep) == Flag(t.locations[x], !isStep)
      && (!Flag(t.locations[x], isStep) ==> !Flag(r.locations[x], isStep))
    ensures forall k :: i <= k < |list| && list[k] in r.locations ==> !Flag(r.locations[list[k]], isStep)
    ensures r.userBreakpoints == t.userBreakpoints && r.nextBreakpointId == t.nextBreakpointId
    decreases |list| - i
  {
    if i == |list| then
      var t1 := t.(locations := t.locations - (set x | x in toErase));
      if isStep then t1.(tempBreakpoints := []) else t1.(restorationBreakpoints := [])
    else
      var (t1, erase) := ClearOne(t, list[i], isStep);
      ClearFrom(t1, list, i + 1, if erase then toErase + [list[i]] else toErase, isStep)
  }

  /** `doClearNonUserBreakpoints`. */
  function ClearNonUser(t: Tables, isStep: bool): (r: Tables)
    ensures ListOf(r, isStep) == [] && ListOf(r, !isStep) == ListOf(t, !isStep)
    ensures r.locations.Keys <= t.locations.Keys
    ensures forall x :: x in ListOf(t, isStep) && x in r.locations ==> !Flag(r.locations[x], isStep)
    ensures forall x :: x in r.locations ==>
      r.locations[x].user == t.locations[x].user && Flag(r.locations[x], !isStep) == Flag(t.locations[x], !isStep)
    ensures r.userBreakpoints == t.userBreakpoints && r.nextBreakpointId == t.nextBreakpointId
  {
    ClearFrom(t, ListOf(t, isStep), 0, [], isStep)
  }
}
