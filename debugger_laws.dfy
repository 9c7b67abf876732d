/*
 * What the debugger's breakpoint operations promise: each keeps the tables
 * consistent (DebuggerTables.Valid), and each does what the source's
 * comments and assertions say of it.
 */
module DebuggerLaws {
  import opened DebuggerTables

  /** A debugger that has set no breakpoint has consistent tables. */
  lemma InitialValid(firstId: BreakpointID)
    ensures Valid(Initial(firstId)) && Initial(firstId).locations == map[]
  {
  }

  /** The tables allow every user breakpoint to be taken off its
      location. */
  lemma ValidAllowsUnset(t: Tables, id: BreakpointID)
    requires Valid(t)
    ensures UnsetAllowed(t, id)
  {
  }

  // ---------------------------------------------------------------------------
  // Patching
  // ---------------------------------------------------------------------------

  /** Installing a location keeps everything but the new location, which is
      patched. */
  lemma InstallFacts(t: Tables, loc: Loc)
    requires LocationsInUse(t)
    ensures var t1 := Install(t, loc);
      && t1.userBreakpoints == t.userBreakpoints && t1.nextBreakpointId == t.nextBreakpointId
      && t1.tempBreakpoints == t.tempBreakpoints && t1.restorationBreakpoints == t.restorationBreakpoints
      && t1.toRestore == t.toRestore
      && t1.locations.Keys == t.locations.Keys + {loc}
      && (loc in t.locations ==> t1.locations == t.locations && t1.patched == t.patched)
      && (loc !in t.locations ==> t1.locations == t.locations[loc := NewLocation] && t1.patched == t.patched + {loc})
  {
  }

  /** Stepping over a breakpointed return or call and restoring afterwards
      gives back the same tables, and the restore reports it happened. */
  lemma SuspendRestoreRoundTrip(t: Tables, loc: Loc)
    requires Valid(t) && loc in t.locations && t.toRestore == None
    ensures Valid(Suspend(t, loc))
    ensures loc !in Suspend(t, loc).patched
    ensures Restore(Suspend(t, loc)) == (t, true)
  {
    var t1 := Suspend(t, loc);
    assert t1.patched == t.patched - {loc};
    assert loc in t.patched;
    assert t1.patched + {loc} == t.patched;
  }

  /** `restoreBreakpointIfAny` reports true at most once per pending
      restore, and then the instruction is patched again. */
  lemma RestoreOnce(t: Tables)
    requires Valid(t)
    ensures Valid(Restore(t).0)
    ensures Restore(t).1 <==> t.toRestore.Some?
    ensures Restore(t).1 ==> t.toRestore.value in Restore(t).0.patched
    ensures Restore(Restore(t).0) == (Restore(t).0, false)
  {
  }

  /** Uninstalling the instruction waiting to be restored cancels the
      restore and patches nothing. */
  lemma UninstallPendingCancels(t: Tables, loc: Loc)
    requires t.toRestore == Some(loc)
    ensures Uninstall(t, loc).patched == t.patched
    ensures Restore(Uninstall(t, loc)).1 == false
  {
  }

  // ---------------------------------------------------------------------------
  // createBreakpoint and setBreakpointCondition
  // ---------------------------------------------------------------------------

  /** A breakpoint is refused exactly when its instruction already holds a
      user breakpoint, and then nothing changes; otherwise it takes the next
      id, which moves on by one, and is recorded enabled, resolved or not;
      a resolved one becomes the user of its location. */
  lemma CreateOutcome(t: Tables, requested: SourceLocation, resolved: Option<Loc>)
    ensures var (t1, r) := Create(t, requested, resolved);
      && (r == None <==> resolved.Some? && resolved.value in t.locations && t.locations[resolved.value].user.Some?)
      && (r == None ==> t1 == t)
      && (r.Some? ==>
            && r.value == t.nextBreakpointId && t1.nextBreakpointId == t.nextBreakpointId + 1
            && t1.userBreakpoints == t.userBreakpoints[r.value := Breakpoint(requested, resolved, true, "")]
            && (resolved.Some? ==> resolved.value in t1.locations && t1.locations[resolved.value].user == r))
  {
  }

  /** Only the resolved place of user breakpoints and, for resolved ones,
      the enabled flag matter to the links: tables that agree on them and on
      the locations, and add only unresolved breakpoints, are linked
      alike. */
  lemma LinksFrame(t: Tables, t1: Tables)
    requires UsersLinked(t) && t1.locations == t.locations
    requires t.userBreakpoints.Keys <= t1.userBreakpoints.Keys
    requires forall id :: id in t.userBreakpoints ==>
      && t1.userBreakpoints[id].at == t.userBreakpoints[id].at
      && (t.userBreakpoints[id].at.Some? ==> t1.userBreakpoints[id].enabled == t.userBreakpoints[id].enabled)
    requires forall id :: id in t1.userBreakpoints && id !in t.userBreakpoints ==> t1.userBreakpoints[id].at == None
    ensures UsersLinked(t1)
  {
    forall l | l in t1.locations && t1.locations[l].user.Some?
      ensures Linked(t1, t1.locations[l].user.value, l)
    {
      assert Linked(t, t.locations[l].user.value, l);
    }
  }

  /** Making breakpoint `id`, now enabled and resolved to `loc`, the user
      of `loc` keeps the tables consistent, provided no other user
      breakpoint holds `loc` and `id` was not yet linked anywhere. */
  lemma SetUserKeepsValid(t: Tables, loc: Loc, id: BreakpointID, bp: Breakpoint)
    requires Valid(t) && id < t.nextBreakpointId
    requires loc !in t.locations || t.locations[loc].user == None
    requires bp.enabled && bp.at == Some(loc)
    requires id in t.userBreakpoints ==> !(t.userBreakpoints[id].enabled && t.userBreakpoints[id].at.Some?)
    ensures Valid(SetUser(t, loc, id).(userBreakpoints := t.userBreakpoints[id := bp]))
    ensures loc in SetUser(t, loc, id).locations && SetUser(t, loc, id).locations[loc].user == Some(id)
  {
    InstallFacts(t, loc);
    var t2 := SetUser(t, loc, id).(userBreakpoints := t.userBreakpoints[id := bp]);
    forall l | l in t2.locations && t2.locations[l].user.Some?
      ensures Linked(t2, t2.locations[l].user.value, l)
    {
      if l != loc {
        assert Linked(t, t.locations[l].user.value, l);
      }
    }
    forall i | i in t2.userBreakpoints && t2.userBreakpoints[i].enabled && t2.userBreakpoints[i].at.Some?
      ensures t2.userBreakpoints[i].at.value in t2.locations && t2.locations[t2.userBreakpoints[i].at.value].user == Some(i)
    {
      if i != id {
        assert t2.userBreakpoints[i] == t.userBreakpoints[i];
      }
    }
  }

  /** Creating a breakpoint keeps the tables consistent. */
  lemma CreateKeepsValid(t: Tables, requested: SourceLocation, resolved: Option<Loc>)
    requires Valid(t)
    ensures Valid(Create(t, requested, resolved).0)
  {
    var (t3, r) := Create(t, requested, resolved);
    if r.Some? {
      var id := t.nextBreakpointId;
      var t1 := t.(nextBreakpointId := id + 1);
      var bp := Breakpoint(requested, resolved, true, "");
      assert id !in t.userBreakpoints;
      if resolved.Some? {
        SetUserKeepsValid(t1, resolved.value, id, bp);
      } else {
        LinksFrame(t, t1.(userBreakpoints := t.userBreakpoints[id := bp]));
      }
    }
  }

  /** Changing a condition keeps the tables consistent. */
  lemma SetConditionKeepsValid(t: Tables, id: BreakpointID, condition: string)
    requires Valid(t)
    ensures Valid(SetCondition(t, id, condition))
    ensures id in t.userBreakpoints ==> SetCondition(t, id, condition).userBreakpoints[id].condition == condition
  {
    LinksFrame(t, SetCondition(t, id, condition));
  }

  /** Operations on an id no breakpoint has change nothing. */
  lemma UnknownIdChangesNothing(t: Tables, id: BreakpointID, condition: string, enable: bool)
    requires id !in t.userBreakpoints
    ensures SetCondition(t, id, condition) == t
    ensures UnsetAllowed(t, id) && Delete(t, id) == t && SetEnabled(t, id, enable) == t
  {
  }

  // ---------------------------------------------------------------------------
  // deleteBreakpoint and setBreakpointEnabled
  // ---------------------------------------------------------------------------

  /** No location has user `id` other than the one `id` is linked to. */
  lemma UserOnlyAtOwnLocation(t: Tables, id: BreakpointID, loc: Loc)
    requires UsersLinked(t) && loc in t.locations && t.locations[loc].user == Some(id)
    ensures Linked(t, id, loc)
  {
  }

  /** Clearing the user of a location keeps the location tables
      consistent: the location loses its user, and is dropped and unpatched
      when nothing else uses it. */
  lemma UnsetLocationsValid(t: Tables, loc: Loc)
    requires Valid(t) && loc in t.locations && t.locations[loc].user.Some?
    ensures var t1 := UnsetUser(t, loc); var l := t.locations[loc].(user := None);
      && LocationsInUse(t1) && PatchedMatches(t1) && FlagsListed(t1)
      && t1.locations == (if InUse(l) then t.locations[loc := l] else t.locations - {loc})
      && t1.userBreakpoints == t.userBreakpoints && t1.nextBreakpointId == t.nextBreakpointId
  {
    var l := t.locations[loc].(user := None);
    if InUse(l) {
      UnsetKeepsLocation(t, loc);
    } else {
      UnsetDropsLocation(t, loc);
    }
  }

  lemma UnsetKeepsLocation(t: Tables, loc: Loc)
    requires Valid(t) && loc in t.locations && t.locations[loc].user.Some?
    requires InUse(t.locations[loc].(user := None))
    ensures var t1 := UnsetUser(t, loc);
      && LocationsInUse(t1) && PatchedMatches(t1) && FlagsListed(t1)
      && t1 == t.(locations := t.locations[loc := t.locations[loc].(user := None)])
  {
  }

  lemma UnsetDropsLocation(t: Tables, loc: Loc)
    requires Valid(t) && loc in t.locations && t.locations[loc].user.Some?
    requires !InUse(t.locations[loc].(user := None))
    ensures var t1 := UnsetUser(t, loc);
      && LocationsInUse(t1) && PatchedMatches(t1) && FlagsListed(t1)
      && t1.locations == t.locations - {loc}
      && t1.userBreakpoints == t.userBreakpoints && t1.nextBreakpointId == t.nextBreakpointId
  {
    assert t.toRestore == Some(loc) ==> loc !in t.patched;
  }

  /** Taking linked breakpoint `id` off its location `loc` and changing
      only `id`'s own entry keeps the tables consistent. */
  lemma UnsetKeepsValid(t: Tables, id: BreakpointID, loc: Loc, users: map<BreakpointID, Breakpoint>)
    requires Valid(t) && Linked(t, id, loc)
    requires t.userBreakpoints.Keys - {id} <= users.Keys <= t.userBreakpoints.Keys
    requires forall i :: i in users && i != id ==> users[i] == t.userBreakpoints[i]
    requires id in users ==> !users[id].enabled
    ensures loc in t.locations && t.locations[loc].user == Some(id)
    ensures Valid(UnsetUser(t, loc).(userBreakpoints := users))
  {
    UnsetLocationsValid(t, loc);
    var t1 := UnsetUser(t, loc).(userBreakpoints := users);
    forall l | l in t1.locations && t1.locations[l].user.Some?
      ensures Linked(t1, t1.locations[l].user.value, l)
    {
      var u := t.locations[l].user.value;
      assert l != loc;
      assert Linked(t, u, l);
      assert u != id;
    }
    forall i | i in t1.userBreakpoints && t1.userBreakpoints[i].enabled && t1.userBreakpoints[i].at.Some?
      ensures t1.userBreakpoints[i].at.value in t1.locations && t1.locations[t1.userBreakpoints[i].at.value].user == Some(i)
    {
      assert i != id;
      assert t1.userBreakpoints[i] == t.userBreakpoints[i];
    }
  }

  /** Deleting a breakpoint keeps the tables consistent and forgets it: no
      location has it as its user any more. */
  lemma DeleteKeepsValid(t: Tables, id: BreakpointID)
    requires Valid(t)
    ensures UnsetAllowed(t, id) && Valid(Delete(t, id))
    ensures id !in Delete(t, id).userBreakpoints
    ensures forall loc :: loc in Delete(t, id).locations ==> Delete(t, id).locations[loc].user != Some(id)
  {
    if id in t.userBreakpoints {
      var bp := t.userBreakpoints[id];
      var users := t.userBreakpoints - {id};
      if bp.enabled && bp.at.Some? {
        UnsetKeepsValid(t, id, bp.at.value, users);
      } else {
        var t1 := Delete(t, id);
        forall l | l in t1.locations && t1.locations[l].user.Some?
          ensures Linked(t1, t1.locations[l].user.value, l)
        {
          var u := t.locations[l].user.value;
          assert Linked(t, u, l);
          assert u != id;
        }
      }
    }
  }

  /** One turn of the loop of `deleteAllBreakpoints`: taking the next
      breakpoint off its location, when it is enabled and resolved, drops
      one more user; otherwise there is nothing to drop. */
  lemma DropUsersStep(t: Tables, done: set<BreakpointID>, id: BreakpointID)
    requires UsersLinked(t) && PatchedMatches(t) && id in t.userBreakpoints && id !in done
    ensures var t1 := DropUsers(t, done); var bp := t.userBreakpoints[id];
      && t1.userBreakpoints == t.userBreakpoints
      && (bp.enabled && bp.at.Some? ==>
            bp.at.value in t1.locations && t1.locations[bp.at.value].user.Some?
            && UnsetUser(t1, bp.at.value) == DropUsers(t, done + {id}))
      && (!(bp.enabled && bp.at.Some?) ==> DropUsers(t, done + {id}) == t1)
  {
    var bp := t.userBreakpoints[id];
    UsersAreLinked(t, id);
    if bp.enabled && bp.at.Some? {
      DropLinked(t, done, id, bp.at.value);
    } else {
      assert DropUsers(t, done + {id}).locations == DropUsers(t, done).locations;
    }
  }

  /** Dropping no user changes nothing. */
  lemma DropNoUsers(t: Tables)
    requires LocationsInUse(t) && PatchedMatches(t)
    ensures DropUsers(t, {}) == t
  {
    assert DropUsers(t, {}).locations == t.locations;
  }

  /** A location's user is linked to it. */
  lemma UsersAreLinked(t: Tables, id: BreakpointID)
    requires UsersLinked(t)
    ensures forall x :: x in t.locations && t.locations[x].user == Some(id) ==> Linked(t, id, x)
  {
  }

  lemma DropLinked(t: Tables, done: set<BreakpointID>, id: BreakpointID, loc: Loc)
    requires PatchedMatches(t) && loc in t.locations && t.locations[loc].user == Some(id) && id !in done
    requires forall x :: x in t.locations && x != loc ==>
      DropUser(t.locations[x], done + {id}) == DropUser(t.locations[x], done)
    ensures var t1 := DropUsers(t, done);
      && loc in t1.locations && t1.locations[loc].user.Some?
      && UnsetUser(t1, loc) == DropUsers(t, done + {id})
  {
    var t1 := DropUsers(t, done);
    var t2 := DropUsers(t, done + {id});
    var l := t.locations[loc].(user := None);
    DropLinkedLocations(t, done, id, loc);
    assert t1.locations[loc] == t.locations[loc];
    var gone1 := t.locations.Keys - t1.locations.Keys;
    var gone2 := t.locations.Keys - t2.locations.Keys;
    if InUse(l) {
      assert gone2 == gone1;
    } else {
      assert gone2 == gone1 + {loc};
      assert t.toRestore == Some(loc) ==> loc !in t.patched;
    }
  }

  lemma DropLinkedLocations(t: Tables, done: set<BreakpointID>, id: BreakpointID, loc: Loc)
    requires loc in t.locations && t.locations[loc].user == Some(id) && id !in done
    requires forall x :: x in t.locations && x != loc ==>
      DropUser(t.locations[x], done + {id}) == DropUser(t.locations[x], done)
    ensures var l := t.locations[loc].(user := None);
      DropUsers(t, done + {id}).locations ==
        if InUse(l) then DropUsers(t, done).locations[loc := l] else DropUsers(t, done).locations - {loc}
  {
  }

  /** Deleting all breakpoints keeps the tables consistent, forgets every
      user breakpoint, and keeps exactly the locations something other than
      a user breakpoint still uses, with no user. */
  lemma DeleteAllKeepsValid(t: Tables)
    requires Valid(t)
    ensures var r := DeleteAll(t);
      && Valid(r) && r.userBreakpoints == map[] && r.nextBreakpointId == t.nextBreakpointId
      && (forall loc :: loc in r.locations <==> loc in t.locations && InUse(t.locations[loc].(user := None)))
      && (forall loc :: loc in r.locations ==> r.locations[loc] == t.locations[loc].(user := None))
  {
    var r := DeleteAll(t);
    forall loc | loc in t.locations
      ensures DropUser(t.locations[loc], t.userBreakpoints.Keys) == t.locations[loc].(user := None)
    {
      if t.locations[loc].user.Some? {
        assert Linked(t, t.locations[loc].user.value, loc);
      }
    }
  }

  /** Enabling or disabling a breakpoint keeps the tables consistent. */
  lemma SetEnabledKeepsValid(t: Tables, id: BreakpointID, enable: bool)
    requires Valid(t)
    ensures UnsetAllowed(t, id) && Valid(SetEnabled(t, id, enable))
  {
    if id in t.userBreakpoints {
      var bp := t.userBreakpoints[id];
      if enable && !bp.enabled {
        EnableKeepsValid(t, id);
      } else if !enable && bp.enabled {
        DisableKeepsValid(t, id);
      } else {
        assert SetEnabled(t, id, enable) == t;
      }
    }
  }

  lemma EnableKeepsValid(t: Tables, id: BreakpointID)
    requires Valid(t) && id in t.userBreakpoints && !t.userBreakpoints[id].enabled
    ensures Valid(SetEnabled(t, id, true))
  {
    var bp := t.userBreakpoints[id];
    if bp.at.Some? && !(bp.at.value in t.locations && t.locations[bp.at.value].user.Some?) {
      SetUserKeepsValid(t, bp.at.value, id, bp.(enabled := true));
    } else if bp.at.None? {
      LinksFrame(t, SetEnabled(t, id, true));
    }
  }

  lemma DisableKeepsValid(t: Tables, id: BreakpointID)
    requires Valid(t) && id in t.userBreakpoints && t.userBreakpoints[id].enabled
    ensures UnsetAllowed(t, id) && Valid(SetEnabled(t, id, false))
  {
    var bp := t.userBreakpoints[id];
    if bp.at.Some? {
      UnsetKeepsValid(t, id, bp.at.value, t.userBreakpoints[id := bp.(enabled := false)]);
    } else {
      LinksFrame(t, SetEnabled(t, id, false));
    }
  }

  /** Repeating the same enable or disable changes nothing more. */
  lemma SetEnabledIdempotent(t: Tables, id: BreakpointID, enable: bool)
    requires Valid(t)
    ensures UnsetAllowed(t, id)
    ensures UnsetAllowed(SetEnabled(t, id, enable), id)
    ensures SetEnabled(SetEnabled(t, id, enable), id, enable) == SetEnabled(t, id, enable)
  {
    SetEnabledKeepsValid(t, id, enable);
  }

  /** Enabling a resolved breakpoint whose instruction no other user
      breakpoint holds makes it the user of its location, patched unless
      waiting to be restored; disabling one leaves it the user of no
      location. */
  lemma SetEnabledFlips(t: Tables, id: BreakpointID, enable: bool)
    requires Valid(t) && id in t.userBreakpoints && t.userBreakpoints[id].at.Some?
    requires enable ==>
      || t.userBreakpoints[id].enabled
      || !(t.userBreakpoints[id].at.value in t.locations && t.locations[t.userBreakpoints[id].at.value].user.Some?)
    ensures UnsetAllowed(t, id)
    ensures var t1 := SetEnabled(t, id, enable); var loc := t.userBreakpoints[id].at.value;
      && t1.userBreakpoints[id].enabled == enable
      && (enable ==> loc in t1.locations && t1.locations[loc].user == Some(id)
                     && (loc in t1.patched || t1.toRestore == Some(loc)))
      && (!enable ==> loc !in t1.locations || t1.locations[loc].user != Some(id))
  {
    SetEnabledKeepsValid(t, id, enable);
    var bp := t.userBreakpoints[id];
    var loc := bp.at.value;
    if enable && !bp.enabled {
      SetUserKeepsValid(t, loc, id, bp.(enabled := true));
    } else if !enable && bp.enabled {
      UnsetKeepsValid(t, id, loc, t.userBreakpoints[id := bp.(enabled := false)]);
    }
  }

  // ---------------------------------------------------------------------------
  // Step, restoration and on-load breakpoints
  // ---------------------------------------------------------------------------

  /** Setting a step or restoration breakpoint keeps the tables
      consistent. */
  lemma SetNonUserKeepsValid(t: Tables, loc: Loc, depth: nat, isStep: bool)
    requires Valid(t)
    ensures Valid(SetNonUser(t, loc, depth, isStep))
  {
    SetNonUserFlags(t, loc, depth, isStep);
    var t2 := SetNonUser(t, loc, depth, isStep);
    forall l | l in t2.locations && t2.locations[l].user.Some?
      ensures Linked(t2, t2.locations[l].user.value, l)
    {
      assert Linked(t, t.locations[l].user.value, l);
    }
  }

  lemma SetNonUserFlags(t: Tables, loc: Loc, depth: nat, isStep: bool)
    requires Valid(t)
    ensures var t2 := SetNonUser(t, loc, depth, isStep);
      && LocationsInUse(t2) && PatchedMatches(t2) && FlagsListed(t2) && IdsIssued(t2)
      && t2.userBreakpoints == t.userBreakpoints && t2.locations.Keys == t.locations.Keys + {loc}
      && (forall l :: l in t2.locations ==> t2.locations[l].user == (if l in t.locations then t.locations[l].user else None))
  {
    SetNonUserShape(t, loc, depth, isStep);
    SetNonUserListed(t, loc, depth, isStep);
  }

  /** Setting a step or restoration breakpoint keeps every location in use
      and patched, and the users where they were. */
  lemma SetNonUserShape(t: Tables, loc: Loc, depth: nat, isStep: bool)
    requires LocationsInUse(t) && PatchedMatches(t) && IdsIssued(t)
    ensures var t2 := SetNonUser(t, loc, depth, isStep);
      && LocationsInUse(t2) && PatchedMatches(t2) && IdsIssued(t2)
      && t2.userBreakpoints == t.userBreakpoints && t2.locations.Keys == t.locations.Keys + {loc}
      && (forall l :: l in t2.locations ==> t2.locations[l].user == (if l in t.locations then t.locations[l].user else None))
  {
    InstallFacts(t, loc);
    var t2 := SetNonUser(t, loc, depth, isStep);
    assert t2.patched == Install(t, loc).patched && t2.toRestore == t.toRestore;
    forall l | l in t2.locations
      ensures InUse(t2.locations[l])
    {
      if l != loc {
        assert t2.locations[l] == t.locations[l];
      }
    }
  }

  /** Setting a step or restoration breakpoint lists the flag it sets. */
  lemma SetNonUserListed(t: Tables, loc: Loc, depth: nat, isStep: bool)
    requires LocationsInUse(t) && FlagsListed(t)
    ensures FlagsListed(SetNonUser(t, loc, depth, isStep))
  {
    InstallFacts(t, loc);
    var t2 := SetNonUser(t, loc, depth, isStep);
    assert t.tempBreakpoints <= t2.tempBreakpoints && t.restorationBreakpoints <= t2.restorationBreakpoints;
    forall l | l in t2.locations && l != loc
      ensures t2.locations[l] == t.locations[l]
    {
    }
  }

  /** A location goes on the list of a kind only once: the first breakpoint
      of that kind there appends it, later ones only record their depth. */
  lemma SetNonUserListsOnce(t: Tables, loc: Loc, d1: nat, d2: nat, isStep: bool)
    ensures var t1 := SetNonUser(t, loc, d1, isStep);
      var flagged := loc in t.locations &&
        (if isStep then t.locations[loc].hasStepBreakpoint else t.locations[loc].hasRestorationBreakpoint);
      && ListOf(t1, isStep) == ListOf(t, isStep) + (if flagged then [] else [loc])
      && ListOf(t1, !isStep) == ListOf(t, !isStep)
      && ListOf(SetNonUser(t1, loc, d2, isStep), isStep) == ListOf(t1, isStep)
      && {d1, d2} <= SetNonUser(t1, loc, d2, isStep).locations[loc].callStackDepths
  {
  }

  /** Setting an on-load breakpoint keeps the tables consistent. */
  lemma SetOnLoadKeepsValid(t: Tables, loc: Loc)
    requires Valid(t) && (loc in t.locations ==> !t.locations[loc].onLoad)
    ensures Valid(SetOnLoad(t, loc))
  {
    InstallFacts(t, loc);
    var t2 := SetOnLoad(t, loc);
    forall l | l in t2.locations && t2.locations[l].user.Some?
      ensures Linked(t2, t2.locations[l].user.value, l)
    {
      assert Linked(t, t.locations[l].user.value, l);
    }
  }

  /** Stepping over a breakpointed return or call keeps the tables
      consistent. */
  lemma SuspendKeepsValid(t: Tables, loc: Loc)
    requires Valid(t) && loc in t.locations && (t.toRestore == None || t.toRestore == Some(loc))
    ensures Valid(Suspend(t, loc))
  {
  }

  // ---------------------------------------------------------------------------
  // doClearNonUserBreakpoints
  // ---------------------------------------------------------------------------

  /** What holds of the flags of a location not yet marked for erasure
      after the first i entries of the list have been cleared. */
  ghost predicate MidFlags(t0: Tables, l: Location, loc: Loc, list: seq<Loc>, i: nat, isStep: bool)
    requires i <= |list|
  {
    && (Flag(l, isStep) ==> loc in list[i..])
    && (Flag(l, !isStep) ==> loc in ListOf(t0, !isStep))
    && (l.onLoad ==> (if isStep then loc in list[i..] else loc in t0.tempBreakpoints) || l.hasRestorationBreakpoint)
    && (l.callStackDepths != {} <==> l.hasStepBreakpoint || l.hasRestorationBreakpoint)
  }

  /** What holds of location x of the tables t after the first i entries
      of the list have been cleared, `toErase` marking the instructions to
      erase: it keeps its user; it is marked exactly when nothing uses it;
      it is patched unless marked or waiting to be restored; a location the
      other kind holds has at most lost its flag of the kind being
      cleared. */
  ghost predicate MidAt(t0: Tables, t: Tables, x: Loc, list: seq<Loc>, i: nat, toErase: seq<Loc>, isStep: bool)
    requires x in t.locations && x in t0.locations && i <= |list|
  {
    var l := t.locations[x];
    && l.user == t0.locations[x].user
    && (x in toErase <==> !InUse(l))
    && (x in t.patched <==> x !in toErase && t.toRestore != Some(x))
    && (t.toRestore == Some(x) ==> x !in toErase)
    && (x !in toErase ==> MidFlags(t0, l, x, list, i, isStep))
    && (Flag(t0.locations[x], !isStep) ==> l == t0.locations[x] || l == ClearFlag(t0.locations[x], isStep))
  }

  /** The tables t after clearing the first i entries of `list`, the list
      of kind `isStep` of the tables t0. */
  ghost predicate ClearMid(t0: Tables, t: Tables, list: seq<Loc>, i: nat, toErase: seq<Loc>, isStep: bool)
  {
    && i <= |list| && list == ListOf(t0, isStep)
    && t.userBreakpoints == t0.userBreakpoints && t.nextBreakpointId == t0.nextBreakpointId
    && t.tempBreakpoints == t0.tempBreakpoints && t.restorationBreakpoints == t0.restorationBreakpoints
    && t.locations.Keys == t0.locations.Keys && t.patched <= t.locations.Keys
    && (forall x :: x in toErase ==> x in t.locations)
    && (t.toRestore.Some? ==> t.toRestore.value in t.locations)
    && (forall x :: x in t.locations ==> MidAt(t0, t, x, list, i, toErase, isStep))
  }

  lemma ClearStart(t0: Tables, isStep: bool)
    requires Valid(t0)
    ensures ClearMid(t0, t0, ListOf(t0, isStep), 0, [], isStep)
  {
    var list := ListOf(t0, isStep);
    assert list[0..] == list;
    forall x | x in t0.locations
      ensures MidAt(t0, t0, x, list, 0, [], isStep)
    {
    }
  }

  /** Clearing entry i keeps the loop's invariant. */
  lemma ClearStep(t0: Tables, t: Tables, list: seq<Loc>, i: nat, toErase: seq<Loc>, isStep: bool)
    requires ClearMid(t0, t, list, i, toErase, isStep) && i < |list|
    ensures var (t1, erase) := ClearOne(t, list[i], isStep);
      ClearMid(t0, t1, list, i + 1, if erase then toErase + [list[i]] else toErase, isStep)
  {
    var loc := list[i];
    var (t1, erase) := ClearOne(t, loc, isStep);
    var te := if erase then toErase + [loc] else toErase;
    assert list[i..] == [loc] + list[i + 1..];
    ClearOneFrame(t, loc, isStep);
    forall x | x in t1.locations
      ensures MidAt(t0, t1, x, list, i + 1, te, isStep)
    {
      if x == loc {
        ClearStepAt(t0, t, list, i, toErase, isStep);
      } else {
        ClearStepOther(t0, t, t1, x, loc, list, i, toErase, te, isStep);
      }
    }
  }

  /** Clearing one entry changes only the locations, the patched set and
      the pending restore, and drops no location. */
  lemma ClearOneFrame(t: Tables, loc: Loc, isStep: bool)
    ensures var (t1, erase) := ClearOne(t, loc, isStep);
      && t1.userBreakpoints == t.userBreakpoints && t1.nextBreakpointId == t.nextBreakpointId
      && t1.tempBreakpoints == t.tempBreakpoints && t1.restorationBreakpoints == t.restorationBreakpoints
      && t1.locations.Keys == t.locations.Keys && t1.patched <= t.patched
      && (t1.toRestore == t.toRestore || t1.toRestore == None)
      && (erase ==> loc in t.locations)
  {
  }

  /** Clearing one entry leaves the other locations as they were. */
  lemma ClearStepOther(t0: Tables, t: Tables, t1: Tables, x: Loc, loc: Loc, list: seq<Loc>, i: nat,
                       toErase: seq<Loc>, te: seq<Loc>, isStep: bool)
    requires i < |list| && loc == list[i] && list[i..] == [loc] + list[i + 1..] && x != loc
    requires x in t.locations && x in t0.locations && MidAt(t0, t, x, list, i, toErase, isStep)
    requires t1 == ClearOne(t, loc, isStep).0 && x in t1.locations
    requires te == toErase || te == toErase + [loc]
    ensures MidAt(t0, t1, x, list, i + 1, te, isStep)
  {
    assert t1.locations[x] == t.locations[x];
    assert (x in t1.patched <==> x in t.patched) && (t1.toRestore == Some(x) <==> t.toRestore == Some(x));
    assert x in te <==> x in toErase;
  }

  /** What clearing entry i does to its own location. */
  lemma ClearStepAt(t0: Tables, t: Tables, list: seq<Loc>, i: nat, toErase: seq<Loc>, isStep: bool)
    requires ClearMid(t0, t, list, i, toErase, isStep) && i < |list|
    requires list[i..] == [list[i]] + list[i + 1..]
    requires list[i] in ClearOne(t, list[i], isStep).0.locations
    ensures var (t1, erase) := ClearOne(t, list[i], isStep);
      MidAt(t0, t1, list[i], list, i + 1, if erase then toErase + [list[i]] else toErase, isStep)
  {
    var loc := list[i];
    assert MidAt(t0, t, loc, list, i, toErase, isStep);
  }

  /** Once every entry is cleared, erasing the marked instructions and
      emptying the list leaves consistent tables. */
  lemma ClearEnd(t0: Tables, t: Tables, list: seq<Loc>, toErase: seq<Loc>, isStep: bool)
    requires Valid(t0) && ClearMid(t0, t, list, |list|, toErase, isStep)
    ensures ClearDone(t0, ClearFrom(t, list, |list|, toErase, isStep), isStep)
  {
    var r := ClearFrom(t, list, |list|, toErase, isStep);
    assert r.locations == t.locations - (set x | x in toErase);
    assert list[|list|..] == [];
    forall x | x in t.locations
      ensures MidAt(t0, t, x, list, |list|, toErase, isStep)
    {
    }
    ClearEndFlags(t0, t, r, list, toErase, isStep);
    ClearEndKept(t0, t, r, list, toErase, isStep);
    ClearEndLinks(t0, t, r, list, toErase, isStep);
  }

  lemma ClearEndFlags(t0: Tables, t: Tables, r: Tables, list: seq<Loc>, toErase: seq<Loc>, isStep: bool)
    requires ClearMid(t0, t, list, |list|, toErase, isStep) && list[|list|..] == []
    requires r == ClearFrom(t, list, |list|, toErase, isStep)
    requires r.locations == t.locations - (set x | x in toErase)
    ensures FlagsListed(r) && LocationsInUse(r) && PatchedMatches(r)
    ensures ListOf(r, isStep) == [] && ListOf(r, !isStep) == ListOf(t0, !isStep)
    ensures forall loc :: loc in r.locations ==> !Flag(r.locations[loc], isStep)
  {
    forall loc | loc in r.locations
      ensures MidFlags(t0, r.locations[loc], loc, list, |list|, isStep)
    {
      assert MidAt(t0, t, loc, list, |list|, toErase, isStep);
    }
  }

  lemma ClearEndKept(t0: Tables, t: Tables, r: Tables, list: seq<Loc>, toErase: seq<Loc>, isStep: bool)
    requires LocationsInUse(t0) && ClearMid(t0, t, list, |list|, toErase, isStep) && list[|list|..] == []
    requires r.locations == t.locations - (set x | x in toErase)
    ensures forall loc :: loc in t0.locations && Flag(t0.locations[loc], !isStep) ==>
          loc in r.locations && r.locations[loc] == ClearFlag(t0.locations[loc], isStep)
  {
    forall loc | loc in t0.locations && Flag(t0.locations[loc], !isStep)
      ensures loc in r.locations && r.locations[loc] == ClearFlag(t0.locations[loc], isStep)
    {
      assert MidAt(t0, t, loc, list, |list|, toErase, isStep);
      assert InUse(t0.locations[loc]) && InUse(t.locations[loc]);
    }
  }

  lemma ClearEndLinks(t0: Tables, t: Tables, r: Tables, list: seq<Loc>, toErase: seq<Loc>, isStep: bool)
    requires Valid(t0) && ClearMid(t0, t, list, |list|, toErase, isStep)
    requires r.userBreakpoints == t0.userBreakpoints && r.nextBreakpointId == t0.nextBreakpointId
    requires r.locations == t.locations - (set x | x in toErase)
    ensures UsersLinked(r) && IdsIssued(r)
    ensures forall loc :: loc in r.locations ==> r.locations[loc].user == t0.locations[loc].user
    ensures forall loc :: loc in t0.locations && t0.locations[loc].user.Some? ==> loc in r.locations
  {
    forall loc | loc in t.locations
      ensures t.locations[loc].user == t0.locations[loc].user && (loc in toErase <==> !InUse(t.locations[loc]))
    {
      assert MidAt(t0, t, loc, list, |list|, toErase, isStep);
    }
    forall loc | loc in r.locations && r.locations[loc].user.Some?
      ensures Linked(r, r.locations[loc].user.value, loc)
    {
      assert Linked(t0, t0.locations[loc].user.value, loc);
    }
  }

  /** What clearing the list of kind `isStep` of the tables t0 leaves. */
  ghost predicate ClearDone(t0: Tables, r: Tables, isStep: bool)
  {
    && Valid(r)
    && ListOf(r, isStep) == [] && ListOf(r, !isStep) == ListOf(t0, !isStep)
    && r.userBreakpoints == t0.userBreakpoints && r.nextBreakpointId == t0.nextBreakpointId
    && r.locations.Keys <= t0.locations.Keys
    && (forall loc :: loc in r.locations ==> !Flag(r.locations[loc], isStep) && r.locations[loc].user == t0.locations[loc].user)
    && (forall loc :: loc in t0.locations && t0.locations[loc].user.Some? ==> loc in r.locations)
    && (forall loc :: loc in t0.locations && Flag(t0.locations[loc], !isStep) ==>
          loc in r.locations && r.locations[loc] == ClearFlag(t0.locations[loc], isStep))
  }

  lemma {:induction false} ClearFromDone(t0: Tables, t: Tables, list: seq<Loc>, i: nat, toErase: seq<Loc>, isStep: bool)
    requires Valid(t0) && ClearMid(t0, t, list, i, toErase, isStep)
    ensures ClearDone(t0, ClearFrom(t, list, i, toErase, isStep), isStep)
    decreases |list| - i
  {
    if i == |list| {
      ClearEnd(t0, t, list, toErase, isStep);
    } else {
      ClearStep(t0, t, list, i, toErase, isStep);
      var (t1, erase) := ClearOne(t, list[i], isStep);
      ClearFromDone(t0, t1, list, i + 1, if erase then toErase + [list[i]] else toErase, isStep);
    }
  }

  /** Clearing the step or the restoration breakpoints keeps the tables
      consistent, empties that list and leaves the other alone, clears the
      flag of that kind everywhere, keeps every location a user breakpoint
      or the other kind still holds, and changes no user breakpoint. */
  lemma ClearNonUserEffect(t: Tables, isStep: bool)
    requires Valid(t)
    ensures ClearDone(t, ClearNonUser(t, isStep), isStep)
  {
    ClearStart(t, isStep);
    ClearFromDone(t, t, ListOf(t, isStep), 0, [], isStep);
  }

  /** Clearing both lists leaves only the locations of user breakpoints,
      each with nothing but its user. */
  lemma ClearBothLeavesUsers(t: Tables)
    requires Valid(t)
    ensures var r := ClearNonUser(ClearNonUser(t, true), false);
      && Valid(r) && r.tempBreakpoints == [] && r.restorationBreakpoints == []
      && r.userBreakpoints == t.userBreakpoints
      && (forall loc :: loc in r.locations <==> loc in t.locations && t.locations[loc].user.Some?)
      && (forall loc :: loc in r.locations ==> r.locations[loc] == Location(t.locations[loc].user, {}, false, false, false))
  {
    ClearNonUserEffect(t, true);
    var t1 := ClearNonUser(t, true);
    ClearNonUserEffect(t1, false);
  }

  // ---------------------------------------------------------------------------
  // setBreakpointEnabled as written
  // ---------------------------------------------------------------------------

  /** As written, re-enabling a breakpoint whose instruction another user
      breakpoint took over in the meantime makes it the user there too:
      with breakpoint 1 created at L and disabled, and breakpoint 2 then
      created at L, enabling 1 breaks the links; deleting 2 then unpatches
      L while 1 is still enabled there, and deleting 1 afterwards fails the
      assertion of `unsetUserBreakpoint` that its location exists. The
      corrected `SetEnabled` refuses that enable. */
  lemma SetEnabledAsWrittenBreaksTables()
    ensures var L := Loc(7, 0);
      var req := SourceLocation(1, 10, 0);
      var (t1, b1) := Create(Initial(1), req, Some(L));
      var t2 := SetEnabledAsWritten(t1, 1, false);
      var (t3, b2) := Create(t2, req, Some(L));
      var t4 := SetEnabledAsWritten(t3, 1, true);
      && b1 == Some(1) && b2 == Some(2) && Valid(t3)
      && !UsersLinked(t4) && UnsetAllowed(t4, 2)
      && !UnsetAllowed(Delete(t4, 2), 1)
      && SetEnabled(t3, 1, true) == t3
  {
    var L := Loc(7, 0);
    var t3 := TakeOverScenario();
    var t4 := SetEnabledAsWritten(t3, 1, true);
    assert t4.locations[L].user == Some(1) && Linked(t4, 2, L);
    var t5 := Delete(t4, 2);
    assert L !in t5.locations;
  }

  /** Breakpoint 1 created at L and disabled, then breakpoint 2 created at
      L: consistent tables where 2 holds L. */
  lemma TakeOverScenario() returns (t3: Tables)
    ensures var L := Loc(7, 0);
      var req := SourceLocation(1, 10, 0);
      var (t1, b1) := Create(Initial(1), req, Some(L));
      var t2 := SetEnabledAsWritten(t1, 1, false);
      var (t3', b2) := Create(t2, req, Some(L));
      && b1 == Some(1) && b2 == Some(2) && Valid(t3) && t3' == t3
      && t3.userBreakpoints == map[1 := Breakpoint(req, Some(L), false, ""), 2 := Breakpoint(req, Some(L), true, "")]
      && t3.locations == map[L := Location(Some(2), {}, false, false, false)]
      && t3.patched == {L} && t3.toRestore == None
  {
    var L := Loc(7, 0);
    var req := SourceLocation(1, 10, 0);
    InitialValid(1);
    CreateKeepsValid(Initial(1), req, Some(L));
    var (t1, b1) := Create(Initial(1), req, Some(L));
    assert t1.locations == map[L := Location(Some(1), {}, false, false, false)];
    SetEnabledKeepsValid(t1, 1, false);
    var t2 := SetEnabledAsWritten(t1, 1, false);
    assert t2.locations == map[];
    CreateKeepsValid(t2, req, Some(L));
    var b2;
    t3, b2 := Create(t2, req, Some(L)).0, Create(t2, req, Some(L)).1;
    assert t3.locations == map[L := Location(Some(2), {}, false, false, false)];
  }
}
