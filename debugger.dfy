/*
 * The breakpoint bookkeeping of the Hermes `Debugger` as the class keeps
 * it: each method updates the fields step by step as the source does, and
 * states its new state as the matching function of DebuggerTables applied
 * to the old one. The public operations also keep the tables consistent.
 */
module HermesDebugger {
  import opened DebuggerTables
  import opened DebuggerLaws

  class Debugger {
    var userBreakpoints: map<BreakpointID, Breakpoint>
    var nextBreakpointId: BreakpointID
    var breakpointLocations: map<Loc, Location>
    /** The instructions of the code blocks currently patched with the
        breakpoint opcode. */
    var patched: set<Loc>
    var tempBreakpoints: seq<Loc>
    var restorationBreakpoints: seq<Loc>
    var breakpointToRestore: Option<Loc>
    var pauseOnAllCodeBlocks: bool
    var pauseOnAllCodeBlocksToRestoreBreakpoint: bool

    /** The breakpoint tables held by the fields. */
    function State(): Tables
      reads this
    {
      Tables(userBreakpoints, nextBreakpointId, breakpointLocations, patched,
             tempBreakpoints, restorationBreakpoints, breakpointToRestore)
    }

    /** The two pause-on-all-code-blocks flags. */
    function Pauses(): (bool, bool)
      reads this
    {
      (pauseOnAllCodeBlocks, pauseOnAllCodeBlocksToRestoreBreakpoint)
    }

    constructor(firstId: BreakpointID)
      ensures State() == Initial(firstId) && Valid(State()) && Pauses() == (false, false)
    {
      userBreakpoints := map[];
      nextBreakpointId := firstId;
      breakpointLocations := map[];
      patched := {};
      tempBreakpoints := [];
      restorationBreakpoints := [];
      breakpointToRestore := None;
      pauseOnAllCodeBlocks := false;
      pauseOnAllCodeBlocksToRestoreBreakpoint := false;
      InitialValid(firstId);
    }

    // -------------------------------------------------------------------------
    // Patching
    // -------------------------------------------------------------------------

    method InstallBreakpoint(loc: Loc)
      modifies this
      ensures State() == Install(old(State()), loc) && Pauses() == old(Pauses())
    {
      var location := if loc in breakpointLocations then breakpointLocations[loc] else NewLocation;
      breakpointLocations := breakpointLocations[loc := location];
      if !InUse(location) {
        patched := patched + {loc};
      }
    }

    method UninstallBreakpoint(loc: Loc)
      modifies this
      ensures State() == Uninstall(old(State()), loc) && Pauses() == old(Pauses())
    {
      if breakpointToRestore == Some(loc) {
        breakpointToRestore := None;
      } else {
        patched := patched - {loc};
      }
    }

    method RestoreBreakpointIfAny() returns (restored: bool)
      requires Valid(State())
      modifies this
      ensures (State(), restored) == Restore(old(State())) && Pauses() == old(Pauses())
      ensures Valid(State())
    {
      RestoreOnce(State());
      if breakpointToRestore.Some? {
        patched := patched + {breakpointToRestore.value};
        breakpointToRestore := None;
        return true;
      }
      return false;
    }

    // -------------------------------------------------------------------------
    // User breakpoints
    // -------------------------------------------------------------------------

    method SetUserBreakpoint(loc: Loc, id: BreakpointID)
      modifies this
      ensures State() == SetUser(old(State()), loc, id) && Pauses() == old(Pauses())
    {
      InstallBreakpoint(loc);
      breakpointLocations := breakpointLocations[loc := breakpointLocations[loc].(user := Some(id))];
    }

    /** The source asserts that the location exists and has a user. */
    method UnsetUserBreakpoint(loc: Loc)
      requires loc in breakpointLocations && breakpointLocations[loc].user.Some?
      modifies this
      ensures State() == UnsetUser(old(State()), loc) && Pauses() == old(Pauses())
    {
      var location := breakpointLocations[loc].(user := None);
      breakpointLocations := breakpointLocations[loc := location];
      if !InUse(location) {
        UninstallBreakpoint(loc);
        breakpointLocations := breakpointLocations - {loc};
      }
    }

    /** `resolved` is where the debugger resolved the requested place, None
        when it could not yet; None as the result is `kInvalidBreakpoint`. */
    method CreateBreakpoint(requested: SourceLocation, resolved: Option<Loc>) returns (id: Option<BreakpointID>)
      requires Valid(State())
      modifies this
      ensures (State(), id) == Create(old(State()), requested, resolved) && Pauses() == old(Pauses())
      ensures Valid(State())
    {
      CreateKeepsValid(State(), requested, resolved);
      var breakpoint := Breakpoint(requested, resolved, true, "");
      var breakpointId;
      if resolved.Some? {
        if resolved.value in breakpointLocations && breakpointLocations[resolved.value].user.Some? {
          return None;
        }
        breakpointId := nextBreakpointId;
        nextBreakpointId := nextBreakpointId + 1;
        SetUserBreakpoint(resolved.value, breakpointId);
      } else {
        breakpointId := nextBreakpointId;
        nextBreakpointId := nextBreakpointId + 1;
      }
      userBreakpoints := userBreakpoints[breakpointId := breakpoint];
      return Some(breakpointId);
    }

    method SetBreakpointCondition(id: BreakpointID, condition: string)
      requires Valid(State())
      modifies this
      ensures State() == SetCondition(old(State()), id, condition) && Pauses() == old(Pauses())
      ensures Valid(State())
    {
      SetConditionKeepsValid(State(), id, condition);
      if id !in userBreakpoints {
        return;
      }
      userBreakpoints := userBreakpoints[id := userBreakpoints[id].(condition := condition)];
    }

    method DeleteBreakpoint(id: BreakpointID)
      requires Valid(State())
      modifies this
      ensures UnsetAllowed(old(State()), id) && State() == Delete(old(State()), id) && Pauses() == old(Pauses())
      ensures Valid(State())
    {
      DeleteKeepsValid(State(), id);
      if id !in userBreakpoints {
        return;
      }
      var breakpoint := userBreakpoints[id];
      if breakpoint.enabled && breakpoint.at.Some? {
        UnsetUserBreakpoint(breakpoint.at.value);
      }
      userBreakpoints := userBreakpoints - {id};
    }

    method DeleteAllBreakpoints()
      requires Valid(State())
      modifies this
      ensures State() == DeleteAll(old(State())) && Pauses() == old(Pauses())
      ensures Valid(State())
    {
      DeleteAllKeepsValid(State());
      DropNoUsers(State());
      UnsetAll(State());
      userBreakpoints := map[];
    }

    /** The loop of `deleteAllBreakpoints`: every enabled resolved
        breakpoint taken off its location, one at a time. */
    method UnsetAll(ghost t0: Tables)
      requires State() == DropUsers(t0, {}) && UsersLinked(t0) && PatchedMatches(t0)
      modifies this
      ensures State() == DropUsers(t0, t0.userBreakpoints.Keys) && Pauses() == old(Pauses())
    {
      var todo := userBreakpoints.Keys;
      ghost var done: set<BreakpointID> := {};
      while todo != {}
        invariant todo == t0.userBreakpoints.Keys - done && done <= t0.userBreakpoints.Keys
        invariant State() == DropUsers(t0, done)
        invariant Pauses() == old(Pauses())
        decreases |todo|
      {
        var id :| id in todo;
        UnsetIfSet(id, t0, done);
        done := done + {id};
        todo := todo - {id};
      }
      assert done == t0.userBreakpoints.Keys;
    }

    /** One turn of the loop of `deleteAllBreakpoints`: an enabled resolved
        breakpoint is taken off its location, which drops one more user. */
    method UnsetIfSet(id: BreakpointID, ghost t0: Tables, ghost done: set<BreakpointID>)
      requires UsersLinked(t0) && PatchedMatches(t0) && id in t0.userBreakpoints && id !in done
      requires State() == DropUsers(t0, done)
      modifies this
      ensures State() == DropUsers(t0, done + {id}) && Pauses() == old(Pauses())
    {
      DropUsersStep(t0, done, id);
      var breakpoint := userBreakpoints[id];
      if breakpoint.enabled && breakpoint.at.Some? {
        UnsetUserBreakpoint(breakpoint.at.value);
      }
    }

    /** Enabling is refused while another user breakpoint holds the
        instruction, as creating a breakpoint there is. */
    method SetBreakpointEnabled(id: BreakpointID, enable: bool)
      requires Valid(State())
      modifies this
      ensures UnsetAllowed(old(State()), id) && State() == SetEnabled(old(State()), id, enable)
      ensures Pauses() == old(Pauses()) && Valid(State())
    {
      SetEnabledKeepsValid(State(), id, enable);
      if id !in userBreakpoints {
        return;
      }
      var breakpoint := userBreakpoints[id];
      if enable && !breakpoint.enabled {
        if breakpoint.at.Some? && breakpoint.at.value in breakpointLocations
           && breakpointLocations[breakpoint.at.value].user.Some? {
          return;
        }
        userBreakpoints := userBreakpoints[id := breakpoint.(enabled := true)];
        if breakpoint.at.Some? {
          SetUserBreakpoint(breakpoint.at.value, id);
        }
      } else if !enable && breakpoint.enabled {
        userBreakpoints := userBreakpoints[id := breakpoint.(enabled := false)];
        if breakpoint.at.Some? {
          UnsetUserBreakpoint(breakpoint.at.value);
        }
      }
    }

    // -------------------------------------------------------------------------
    // Step, restoration and on-load breakpoints
    // -------------------------------------------------------------------------

    method DoSetNonUserBreakpoint(loc: Loc, callStackDepth: nat, isStepBreakpoint: bool)
      requires Valid(State())
      modifies this
      ensures State() == SetNonUser(old(State()), loc, callStackDepth, isStepBreakpoint) && Pauses() == old(Pauses())
      ensures Valid(State())
    {
      SetNonUserKeepsValid(State(), loc, callStackDepth, isStepBreakpoint);
      InstallBreakpoint(loc);
      var location := breakpointLocations[loc];
      var updated := location.(callStackDepths := location.callStackDepths + {callStackDepth});
      if isStepBreakpoint {
        if !location.hasStepBreakpoint {
          tempBreakpoints := tempBreakpoints + [loc];
        }
        updated := updated.(hasStepBreakpoint := true);
      } else {
        if !location.hasRestorationBreakpoint {
          restorationBreakpoints := restorationBreakpoints + [loc];
        }
        updated := updated.(hasRestorationBreakpoint := true);
      }
      breakpointLocations := breakpointLocations[loc := updated];
    }

    method SetStepBreakpoint(loc: Loc, callStackDepth: nat)
      requires Valid(State())
      modifies this
      ensures State() == SetNonUser(old(State()), loc, callStackDepth, true) && Pauses() == old(Pauses())
      ensures Valid(State())
    {
      DoSetNonUserBreakpoint(loc, callStackDepth, true);
    }

    method SetRestorationBreakpoint(loc: Loc, callStackDepth: nat)
      requires Valid(State())
      modifies this
      ensures State() == SetNonUser(old(State()), loc, callStackDepth, false) && Pauses() == old(Pauses())
      ensures Valid(State())
    {
      DoSetNonUserBreakpoint(loc, callStackDepth, false);
    }

    /** The source asserts that no on-load breakpoint is set there yet. */
    method SetOnLoadBreakpoint(loc: Loc)
      requires Valid(State())
      requires loc in breakpointLocations ==> !breakpointLocations[loc].onLoad
      modifies this
      ensures State() == SetOnLoad(old(State()), loc) && Pauses() == old(Pauses())
      ensures Valid(State())
    {
      SetOnLoadKeepsValid(State(), loc);
      InstallBreakpoint(loc);
      breakpointLocations := breakpointLocations[loc := breakpointLocations[loc].(onLoad := true)];
      tempBreakpoints := tempBreakpoints + [loc];
    }

    method DoClearNonUserBreakpoints(isStepBreakpoint: bool)
      requires Valid(State())
      modifies this
      ensures State() == ClearNonUser(old(State()), isStepBreakpoint) && Pauses() == old(Pauses())
      ensures Valid(State())
    {
      ghost var t0 := State();
      ClearNonUserEffect(t0, isStepBreakpoint);
      var toErase: seq<Loc> := [];
      var breakpointsToClear := if isStepBreakpoint then tempBreakpoints else restorationBreakpoints;
      var i := 0;
      while i < |breakpointsToClear|
        invariant i <= |breakpointsToClear| && breakpointsToClear == ListOf(t0, isStepBreakpoint)
        invariant ClearFrom(State(), breakpointsToClear, i, toErase, isStepBreakpoint) == ClearNonUser(t0, isStepBreakpoint)
        invariant Pauses() == old(Pauses())
      {
        ghost var before := State();
        ghost var erased := toErase;
        var loc := breakpointsToClear[i];
        if loc in breakpointLocations {
          var erase := ClearTurn(loc, isStepBreakpoint);
          if erase {
            toErase := toErase + [loc];
          }
        }
        assert ClearOne(before, loc, isStepBreakpoint) == (State(), toErase != erased);
        i := i + 1;
      }
      EraseAll(toErase);
      if isStepBreakpoint {
        tempBreakpoints := [];
      } else {
        restorationBreakpoints := [];
      }
    }

    /** One turn of the loop of `doClearNonUserBreakpoints` on a location
        that exists. */
    method ClearTurn(loc: Loc, isStepBreakpoint: bool) returns (erase: bool)
      requires loc in breakpointLocations
      modifies this
      ensures (State(), erase) == ClearOne(old(State()), loc, isStepBreakpoint) && Pauses() == old(Pauses())
    {
      erase := false;
      ghost var l0 := breakpointLocations[loc];
      var location := breakpointLocations[loc];
      var other;
      if isStepBreakpoint {
        location := location.(hasStepBreakpoint := false);
        other := location.hasRestorationBreakpoint;
      } else {
        location := location.(hasRestorationBreakpoint := false);
        other := location.hasStepBreakpoint;
      }
      assert location == ClearFlag(l0, isStepBreakpoint) && other == Flag(l0, !isStepBreakpoint);
      if !other && InUse(location) {
        location := location.(callStackDepths := {}, onLoad := false);
        breakpointLocations := breakpointLocations[loc := location];
        if !InUse(location) {
          UninstallBreakpoint(loc);
          erase := true;
        }
      } else {
        breakpointLocations := breakpointLocations[loc := location];
      }
    }

    /** The erasures at the end of `doClearNonUserBreakpoints`. */
    method EraseAll(toErase: seq<Loc>)
      modifies this
      ensures State() == old(State()).(locations := old(breakpointLocations) - (set x | x in toErase))
      ensures Pauses() == old(Pauses())
    {
      var j := 0;
      while j < |toErase|
        invariant j <= |toErase|
        invariant State() == old(State()).(locations := old(breakpointLocations) - (set x | x in toErase[..j]))
        invariant Pauses() == old(Pauses())
      {
        assert toErase[..j + 1] == toErase[..j] + [toErase[j]];
        ElementsSnoc(toErase[..j], toErase[j]);
        breakpointLocations := breakpointLocations - {toErase[j]};
        j := j + 1;
      }
      assert toErase[..j] == toErase;
    }

    method ClearTempBreakpoints()
      requires Valid(State())
      modifies this
      ensures State() == ClearNonUser(old(State()), true) && Valid(State())
      ensures Pauses() == (false, old(pauseOnAllCodeBlocksToRestoreBreakpoint))
    {
      DoClearNonUserBreakpoints(true);
      pauseOnAllCodeBlocks := false;
    }

    method ClearRestorationBreakpoints()
      requires Valid(State())
      modifies this
      ensures State() == ClearNonUser(old(State()), false) && Valid(State())
      ensures Pauses() == (old(pauseOnAllCodeBlocks), false)
    {
      DoClearNonUserBreakpoints(false);
      pauseOnAllCodeBlocksToRestoreBreakpoint := false;
    }
  }

  /** The elements of a sequence with one more at its end. */
  lemma ElementsSnoc(s: seq<Loc>, x: Loc)
    ensures (set y | y in s + [x]) == (set y | y in s) + {x}
  {
  }
}
