/*
 * The configuration and runtime objects of the Windows host library (the
 * `hermes_*` entry points): `ConfigWrapper` collects the settings, and
 * `RuntimeWrapper` creates a runtime from them and registers it for
 * debugging when the debugger is enabled. The runtime, its Node-API
 * environment and the inspector are not part of this model.
 */
module HermesWin {
  import opened OutParam
  import HermesApi

  datatype HermesStatus = HermesOk | HermesError

  type UInt16 = HermesApi.UInt16
  type Handle = HermesApi.Handle

  datatype Option<T> = None | Some(value: T)

  class ConfigWrapper {
    var enableDefaultCrashHandler: bool
    var enableDebugger: bool
    var debuggerRuntimeName: string
    var debuggerPort: UInt16
    var debuggerBreakOnStart: bool
    var taskRunner: Option<Handle>
    var scriptCache: Option<Handle>

    constructor()
      ensures Settings() == (false, false, "", 0, false)
      ensures Installed() == (None, None)
    {
      enableDefaultCrashHandler := false;
      enableDebugger := false;
      debuggerRuntimeName := "";
      debuggerPort := 0;
      debuggerBreakOnStart := false;
      taskRunner := None;
      scriptCache := None;
    }

    /** The plain settings, in declaration order. */
    function Settings(): (bool, bool, string, UInt16, bool)
      reads this
    {
      (enableDefaultCrashHandler, enableDebugger, debuggerRuntimeName, debuggerPort, debuggerBreakOnStart)
    }

    /** The installed host objects. */
    function Installed(): (Option<Handle>, Option<Handle>)
      reads this
    {
      (taskRunner, scriptCache)
    }

    method EnableDefaultCrashHandler(value: bool) returns (status: HermesStatus)
      modifies this
      ensures status == HermesOk && Installed() == old(Installed())
      ensures Settings() == old(Settings()).(0 := value)
    {
      enableDefaultCrashHandler := value;
      return HermesOk;
    }

    method EnableDebugger(value: bool) returns (status: HermesStatus)
      modifies this
      ensures status == HermesOk && Installed() == old(Installed())
      ensures Settings() == old(Settings()).(1 := value)
    {
      enableDebugger := value;
      return HermesOk;
    }

    method SetDebuggerRuntimeName(name: string) returns (status: HermesStatus)
      modifies this
      ensures status == HermesOk && Installed() == old(Installed())
      ensures Settings() == old(Settings()).(2 := name)
    {
      debuggerRuntimeName := name;
      return HermesOk;
    }

    method SetDebuggerPort(port: UInt16) returns (status: HermesStatus)
      modifies this
      ensures status == HermesOk && Installed() == old(Installed())
      ensures Settings() == old(Settings()).(3 := port)
    {
      debuggerPort := port;
      return HermesOk;
    }

    method SetDebuggerBreakOnStart(value: bool) returns (status: HermesStatus)
      modifies this
      ensures status == HermesOk && Installed() == old(Installed())
      ensures Settings() == old(Settings()).(4 := value)
    {
      debuggerBreakOnStart := value;
      return HermesOk;
    }

    method SetTaskRunner(runner: Handle) returns (status: HermesStatus)
      modifies this
      ensures status == HermesOk && Settings() == old(Settings())
      ensures Installed() == old(Installed()).(0 := Some(runner))
    {
      taskRunner := Some(runner);
      return HermesOk;
    }

    method SetScriptCache(cache: Handle) returns (status: HermesStatus)
      modifies this
      ensures status == HermesOk && Settings() == old(Settings())
      ensures Installed() == old(Installed()).(1 := Some(cache))
    {
      scriptCache := Some(cache);
      return HermesOk;
    }
  }

  class RuntimeWrapper {
    /** The crash manager is the default one when it was enabled. */
    const crashManagerInstalled: bool
    /** The name the runtime was registered for debugging under, if it
        was. */
    const debuggingName: Option<string>

    /** `RuntimeWrapper(config)`: registers the runtime for debugging, under
        the configured name or "Hermes", when the debugger is enabled. */
    constructor(config: ConfigWrapper)
      ensures BuiltFrom(this, config)
    {
      crashManagerInstalled := config.enableDefaultCrashHandler;
      if config.enableDebugger {
        var name := config.debuggerRuntimeName;
        if name == [] {
          name := "Hermes";
        }
        debuggingName := Some(name);
      } else {
        debuggingName := None;
      }
    }
  }

  /** What `RuntimeWrapper(config)` makes of a configuration: the default
      crash manager exactly when it was enabled, and registration for
      debugging under the configured name, or "Hermes", exactly when the
      debugger is enabled. */
  predicate BuiltFrom(r: RuntimeWrapper, config: ConfigWrapper)
    reads config
  {
    && r.crashManagerInstalled == config.enableDefaultCrashHandler
    && r.debuggingName == if config.enableDebugger then Some(HermesApi.InspectorName(config.debuggerRuntimeName)) else None
  }

  // ---------------------------------------------------------------------------
  // Entry points
  // ---------------------------------------------------------------------------

  /** How `hermes_create_runtime` ends: a runtime is created, the call is
      refused with `hermes_error`, or a null configuration is
      dereferenced. */
  datatype CreateOutcome = Created | Refused | NullConfigDereferenced

  /** `hermes_create_runtime` as written: only the out-pointer is checked,
      and the configuration is dereferenced whether or not it is null. */
  function CreateRuntimeAsWritten(configIsNull: bool, runtimeIsNull: bool): (r: CreateOutcome)
    ensures r == Refused <==> runtimeIsNull
    ensures r == NullConfigDereferenced <==> configIsNull && !runtimeIsNull
  {
    if runtimeIsNull then Refused
    else if configIsNull then NullConfigDereferenced
    else Created
  }

  /** `hermes_create_runtime` as intended, and as the shared host's
      `jsr_create_runtime` does it: both pointers are checked. */
  function CreateRuntimeOutcome(configIsNull: bool, runtimeIsNull: bool): (r: CreateOutcome)
    ensures r != NullConfigDereferenced
    ensures r == Created <==> !configIsNull && !runtimeIsNull
  {
    if runtimeIsNull || configIsNull then Refused else Created
  }

  /** The two differ exactly for a null configuration with an out-pointer:
      there the call as written dereferences null. */
  lemma CreateRuntimeNullConfig(configIsNull: bool, runtimeIsNull: bool)
    ensures CreateRuntimeAsWritten(configIsNull, runtimeIsNull) != CreateRuntimeOutcome(configIsNull, runtimeIsNull)
      <==> configIsNull && !runtimeIsNull
    ensures CreateRuntimeAsWritten(true, false) == NullConfigDereferenced
  {
  }

  /** `hermes_create_runtime`, with the configuration checked. */
  method CreateRuntime(config: ConfigWrapper?, runtime: Cell?<RuntimeWrapper?>) returns (status: HermesStatus)
    modifies runtime
    ensures (status == HermesOk) == (CreateRuntimeOutcome(config == null, runtime == null) == Created)
    ensures status == HermesOk ==>
      runtime.value != null && fresh(runtime.value) && BuiltFrom(runtime.value, config)
    ensures status != HermesOk && runtime != null ==> runtime.value == old(runtime.value)
  {
    if runtime == null || config == null {
      return HermesError;
    }
    var r := new RuntimeWrapper(config);
    runtime.value := r;
    return HermesOk;
  }

  /** `hermes_delete_runtime`; freeing the object is not modelled. */
  method DeleteRuntime(runtime: RuntimeWrapper?) returns (status: HermesStatus)
    ensures status == HermesError <==> runtime == null
  {
    if runtime == null {
      return HermesError;
    }
    return HermesOk;
  }

  /** `hermes_create_config`. */
  method CreateConfig(config: Cell?<ConfigWrapper?>) returns (status: HermesStatus)
    modifies config
    ensures status == HermesError <==> config == null
    ensures config != null ==> config.value != null && fresh(config.value) && config.value.Settings() == (false, false, "", 0, false)
  {
    if config == null {
      return HermesError;
    }
    var c := new ConfigWrapper();
    config.value := c;
    return HermesOk;
  }

  /** `hermes_delete_config`; freeing the object is not modelled. */
  method DeleteConfig(config: ConfigWrapper?) returns (status: HermesStatus)
    ensures status == HermesError <==> config == null
  {
    if config == null {
      return HermesError;
    }
    return HermesOk;
  }

  /** `hermes_config_enable_default_crash_handler`. */
  method ConfigEnableDefaultCrashHandler(config: ConfigWrapper?, value: bool) returns (status: HermesStatus)
    modifies config
    ensures status == HermesError <==> config == null
    ensures config != null ==> config.Settings() == old(config.Settings()).(0 := value) && config.Installed() == old(config.Installed())
  {
    if config == null {
      return HermesError;
    }
    status := config.EnableDefaultCrashHandler(value);
  }

  /** `hermes_config_enable_debugger`. */
  method ConfigEnableDebugger(config: ConfigWrapper?, value: bool) returns (status: HermesStatus)
    modifies config
    ensures status == HermesError <==> config == null
    ensures config != null ==> config.Settings() == old(config.Settings()).(1 := value) && config.Installed() == old(config.Installed())
  {
    if config == null {
      return HermesError;
    }
    status := config.EnableDebugger(value);
  }

  /** `hermes_config_set_debugger_runtime_name`. */
  method ConfigSetDebuggerRuntimeName(config: ConfigWrapper?, name: string) returns (status: HermesStatus)
    modifies config
    ensures status == HermesError <==> config == null
    ensures config != null ==> config.Settings() == old(config.Settings()).(2 := name) && config.Installed() == old(config.Installed())
  {
    if config == null {
      return HermesError;
    }
    status := config.SetDebuggerRuntimeName(name);
  }

  /** `hermes_config_set_debugger_port`. */
  method ConfigSetDebuggerPort(config: ConfigWrapper?, port: UInt16) returns (status: HermesStatus)
    modifies config
    ensures status == HermesError <==> config == null
    ensures config != null ==> config.Settings() == old(config.Settings()).(3 := port) && config.Installed() == old(config.Installed())
  {
    if config == null {
      return HermesError;
    }
    status := config.SetDebuggerPort(port);
  }

  /** `hermes_config_set_debugger_break_on_start`. */
  method ConfigSetDebuggerBreakOnStart(config: ConfigWrapper?, value: bool) returns (status: HermesStatus)
    modifies config
    ensures status == HermesError <==> config == null
    ensures config != null ==> config.Settings() == old(config.Settings()).(4 := value) && config.Installed() == old(config.Installed())
  {
    if config == null {
      return HermesError;
    }
    status := config.SetDebuggerBreakOnStart(value);
  }

  /** `hermes_config_set_task_runner`. */
  method ConfigSetTaskRunner(config: ConfigWrapper?, runner: Handle) returns (status: HermesStatus)
    modifies config
    ensures status == HermesError <==> config == null
    ensures config != null ==> config.Installed() == old(config.Installed()).(0 := Some(runner)) && config.Settings() == old(config.Settings())
  {
    if config == null {
      return HermesError;
    }
    status := config.SetTaskRunner(runner);
  }

  /** `hermes_config_set_script_cache`. */
  method ConfigSetScriptCache(config: ConfigWrapper?, cache: Handle) returns (status: HermesStatus)
    modifies config
    ensures status == HermesError <==> config == null
    ensures config != null ==> config.Installed() == old(config.Installed()).(1 := Some(cache)) && config.Settings() == old(config.Settings())
  {
    if config == null {
      return HermesError;
    }
    status := config.SetScriptCache(cache);
  }
}
