/*
 * The configuration and runtime objects of the shared host library (the
 * `jsr_*` entry points): `ConfigWrapper` collects the settings a runtime is
 * created from, and `RuntimeWrapper` turns them into the compile flags of
 * the runtime and, when the inspector is enabled, registers the runtime
 * for debugging under a name. The Hermes runtime itself, the Node-API
 * environment and the inspector are not part of this model: what the
 * wrapper hands them is recorded in its fields.
 */
module HermesApi {
  import opened OutParam

  datatype NapiStatus = NapiOk | NapiGenericFailure

  type UInt16 = x: int | 0 <= x < 0x1_0000

  /** Host callbacks and objects the configuration only stores, known by
      their identity. */
  datatype Handle = Handle(id: nat)

  datatype Option<T> = None | Some(value: T)

  /** `hermes::vm::CompilationMode`. */
  datatype CompilationMode = SmartCompilation | ForceEagerCompilation | ForceLazyCompilation

  /** What a `RuntimeConfig` carries that the wrapper reads or sets. */
  datatype RuntimeConfig = RuntimeConfig(
    crashManagerInstalled: bool,
    microtaskQueue: bool,
    compilationMode: CompilationMode,
    enableGenerator: bool,
    asyncBreakCheckInEval: bool)

  /** The fields of `hbc::CompileFlags` the wrapper sets. */
  datatype CompileFlags = CompileFlags(
    debug: bool,
    lazy: bool,
    preemptiveFileCompilationThreshold: nat,
    preemptiveFunctionCompilationThreshold: nat,
    enableGenerator: bool,
    emitAsyncBreakCheck: bool)

  class ConfigWrapper {
    var enableDefaultCrashHandler: bool
    var enableInspector: bool
    var inspectorRuntimeName: string
    var inspectorPort: UInt16
    var inspectorBreakOnStart: bool
    var explicitMicrotasks: bool
    var unhandledErrorCallback: Option<Handle>
    var taskRunner: Option<Handle>
    var scriptCache: Option<Handle>

    /** A new configuration: every flag off, no name, port 0, nothing
        installed. */
    constructor()
      ensures Settings() == (false, false, "", 0, false, false)
      ensures unhandledErrorCallback == None && taskRunner == None && scriptCache == None
    {
      enableDefaultCrashHandler := false;
      enableInspector := false;
      inspectorRuntimeName := "";
      inspectorPort := 0;
      inspectorBreakOnStart := false;
      explicitMicrotasks := false;
      unhandledErrorCallback := None;
      taskRunner := None;
      scriptCache := None;
    }

    /** The plain settings, in declaration order. */
    function Settings(): (bool, bool, string, UInt16, bool, bool)
      reads this
    {
      (enableDefaultCrashHandler, enableInspector, inspectorRuntimeName, inspectorPort,
       inspectorBreakOnStart, explicitMicrotasks)
    }

    /** The installed host objects. */
    function Installed(): (Option<Handle>, Option<Handle>, Option<Handle>)
      reads this
    {
      (unhandledErrorCallback, taskRunner, scriptCache)
    }

    method EnableDefaultCrashHandler(value: bool) returns (status: NapiStatus)
      modifies this
      ensures status == NapiOk && Installed() == old(Installed())
      ensures Settings() == old(Settings()).(0 := value)
    {
      enableDefaultCrashHandler := value;
      return NapiOk;
    }

    method EnableInspector(value: bool) returns (status: NapiStatus)
      modifies this
      ensures status == NapiOk && Installed() == old(Installed())
      ensures Settings() == old(Settings()).(1 := value)
    {
      enableInspector := value;
      return NapiOk;
    }

    method SetInspectorRuntimeName(name: string) returns (status: NapiStatus)
      modifies this
      ensures status == NapiOk && Installed() == old(Installed())
      ensures Settings() == old(Settings()).(2 := name)
    {
      inspectorRuntimeName := name;
      return NapiOk;
    }

    method SetInspectorPort(port: UInt16) returns (status: NapiStatus)
      modifies this
      ensures status == NapiOk && Installed() == old(Installed())
      ensures Settings() == old(Settings()).(3 := port)
    {
      inspectorPort := port;
      return NapiOk;
    }

    method SetInspectorBreakOnStart(value: bool) returns (status: NapiStatus)
      modifies this
      ensures status == NapiOk && Installed() == old(Installed())
      ensures Settings() == old(Settings()).(4 := value)
    {
      inspectorBreakOnStart := value;
      return NapiOk;
    }

    method SetExplicitMicrotasks(value: bool) returns (status: NapiStatus)
      modifies this
      ensures status == NapiOk && Installed() == old(Installed())
      ensures Settings() == old(Settings()).(5 := value)
    {
      explicitMicrotasks := value;
      return NapiOk;
    }

    method SetUnhandledErrorCallback(callback: Handle) returns (status: NapiStatus)
      modifies this
      ensures status == NapiOk && Settings() == old(Settings())
      ensures Installed() == old(Installed()).(0 := Some(callback))
    {
      unhandledErrorCallback := Some(callback);
      return NapiOk;
    }

    method SetTaskRunner(runner: Handle) returns (status: NapiStatus)
      modifies this
      ensures status == NapiOk && Settings() == old(Settings())
      ensures Installed() == old(Installed()).(1 := Some(runner))
    {
      taskRunner := Some(runner);
      return NapiOk;
    }

    method SetScriptCache(cache: Handle) returns (status: NapiStatus)
      modifies this
      ensures status == NapiOk && Settings() == old(Settings())
      ensures Installed() == old(Installed()).(2 := Some(cache))
    {
      scriptCache := Some(cache);
      return NapiOk;
    }

    /** `getRuntimeConfig`: the builder's defaults, with the default crash
        handler installed when it is enabled and the microtask queue as
        configured. */
    function GetRuntimeConfig(builderDefaults: RuntimeConfig): (c: RuntimeConfig)
      reads this
      ensures c.crashManagerInstalled == (enableDefaultCrashHandler || builderDefaults.crashManagerInstalled)
      ensures c.microtaskQueue == explicitMicrotasks
      ensures c.compilationMode == builderDefaults.compilationMode
      ensures c.enableGenerator == builderDefaults.enableGenerator
      ensures c.asyncBreakCheckInEval == builderDefaults.asyncBreakCheckInEval
    {
      var withCrash := if enableDefaultCrashHandler then builderDefaults.(crashManagerInstalled := true) else builderDefaults;
      withCrash.(microtaskQueue := explicitMicrotasks)
    }
  }

  /** The name the inspector registers the runtime under: the configured
      one, or "Hermes" when none is configured. */
  function InspectorName(configured: string): (name: string)
    ensures |name| > 0
    ensures configured != [] ==> name == configured
    ensures configured == [] ==> name == "Hermes"
  {
    if configured == [] then "Hermes" else configured
  }

  /** The compile flags `RuntimeWrapper`'s constructor sets, one by one,
      starting from the defaults: debug information for an inspectable
      runtime; lazy compilation unless eager compilation is forced; both
      preemptive thresholds 0 when lazy compilation is forced; generators
      and async break checks as the runtime configuration says. */
  method CompileFlagsFor(defaults: CompileFlags, inspectable: bool, runtimeConfig: RuntimeConfig)
    returns (flags: CompileFlags)
    ensures flags.debug == (inspectable || defaults.debug)
    ensures flags.lazy <==> runtimeConfig.compilationMode != ForceEagerCompilation
    ensures runtimeConfig.compilationMode == ForceLazyCompilation ==>
      flags.preemptiveFileCompilationThreshold == 0 && flags.preemptiveFunctionCompilationThreshold == 0
    ensures runtimeConfig.compilationMode != ForceLazyCompilation ==>
      && flags.preemptiveFileCompilationThreshold == defaults.preemptiveFileCompilationThreshold
      && flags.preemptiveFunctionCompilationThreshold == defaults.preemptiveFunctionCompilationThreshold
    ensures flags.enableGenerator == runtimeConfig.enableGenerator
    ensures flags.emitAsyncBreakCheck == runtimeConfig.asyncBreakCheckInEval
  {
    flags := defaults;
    if inspectable {
      flags := flags.(debug := true);
    }
    match runtimeConfig.compilationMode {
      case SmartCompilation =>
        flags := flags.(lazy := true);
      case ForceEagerCompilation =>
        flags := flags.(lazy := false);
      case ForceLazyCompilation =>
        flags := flags.(lazy := true);
        flags := flags.(preemptiveFileCompilationThreshold := 0);
        flags := flags.(preemptiveFunctionCompilationThreshold := 0);
    }
    flags := flags.(enableGenerator := runtimeConfig.enableGenerator);
    flags := flags.(emitAsyncBreakCheck := runtimeConfig.asyncBreakCheckInEval);
  }

  class RuntimeWrapper {
    const isInspectable: bool
    const compileFlags: CompileFlags
    const runtimeConfig: RuntimeConfig
    /** The name the runtime was registered for debugging under, if it
        was. */
    const debuggingName: Option<string>

    /** `RuntimeWrapper(config)`: the runtime is created from the
        configuration's runtime config; it is inspectable as configured and
        then registered for debugging under its inspector name. */
    constructor(config: ConfigWrapper, builderDefaults: RuntimeConfig, flagDefaults: CompileFlags)
      ensures BuiltFrom(this, config, builderDefaults, flagDefaults)
    {
      isInspectable := config.enableInspector;
      runtimeConfig := config.GetRuntimeConfig(builderDefaults);
      var flags := CompileFlagsFor(flagDefaults, config.enableInspector, config.GetRuntimeConfig(builderDefaults));
      compileFlags := flags;
      if config.enableInspector {
        var name := config.inspectorRuntimeName;
        if name == [] {
          name := "Hermes";
        }
        debuggingName := Some(name);
      } else {
        debuggingName := None;
      }
    }

    /** `getDescription`: "Hermes", written through the out-pointer. */
    method GetDescription(result: Cell?<string>) returns (status: NapiStatus)
      modifies result
      ensures status == NapiGenericFailure <==> result == null
      ensures result != null ==> result.value == "Hermes"
    {
      if result == null {
        return NapiGenericFailure;
      }
      result.value := "Hermes";
      return NapiOk;
    }

    /** `isInspectable`, written through the out-pointer. */
    method IsInspectable(result: Cell?<bool>) returns (status: NapiStatus)
      modifies result
      ensures status == NapiGenericFailure <==> result == null
      ensures result != null ==> result.value == isInspectable
    {
      if result == null {
        return NapiGenericFailure;
      }
      result.value := isInspectable;
      return NapiOk;
    }
  }

  /** What `RuntimeWrapper(config)` makes of a configuration: the runtime
      is inspectable as configured, gets the configuration's runtime config
      and the compile flags derived from it, and is registered for debugging
      under its inspector name exactly when the inspector is enabled. */
  predicate BuiltFrom(r: RuntimeWrapper, config: ConfigWrapper, builderDefaults: RuntimeConfig, flagDefaults: CompileFlags)
    reads config
  {
    && r.isInspectable == config.enableInspector
    && r.runtimeConfig == config.GetRuntimeConfig(builderDefaults)
    && r.compileFlags.debug == (config.enableInspector || flagDefaults.debug)
    && (r.compileFlags.lazy <==> r.runtimeConfig.compilationMode != ForceEagerCompilation)
    && (r.runtimeConfig.compilationMode == ForceLazyCompilation ==>
          r.compileFlags.preemptiveFileCompilationThreshold == 0 && r.compileFlags.preemptiveFunctionCompilationThreshold == 0)
    && (r.runtimeConfig.compilationMode != ForceLazyCompilation ==>
          && r.compileFlags.preemptiveFileCompilationThreshold == flagDefaults.preemptiveFileCompilationThreshold
          && r.compileFlags.preemptiveFunctionCompilationThreshold == flagDefaults.preemptiveFunctionCompilationThreshold)
    && r.compileFlags.enableGenerator == r.runtimeConfig.enableGenerator
    && r.compileFlags.emitAsyncBreakCheck == r.runtimeConfig.asyncBreakCheckInEval
    && r.debuggingName == if config.enableInspector then Some(InspectorName(config.inspectorRuntimeName)) else None
  }

  // ---------------------------------------------------------------------------
  // Entry points: each checks its pointer arguments before using them.
  // ---------------------------------------------------------------------------

  /** `jsr_create_config`. */
  method CreateConfig(config: Cell?<ConfigWrapper?>) returns (status: NapiStatus)
    modifies config
    ensures status == NapiGenericFailure <==> config == null
    ensures config != null ==> config.value != null && fresh(config.value) && config.value.Settings() == (false, false, "", 0, false, false)
  {
    if config == null {
      return NapiGenericFailure;
    }
    var c := new ConfigWrapper();
    config.value := c;
    return NapiOk;
  }

  /** `jsr_delete_config`; freeing the object is not modelled. */
  method DeleteConfig(config: ConfigWrapper?) returns (status: NapiStatus)
    ensures status == NapiGenericFailure <==> config == null
  {
    if config == null {
      return NapiGenericFailure;
    }
    return NapiOk;
  }

  /** `jsr_create_runtime`: both the configuration and the out-pointer must
      be there. */
  method CreateRuntime(config: ConfigWrapper?, runtime: Cell?<RuntimeWrapper?>,
                       builderDefaults: RuntimeConfig, flagDefaults: CompileFlags)
    returns (status: NapiStatus)
    modifies runtime
    ensures status == NapiGenericFailure <==> config == null || runtime == null
    ensures status == NapiOk ==>
      runtime.value != null && fresh(runtime.value) && BuiltFrom(runtime.value, config, builderDefaults, flagDefaults)
    ensures status != NapiOk && runtime != null ==> runtime.value == old(runtime.value)
  {
    if config == null || runtime == null {
      return NapiGenericFailure;
    }
    var r := new RuntimeWrapper(config, builderDefaults, flagDefaults);
    runtime.value := r;
    return NapiOk;
  }

  /** `jsr_delete_runtime`; freeing the object is not modelled. */
  method DeleteRuntime(runtime: RuntimeWrapper?) returns (status: NapiStatus)
    ensures status == NapiGenericFailure <==> runtime == null
  {
    if runtime == null {
      return NapiGenericFailure;
    }
    return NapiOk;
  }

  /** `jsr_config_enable_inspector`: a null configuration is refused,
      otherwise the setting is stored. */
  method ConfigEnableInspector(config: ConfigWrapper?, value: bool) returns (status: NapiStatus)
    modifies config
    ensures status == NapiGenericFailure <==> config == null
    ensures config != null ==> config.Settings() == old(config.Settings()).(1 := value) && config.Installed() == old(config.Installed())
  {
    if config == null {
      return NapiGenericFailure;
    }
    status := config.EnableInspector(value);
  }

  /** `jsr_config_set_inspector_runtime_name`. */
  method ConfigSetInspectorRuntimeName(config: ConfigWrapper?, name: string) returns (status: NapiStatus)
    modifies config
    ensures status == NapiGenericFailure <==> config == null
    ensures config != null ==> config.Settings() == old(config.Settings()).(2 := name) && config.Installed() == old(config.Installed())
  {
    if config == null {
      return NapiGenericFailure;
    }
    status := config.SetInspectorRuntimeName(name);
  }

  /** `hermes_config_enable_default_crash_handler`. */
  method ConfigEnableDefaultCrashHandler(config: ConfigWrapper?, value: bool) returns (status: NapiStatus)
    modifies config
    ensures status == NapiGenericFailure <==> config == null
    ensures config != null ==> config.Settings() == old(config.Settings()).(0 := value) && config.Installed() == old(config.Installed())
  {
    if config == null {
      return NapiGenericFailure;
    }
    status := config.EnableDefaultCrashHandler(value);
  }

  /** `jsr_config_set_inspector_port`. */
  method ConfigSetInspectorPort(config: ConfigWrapper?, port: UInt16) returns (status: NapiStatus)
    modifies config
    ensures status == NapiGenericFailure <==> config == null
    ensures config != null ==> config.Settings() == old(config.Settings()).(3 := port) && config.Installed() == old(config.Installed())
  {
    if config == null {
      return NapiGenericFailure;
    }
    status := config.SetInspectorPort(port);
  }

  /** `jsr_config_set_inspector_break_on_start`. */
  method ConfigSetInspectorBreakOnStart(config: ConfigWrapper?, value: bool) returns (status: NapiStatus)
    modifies config
    ensures status == NapiGenericFailure <==> config == null
    ensures config != null ==> config.Settings() == old(config.Settings()).(4 := value) && config.Installed() == old(config.Installed())
  {
    if config == null {
      return NapiGenericFailure;
    }
    status := config.SetInspectorBreakOnStart(value);
  }

  /** `jsr_config_set_explicit_microtasks`. */
  method ConfigSetExplicitMicrotasks(config: ConfigWrapper?, value: bool) returns (status: NapiStatus)
    modifies config
    ensures status == NapiGenericFailure <==> config == null
    ensures config != null ==> config.Settings() == old(config.Settings()).(5 := value) && config.Installed() == old(config.Installed())
  {
    if config == null {
      return NapiGenericFailure;
    }
    status := config.SetExplicitMicrotasks(value);
  }

  /** `jsr_config_on_unhandled_error`. */
  method ConfigOnUnhandledError(config: ConfigWrapper?, callback: Handle) returns (status: NapiStatus)
    modifies config
    ensures status == NapiGenericFailure <==> config == null
    ensures config != null ==> config.Installed() == old(config.Installed()).(0 := Some(callback)) && config.Settings() == old(config.Settings())
  {
    if config == null {
      return NapiGenericFailure;
    }
    status := config.SetUnhandledErrorCallback(callback);
  }

  /** `jsr_config_set_task_runner`. */
  method ConfigSetTaskRunner(config: ConfigWrapper?, runner: Handle) returns (status: NapiStatus)
    modifies config
    ensures status == NapiGenericFailure <==> config == null
    ensures config != null ==> config.Installed() == old(config.Installed()).(1 := Some(runner)) && config.Settings() == old(config.Settings())
  {
    if config == null {
      return NapiGenericFailure;
    }
    status := config.SetTaskRunner(runner);
  }

  /** `jsr_config_set_script_cache`. */
  method ConfigSetScriptCache(config: ConfigWrapper?, cache: Handle) returns (status: NapiStatus)
    modifies config
    ensures status == NapiGenericFailure <==> config == null
    ensures config != null ==> config.Installed() == old(config.Installed()).(2 := Some(cache)) && config.Settings() == old(config.Settings())
  {
    if config == null {
      return NapiGenericFailure;
    }
    status := config.SetScriptCache(cache);
  }
}
