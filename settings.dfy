/**
  Prioritized settings of azure-core (azure/core/settings.py): the two value
  converters, a setting that resolves its value from an immediate value, a
  user-set value, an environment variable, a system hook or a default, and the
  snapshots of all settings (`defaults`, `current`, `config`).
 */
module CoreSettings {
  import opened Wrappers
  import opened Text

  /**
    The Python values a setting handles. `NoneValue` is `None`; `Unset` is the
    `_Unset` sentinel settings.py uses for "no user value" and "no default".
   */
  datatype Value = NoneValue | Bool(b: bool) | Int(i: int) | Str(s: string) | Unset

  // ---------------------------------------------------------------------------
  // Converters.
  // ---------------------------------------------------------------------------

  const TrueWords: set<string> := {"yes", "1", "on", "true"}
  const FalseWords: set<string> := {"no", "0", "off", "false"}

  /** Python's `value in (True, False)`: a boolean, or one of the integers equal to one. */
  predicate IsBoolLike(v: Value)
  {
    v.Bool? || v == Int(0) || v == Int(1)
  }

  /**
    `convert_bool`: booleans (and 0 and 1) as they are, the listed words in any
    case, and an error for anything else, including values without `lower()`.
   */
  function ConvertBool(v: Value): (r: Result<Value, string>)
    ensures IsBoolLike(v) ==> r == Success(v)
    ensures v.Str? ==>
      && (r == Success(Bool(true)) <==> Lower(v.s) in TrueWords)
      && (r == Success(Bool(false)) <==> Lower(v.s) in FalseWords)
      && (r.Failure? <==> Lower(v.s) !in TrueWords + FalseWords)
    ensures !IsBoolLike(v) && !v.Str? ==> r.Failure?
  {
    if IsBoolLike(v) then Success(v)
    else if !v.Str? then Failure("value has no lower()")
    else
      var val := Lower(v.s);
      if val in TrueWords then Success(Bool(true))
      else if val in FalseWords then Success(Bool(false))
      else Failure("Cannot convert value to boolean value")
  }

  /** The `_levels` table: name to `logging` level. */
  const Levels: map<string, int> := map["CRITICAL" := 50, "ERROR" := 40, "WARNING" := 30, "INFO" := 20, "DEBUG" := 10]

  /** `value in set(_levels.values())`. */
  predicate IsLevel(v: Value)
  {
    v.Int? && v.i in Levels.Values
  }

  /**
    `convert_logging`: a level number as it is, a level name in any case, and
    an error for anything else.
   */
  function ConvertLogging(v: Value): (r: Result<Value, string>)
    ensures IsLevel(v) ==> r == Success(v)
    ensures v.Str? ==>
      && (r.Success? <==> Upper(v.s) in Levels)
      && (r.Success? ==> r == Success(Int(Levels[Upper(v.s)])))
    ensures !IsLevel(v) && !v.Str? ==> r.Failure?
  {
    if IsLevel(v) then Success(v)
    else if !v.Str? then Failure("value has no upper()")
    else
      var val := Upper(v.s);
      if val in Levels && Levels[val] != 0 then Success(Int(Levels[val]))
      else Failure("Cannot convert value to log level")
  }

  /** The `convert` a setting was given; without one the identity is used. */
  datatype Converter = Identity | ToBool | ToLogging

  function Convert(c: Converter, v: Value): Result<Value, string>
  {
    match c
    case Identity => Success(v)
    case ToBool => ConvertBool(v)
    case ToLogging => ConvertLogging(v)
  }

  /** Converting a converted value again changes nothing: every converter is idempotent. */
  lemma ConvertIdempotent(c: Converter, v: Value)
    requires Convert(c, v).Success?
    ensures Convert(c, Convert(c, v).value) == Convert(c, v)
  {
    match c
    case Identity =>
    case ToBool =>
    case ToLogging =>
      var r := Convert(c, v).value;
      assert r.Int? && r.i in Levels.Values by {
        if v.Str? {
          assert Levels[Upper(v.s)] in Levels.Values;
        }
      }
  }

  /** The string converters ignore case. */
  lemma ConvertIgnoresCase(s: string)
    ensures ConvertBool(Str(s)) == ConvertBool(Str(Lower(s)))
    ensures ConvertLogging(Str(s)) == ConvertLogging(Str(Upper(s)))
  {
    LowerIdempotent(s);
    UpperIdempotent(s);
  }

  /** Every level name converts to its number, in any case. */
  lemma LevelNames(s: string)
    requires Upper(s) in Levels
    ensures ConvertLogging(Str(s)) == Success(Int(Levels[Upper(s)]))
  {
  }

  // ---------------------------------------------------------------------------
  // One prioritized setting.
  // ---------------------------------------------------------------------------

  /** What a `PrioritizedSetting` holds, as a value. */
  datatype SettingState = SettingState(name: string, envVar: Option<string>, defaultValue: Value, convert: Converter, userValue: Value)

  /**
    The value `__call__` passes to `convert`, or `None` where it raises: a
    non-None immediate value; else the user value; else the environment
    variable, when it is named and present even with an empty value; else
    whatever the system hook returns, when there is one; else the default.
    `hook` is `None` for a setting without a system hook.
   */
  function Raw(st: SettingState, immediate: Value, env: map<string, string>, hook: Option<Value>): Option<Value>
  {
    if immediate != NoneValue then Some(immediate)
    else if st.userValue != Unset then Some(st.userValue)
    else if st.envVar.Some? && st.envVar.value != "" && st.envVar.value in env then Some(Str(env[st.envVar.value]))
    else if hook.Some? then Some(hook.value)
    else if st.defaultValue != Unset then Some(st.defaultValue)
    else None
  }

  /** `__call__`: the converted value, or the `RuntimeError` when no source has one. */
  function Resolve(st: SettingState, immediate: Value, env: map<string, string>, hook: Option<Value>): Result<Value, string>
  {
    match Raw(st, immediate, env, hook)
    case None => Failure("No configured value found for setting " + st.name)
    case Some(v) => Convert(st.convert, v)
  }

  /** The first candidate that is present. */
  function FirstPresent(candidates: seq<Option<Value>>): Option<Value>
  {
    if |candidates| == 0 then None
    else if candidates[0].Some? then candidates[0]
    else FirstPresent(candidates[1..])
  }

  /** The five sources in precedence order, each `None` where it has nothing to offer. */
  function Sources(st: SettingState, immediate: Value, env: map<string, string>, hook: Option<Value>): seq<Option<Value>>
  {
    [ if immediate != NoneValue then Some(immediate) else None,
      if st.userValue != Unset then Some(st.userValue) else None,
      if st.envVar.Some? && st.envVar.value != "" && st.envVar.value in env then Some(Str(env[st.envVar.value])) else None,
      hook,
      if st.defaultValue != Unset then Some(st.defaultValue) else None ]
  }

  /** `__call__` takes the first source, in precedence order, that has a value. */
  lemma RawIsFirstPresent(st: SettingState, immediate: Value, env: map<string, string>, hook: Option<Value>)
    ensures Raw(st, immediate, env, hook) == FirstPresent(Sources(st, immediate, env, hook))
  {
    var c0 := Sources(st, immediate, env, hook);
    var c1 := c0[1..];
    var c2 := c1[1..];
    var c3 := c2[1..];
    var c4 := c3[1..];
    assert FirstPresent(c4[1..]) == None;
    assert FirstPresent(c4) == c4[0];
    assert FirstPresent(c3) == if c3[0].Some? then c3[0] else FirstPresent(c4);
    assert FirstPresent(c2) == if c2[0].Some? then c2[0] else FirstPresent(c3);
    assert FirstPresent(c1) == if c1[0].Some? then c1[0] else FirstPresent(c2);
  }

  /** A user value wins over the environment, the hook and the default, whatever they hold. */
  lemma UserValueWins(st: SettingState, v: Value, env: map<string, string>, hook: Option<Value>)
    requires v != Unset
    ensures Resolve(st.(userValue := v), NoneValue, env, hook) == Convert(st.convert, v)
  {
  }

  /** A system hook ends the search, even when it returns `None` and a default exists. */
  lemma HookStopsSearch(st: SettingState, env: map<string, string>, h: Value)
    requires st.userValue == Unset
    requires !(st.envVar.Some? && st.envVar.value != "" && st.envVar.value in env)
    ensures Resolve(st, NoneValue, env, Some(h)) == Convert(st.convert, h)
  {
  }

  /** An environment variable that is present wins over the hook and the default, even when empty. */
  lemma EnvironmentWins(st: SettingState, env: map<string, string>, hook: Option<Value>)
    requires st.userValue == Unset && st.envVar.Some? && st.envVar.value != "" && st.envVar.value in env
    ensures Resolve(st, NoneValue, env, hook) == Convert(st.convert, Str(env[st.envVar.value]))
  {
  }

  /** Without any source the setting raises. */
  lemma NoSourceFails(st: SettingState, env: map<string, string>)
    requires st.userValue == Unset && st.defaultValue == Unset
    requires !(st.envVar.Some? && st.envVar.value != "" && st.envVar.value in env)
    ensures Resolve(st, NoneValue, env, None).Failure?
  {
  }

  /** `PrioritizedSetting`: fixed name, environment variable, default and converter; a mutable user value. */
  class PrioritizedSetting {
    const name: string
    const envVar: Option<string>
    const defaultValue: Value
    const convert: Converter
    var userValue: Value

    constructor (name: string, envVar: Option<string>, defaultValue: Value, convert: Converter)
      ensures State() == SettingState(name, envVar, defaultValue, convert, Unset)
    {
      this.name := name;
      this.envVar := envVar;
      this.defaultValue := defaultValue;
      this.convert := convert;
      this.userValue := Unset;
    }

    function State(): SettingState
      reads this
    {
      SettingState(name, envVar, defaultValue, convert, userValue)
    }

    /** `__call__(value)`, with the environment and the hook's result passed in. */
    function Call(immediate: Value, env: map<string, string>, hook: Option<Value>): (r: Result<Value, string>)
      reads this
      ensures r == Resolve(State(), immediate, env, hook)
      ensures immediate != NoneValue ==> r == Convert(convert, immediate)
    {
      Resolve(State(), immediate, env, hook)
    }

    /** `set_value`: only the user value changes. */
    method SetValue(v: Value)
      modifies this
      ensures State() == old(State()).(userValue := v)
    {
      userValue := v;
    }

    /** `unset_value`: the user value returns to the sentinel. */
    method UnsetValue()
      modifies this
      ensures State() == old(State()).(userValue := Unset)
    {
      userValue := Unset;
    }
  }

  /**
    `set_value(v)` followed by `unset_value()` leaves a setting that answers
    every call as a freshly constructed one with the same definition does.
   */
  method UnsetForgets(p: PrioritizedSetting, v: Value, immediate: Value, env: map<string, string>, hook: Option<Value>)
    returns (q: PrioritizedSetting)
    modifies p
    ensures fresh(q) && q.State() == SettingState(p.name, p.envVar, p.defaultValue, p.convert, Unset)
    ensures p.Call(immediate, env, hook) == q.Call(immediate, env, hook)
  {
    p.SetValue(v);
    p.UnsetValue();
    q := new PrioritizedSetting(p.name, p.envVar, p.defaultValue, p.convert);
  }

  // ---------------------------------------------------------------------------
  // All settings.
  // ---------------------------------------------------------------------------

  /** `log_level`: AZURE_LOG_LEVEL, converted to a level, `logging.INFO` by default. */
  const LogLevel := SettingState("log_level", Some("AZURE_LOG_LEVEL"), Int(20), ToLogging, Unset)

  /** `tracing_enabled`: AZURE_TRACING_ENABLED, converted to a boolean, off by default. */
  const TracingEnabled := SettingState("tracing_enbled", Some("AZURE_TRACING_ENABLED"), Bool(false), ToBool, Unset)

  /** `defaults`: each setting's raw default, not passed through its converter. */
  function DefaultsOf(logLevel: SettingState, tracingEnabled: SettingState): (r: map<string, Value>)
    ensures r.Keys == {"log_level", "tracing_enabled"}
    ensures r["log_level"] == logLevel.defaultValue && r["tracing_enabled"] == tracingEnabled.defaultValue
  {
    map["log_level" := logLevel.defaultValue, "tracing_enabled" := tracingEnabled.defaultValue]
  }

  /**
    `config(**kw)`: every setting is resolved first, in declaration order, so
    one that raises makes the whole call raise even when `kw` overrides it;
    then `kw` replaces or adds entries as given.
   */
  function ConfigOf(logLevel: SettingState, tracingEnabled: SettingState, kw: map<string, Value>, env: map<string, string>): (r: Result<map<string, Value>, string>)
    ensures r.Failure? <==> Resolve(logLevel, NoneValue, env, None).Failure? || Resolve(tracingEnabled, NoneValue, env, None).Failure?
    ensures r.Success? ==> r.value.Keys == {"log_level", "tracing_enabled"} + kw.Keys
    ensures r.Success? ==> forall k :: k in kw ==> r.value[k] == kw[k]
    ensures r.Success? && "log_level" !in kw ==> r.value["log_level"] == Resolve(logLevel, NoneValue, env, None).value
    ensures r.Success? && "tracing_enabled" !in kw ==> r.value["tracing_enabled"] == Resolve(tracingEnabled, NoneValue, env, None).value
  {
    match Resolve(logLevel, NoneValue, env, None)
    case Failure(e) => Failure(e)
    case Success(level) =>
      match Resolve(tracingEnabled, NoneValue, env, None)
      case Failure(e) => Failure(e)
      case Success(tracing) =>
        var props := map["log_level" := level, "tracing_enabled" := tracing];
        Success(props + kw)
  }

  /** `Settings`: the two settings and the `defaults_only` switch. */
  class Settings {
    var defaultsOnly: bool
    const logLevel: PrioritizedSetting
    const tracingEnabled: PrioritizedSetting

    constructor ()
      ensures !defaultsOnly
      ensures fresh(logLevel) && fresh(tracingEnabled) && logLevel != tracingEnabled
      ensures logLevel.State() == LogLevel && tracingEnabled.State() == TracingEnabled
    {
      defaultsOnly := false;
      logLevel := new PrioritizedSetting("log_level", Some("AZURE_LOG_LEVEL"), Int(20), ToLogging);
      tracingEnabled := new PrioritizedSetting("tracing_enbled", Some("AZURE_TRACING_ENABLED"), Bool(false), ToBool);
    }

    function Defaults(): map<string, Value>
      reads this, logLevel, tracingEnabled
    {
      DefaultsOf(logLevel.State(), tracingEnabled.State())
    }

    function Config(kw: map<string, Value>, env: map<string, string>): Result<map<string, Value>, string>
      reads this, logLevel, tracingEnabled
    {
      ConfigOf(logLevel.State(), tracingEnabled.State(), kw, env)
    }

    /** `current`: the defaults when `defaults_only` is set, `config()` otherwise. */
    function Current(env: map<string, string>): (r: Result<map<string, Value>, string>)
      reads this, logLevel, tracingEnabled
      ensures defaultsOnly ==> r == Success(Defaults())
      ensures !defaultsOnly ==> r == Config(map[], env)
    {
      if defaultsOnly then Success(Defaults()) else Config(map[], env)
    }

    /** The `defaults_only` setter. */
    method SetDefaultsOnly(value: bool)
      modifies this
      ensures defaultsOnly == value
    {
      defaultsOnly := value;
    }
  }

  /** With nothing set, `current` gives INFO and tracing off when the environment is empty. */
  lemma FreshSettings()
    ensures ConfigOf(LogLevel, TracingEnabled, map[], map[]) == Success(map["log_level" := Int(20), "tracing_enabled" := Bool(false)])
  {
    assert IsLevel(Int(20)) by {
      assert Levels["INFO"] == 20;
    }
    assert map["log_level" := Int(20), "tracing_enabled" := Bool(false)] + map[] == map["log_level" := Int(20), "tracing_enabled" := Bool(false)];
  }

  /** An unconvertible AZURE_LOG_LEVEL makes `config` raise even when the call overrides the level. */
  lemma BadEnvironmentRaises(kw: map<string, Value>)
    ensures ConfigOf(LogLevel, TracingEnabled, kw, map["AZURE_LOG_LEVEL" := "loud"]).Failure?
  {
    var env := map["AZURE_LOG_LEVEL" := "loud"];
    assert Raw(LogLevel, NoneValue, env, None) == Some(Str("loud"));
    assert Upper("loud") == "LOUD";
  }
}
