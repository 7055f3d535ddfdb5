/** `pf2_configuration` of the C extension (`ext/pf2/configuration.c`):
    reading the options hash given to the session, with defaults and
    range checks, and writing the configuration back as a Ruby hash. The
    depth defaults and limits are macros defined outside the files of this
    model, so they enter as `Limits`. */
module CConfiguration {
  import opened Wrappers
  import opened RubyValue

  datatype TimeMode = CpuTime | WallTime

  datatype Configuration = Configuration(
    intervalMs: int,
    timeMode: TimeMode,
    maxRubyDepth: int,
    maxNativeDepth: int)

  /** `PF2_DEFAULT_MAX_RUBY_DEPTH`, `PF2_MAX_RUBY_STACK_DEPTH` and their
      native counterparts. */
  datatype Limits = Limits(defaultMaxRubyDepth: int, maxRubyStackDepth: int,
                           defaultMaxNativeDepth: int, maxNativeStackDepth: int)

  /** `PF2_DEFAULT_INTERVAL_MS`. */
  const DefaultIntervalMs: int := 9

  /** `PF2_DEFAULT_TIME_MODE`. */
  const DefaultTimeMode: TimeMode := CpuTime

  /** The options argument: `nil` or a hash. */
  predicate OptionsReadable(options: RValue) {
    options.Nil? || options.Hash?
  }

  /** `rb_hash_aref(options, :name)`: a missing key reads as `nil`. */
  function Aref(options: RValue, name: string): (v: RValue)
    ensures Field(options, name).None? ==> v == Nil
    ensures Field(options, name).Some? ==> v == Field(options, name).value
  {
    Field(options, name).GetOr(Nil)
  }

  /** `extract_interval_ms`: default for a `nil` hash or key, otherwise the
      value through `NUM2INT`. */
  function ExtractIntervalMs(options: RValue): (r: Result<int, RubyError>)
    requires OptionsReadable(options)
    ensures options.Nil? || Aref(options, "interval_ms").Nil? ==> r == Success(DefaultIntervalMs)
    ensures !options.Nil? && !Aref(options, "interval_ms").Nil? ==> r == NumToInt(Aref(options, "interval_ms"), 32)
  {
    if options.Nil? then Success(DefaultIntervalMs)
    else
      var v := Aref(options, "interval_ms");
      if v.Nil? then Success(DefaultIntervalMs) else NumToInt(v, 32)
  }

  /** `extract_time_mode`: only the symbols `:cpu` and `:wall` are
      accepted (not strings); `nil` gives the default. */
  function ExtractTimeMode(options: RValue): (r: Result<TimeMode, RubyError>)
    requires OptionsReadable(options)
    ensures options.Nil? || Aref(options, "time_mode").Nil? ==> r == Success(DefaultTimeMode)
    ensures !options.Nil? && Aref(options, "time_mode") == Sym("cpu") ==> r == Success(CpuTime)
    ensures !options.Nil? && Aref(options, "time_mode") == Sym("wall") ==> r == Success(WallTime)
    ensures r.Failure? <==>
      !options.Nil? && Aref(options, "time_mode") !in {Nil, Sym("cpu"), Sym("wall")}
    ensures r.Failure? ==> r.error == ArgumentError("Invalid time mode: " + ToS(Aref(options, "time_mode")))
  {
    if options.Nil? then Success(DefaultTimeMode)
    else
      var v := Aref(options, "time_mode");
      if v.Nil? then Success(DefaultTimeMode)
      else if v == Sym("cpu") then Success(CpuTime)
      else if v == Sym("wall") then Success(WallTime)
      else Failure(ArgumentError("Invalid time mode: " + ToS(v)))
  }

  /** A depth option (`extract_max_ruby_depth`, `extract_max_native_depth`):
      default for `nil`, otherwise an `int` in `1..limit`. */
  function ExtractDepth(options: RValue, name: string, default: int, limit: int): (r: Result<int, RubyError>)
    requires OptionsReadable(options)
    ensures options.Nil? || Aref(options, name).Nil? ==> r == Success(default)
    ensures !options.Nil? && !Aref(options, name).Nil? ==>
      (r.Success? <==> NumToInt(Aref(options, name), 32).Success? && 1 <= Aref(options, name).i <= limit)
    ensures !options.Nil? && !Aref(options, name).Nil? && r.Success? ==> r.value == Aref(options, name).i
    ensures r.Failure? && NumToInt(Aref(options, name), 32).Success? ==>
      r.error == ArgumentError(if Aref(options, name).i <= 0 then name + " must be positive"
                               else name + " must be <= " + Decimal(limit))
  {
    if options.Nil? then Success(default)
    else
      var v := Aref(options, name);
      if v.Nil? then Success(default)
      else
        var depth :- NumToInt(v, 32);
        if depth <= 0 then Failure(ArgumentError(name + " must be positive"))
        else if depth > limit then Failure(ArgumentError(name + " must be <= " + Decimal(limit)))
        else Success(depth)
  }

  /** `%d`. */
  function Decimal(n: int): string {
    if n < 0 then "-" + Digits(-n) else Digits(n)
  }

  /** `pf2_configuration_new_from_options_hash`: the four options in
      order, the first failure raised. */
  function NewFromOptionsHash(options: RValue, limits: Limits): (r: Result<Configuration, RubyError>)
    requires OptionsReadable(options)
    ensures r.Success? <==>
      && ExtractIntervalMs(options).Success? && ExtractTimeMode(options).Success?
      && ExtractDepth(options, "max_depth", limits.defaultMaxRubyDepth, limits.maxRubyStackDepth).Success?
      && ExtractDepth(options, "max_native_depth", limits.defaultMaxNativeDepth, limits.maxNativeStackDepth).Success?
    ensures ExtractIntervalMs(options).Failure? ==> r == Failure(ExtractIntervalMs(options).error)
    ensures r.Success? ==>
      r.value == Configuration(ExtractIntervalMs(options).value, ExtractTimeMode(options).value,
                               ExtractDepth(options, "max_depth", limits.defaultMaxRubyDepth, limits.maxRubyStackDepth).value,
                               ExtractDepth(options, "max_native_depth", limits.defaultMaxNativeDepth, limits.maxNativeStackDepth).value)
  {
    var interval :- ExtractIntervalMs(options);
    var timeMode :- ExtractTimeMode(options);
    var maxRubyDepth :- ExtractDepth(options, "max_depth", limits.defaultMaxRubyDepth, limits.maxRubyStackDepth);
    var maxNativeDepth :- ExtractDepth(options, "max_native_depth", limits.defaultMaxNativeDepth, limits.maxNativeStackDepth);
    Success(Configuration(interval, timeMode, maxRubyDepth, maxNativeDepth))
  }

  /** Every accepted configuration has its depths inside the limits. */
  lemma AcceptedDepthsInRange(options: RValue, limits: Limits)
    requires OptionsReadable(options) && NewFromOptionsHash(options, limits).Success?
    requires 1 <= limits.defaultMaxRubyDepth <= limits.maxRubyStackDepth
    requires 1 <= limits.defaultMaxNativeDepth <= limits.maxNativeStackDepth
    ensures var c := NewFromOptionsHash(options, limits).value;
      && 1 <= c.maxRubyDepth <= limits.maxRubyStackDepth
      && 1 <= c.maxNativeDepth <= limits.maxNativeStackDepth
  {
  }

  /** The symbol `to_ruby_hash` writes for a time mode. */
  function TimeModeSymbol(m: TimeMode): RValue {
    match m
    case CpuTime => Sym("cpu")
    case WallTime => Sym("wall")
  }

  /** `pf2_configuration_to_ruby_hash`. */
  function ToRubyHash(c: Configuration): (h: RValue)
    ensures h.Hash? && |h.entries| == 4
  {
    Record(["interval_ms", "time_mode", "max_depth", "max_native_depth"],
           [Int(c.intervalMs), TimeModeSymbol(c.timeMode), Int(c.maxRubyDepth), Int(c.maxNativeDepth)])
  }

  /** Every configuration the reader accepts is one whose hash the reader
      turns back into it: writing and reading round-trip. */
  lemma {:induction false} HashRoundTrip(c: Configuration, limits: Limits)
    requires -Pow2(31) <= c.intervalMs < Pow2(31)
    requires 1 <= c.maxRubyDepth <= limits.maxRubyStackDepth && limits.maxRubyStackDepth < Pow2(31)
    requires 1 <= c.maxNativeDepth <= limits.maxNativeStackDepth && limits.maxNativeStackDepth < Pow2(31)
    ensures NewFromOptionsHash(ToRubyHash(c), limits) == Success(c)
  {
    var names := ["interval_ms", "time_mode", "max_depth", "max_native_depth"];
    var values := [Int(c.intervalMs), TimeModeSymbol(c.timeMode), Int(c.maxRubyDepth), Int(c.maxNativeDepth)];
    var h := Record(names, values);
    assert Field(h, names[0]) == Some(values[0]);
    assert Field(h, names[1]) == Some(values[1]);
    assert Field(h, names[2]) == Some(values[2]);
    assert Field(h, names[3]) == Some(values[3]);
    assert ToRubyHash(c) == h;
    ReadsFields(h, c, limits);
  }

  /** A hash whose four options hold a configuration's values reads back as
      that configuration. */
  lemma ReadsFields(h: RValue, c: Configuration, limits: Limits)
    requires h.Hash?
    requires -Pow2(31) <= c.intervalMs < Pow2(31)
    requires 1 <= c.maxRubyDepth <= limits.maxRubyStackDepth && limits.maxRubyStackDepth < Pow2(31)
    requires 1 <= c.maxNativeDepth <= limits.maxNativeStackDepth && limits.maxNativeStackDepth < Pow2(31)
    requires Field(h, "interval_ms") == Some(Int(c.intervalMs))
    requires Field(h, "time_mode") == Some(TimeModeSymbol(c.timeMode))
    requires Field(h, "max_depth") == Some(Int(c.maxRubyDepth))
    requires Field(h, "max_native_depth") == Some(Int(c.maxNativeDepth))
    ensures NewFromOptionsHash(h, limits) == Success(c)
  {
    ReadsIntervalMs(h, c.intervalMs);
    ReadsTimeMode(h, c.timeMode);
    ReadsDepth(h, "max_depth", limits.defaultMaxRubyDepth, limits.maxRubyStackDepth, c.maxRubyDepth);
    ReadsDepth(h, "max_native_depth", limits.defaultMaxNativeDepth, limits.maxNativeStackDepth, c.maxNativeDepth);
  }

  /** The interval read from a hash holding a 32-bit integer. */
  lemma ReadsIntervalMs(h: RValue, ms: int)
    requires h.Hash? && Field(h, "interval_ms") == Some(Int(ms)) && -Pow2(31) <= ms < Pow2(31)
    ensures ExtractIntervalMs(h) == Success(ms)
  {
    assert Aref(h, "interval_ms") == Int(ms);
  }

  /** The time mode read from a hash holding its symbol. */
  lemma ReadsTimeMode(h: RValue, m: TimeMode)
    requires h.Hash? && Field(h, "time_mode") == Some(TimeModeSymbol(m))
    ensures ExtractTimeMode(h) == Success(m)
  {
    assert Aref(h, "time_mode") == TimeModeSymbol(m);
  }

  /** A depth read from a hash holding an in-range integer. */
  lemma ReadsDepth(h: RValue, name: string, default: int, limit: int, depth: int)
    requires h.Hash? && Field(h, name) == Some(Int(depth)) && 1 <= depth <= limit < Pow2(31)
    ensures ExtractDepth(h, name, default, limit) == Success(depth)
  {
    assert Aref(h, name) == Int(depth);
  }
}
