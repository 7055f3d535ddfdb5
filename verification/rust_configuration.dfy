/** The Rust extension's `Configuration` (`ext/pf2/src/session/configuration.rs`):
    scheduler and time-mode names, validation of their combinations and the
    Ruby hash exposed as `@configuration`. The build target enters as a
    `linux` flag. */
module RustConfiguration {
  import opened Wrappers
  import opened RubyValue

  datatype Scheduler = Signal | TimerThread

  datatype TimeMode = CpuTime | WallTime

  /** Which Ruby threads to sample: all of them, or a fixed set. */
  datatype Threads = All | Targeted(threads: set<RValue>)

  datatype Configuration = Configuration(
    scheduler: Scheduler,
    intervalMs: nat,
    timeMode: TimeMode,
    targetRubyThreads: Threads)

  /** `DEFAULT_INTERVAL`, in milliseconds. */
  const DefaultIntervalMs: nat := 9

  /** `DEFAULT_SCHEDULER`: signals on Linux, a timer thread elsewhere. */
  function DefaultScheduler(linux: bool): (s: Scheduler)
    ensures s == Signal <==> linux
  {
    if linux then Signal else TimerThread
  }

  /** `DEFAULT_TIME_MODE`: CPU time on Linux, wall time elsewhere. */
  function DefaultTimeMode(linux: bool): (m: TimeMode)
    ensures m == CpuTime <==> linux
  {
    if linux then CpuTime else WallTime
  }

  /** `Scheduler::from_str`: exactly two names are accepted. */
  function SchedulerFromStr(s: string): (r: Option<Scheduler>)
    ensures r == Some(Signal) <==> s == "signal"
    ensures r == Some(TimerThread) <==> s == "timer_thread"
    ensures r.None? <==> s != "signal" && s != "timer_thread"
  {
    if s == "signal" then Some(Signal)
    else if s == "timer_thread" then Some(TimerThread)
    else None
  }

  /** `TimeMode::from_str`: exactly two names are accepted. */
  function TimeModeFromStr(s: string): (r: Option<TimeMode>)
    ensures r == Some(CpuTime) <==> s == "cpu"
    ensures r == Some(WallTime) <==> s == "wall"
    ensures r.None? <==> s != "cpu" && s != "wall"
  {
    if s == "cpu" then Some(CpuTime)
    else if s == "wall" then Some(WallTime)
    else None
  }

  /** The symbol name `to_rb_hash` gives a scheduler. */
  function SchedulerName(s: Scheduler): string {
    match s
    case Signal => "signal"
    case TimerThread => "timer_thread"
  }

  /** The symbol name `to_rb_hash` gives a time mode. */
  function TimeModeName(m: TimeMode): string {
    match m
    case CpuTime => "cpu"
    case WallTime => "wall"
  }

  /** The names written out are the names parsed, and parsing accepts no
      other spelling of a value. */
  lemma NamesRoundTrip(s: Scheduler, m: TimeMode, text: string)
    ensures SchedulerFromStr(SchedulerName(s)) == Some(s)
    ensures TimeModeFromStr(TimeModeName(m)) == Some(m)
    ensures SchedulerFromStr(text) == Some(s) ==> text == SchedulerName(s)
    ensures TimeModeFromStr(text) == Some(m) ==> text == TimeModeName(m)
  {
  }

  /** `Configuration::validate`: the timer-thread scheduler supports
      neither CPU time nor `threads: :all`; the CPU-time complaint comes
      first. Every other combination is accepted. */
  function Validate(c: Configuration): (r: Result<(), string>)
    ensures r.Failure? <==> c.scheduler == TimerThread && (c.timeMode == CpuTime || c.targetRubyThreads == All)
    ensures r.Failure? && c.timeMode == CpuTime ==>
      r.error == "TimerThread scheduler does not support `time_mode: :cpu`."
    ensures r.Failure? && c.timeMode != CpuTime ==>
      r.error == "TimerThread scheduler does not support `threads: :all` at the moment. "
                 + "Consider using `threads: Thread.list` for watching all threads at profiler start."
  {
    if c.scheduler == TimerThread && c.timeMode == CpuTime then
      Failure("TimerThread scheduler does not support `time_mode: :cpu`.")
    else if c.scheduler == TimerThread && c.targetRubyThreads == All then
      Failure("TimerThread scheduler does not support `threads: :all` at the moment. "
              + "Consider using `threads: Thread.list` for watching all threads at profiler start.")
    else Success(())
  }

  /** The panic of `try_into().unwrap()` when the interval does not fit the
      signed 64-bit integer `rb_int2inum` takes. */
  datatype Panic = IntervalOutOfRange

  /** `to_rb_hash`: `{scheduler:, interval_ms:, time_mode:}`. */
  function ToRbHash(c: Configuration): (r: Result<RValue, Panic>)
    ensures r.Failure? <==> c.intervalMs >= Pow2(63)
    ensures r.Success? ==> r.value.Hash? && |r.value.entries| == 3
  {
    if c.intervalMs >= Pow2(63) then Failure(IntervalOutOfRange)
    else
      var names := ["scheduler", "interval_ms", "time_mode"];
      Success(Record(names, [Sym(SchedulerName(c.scheduler)), Int(c.intervalMs), Sym(TimeModeName(c.timeMode))]))
  }

  /** Reading the hash back recovers the scheduler, the interval and the
      time mode it was built from. */
  lemma {:induction false} RbHashReadsBack(c: Configuration)
    requires c.intervalMs < Pow2(63)
    ensures var h := ToRbHash(c).value;
      && (exists n :: Field(h, "scheduler") == Some(Sym(n)) && SchedulerFromStr(n) == Some(c.scheduler))
      && Field(h, "interval_ms") == Some(Int(c.intervalMs))
      && (exists n :: Field(h, "time_mode") == Some(Sym(n)) && TimeModeFromStr(n) == Some(c.timeMode))
  {
    var names := ["scheduler", "interval_ms", "time_mode"];
    var values := [Sym(SchedulerName(c.scheduler)), Int(c.intervalMs), Sym(TimeModeName(c.timeMode))];
    var h := Record(names, values);
    assert ToRbHash(c).value == h;
    assert Field(h, names[0]) == Some(values[0]);
    assert Field(h, names[1]) == Some(values[1]);
    assert Field(h, names[2]) == Some(values[2]);
    NamesRoundTrip(c.scheduler, c.timeMode, "");
  }
}
