/** `Session` of the Rust extension (`ext/pf2/src/session.rs`): parsing the
    keyword arguments of `Pf2::Session.new` into a validated
    `Configuration`, the thread watcher created for `threads: :all`, and
    the `running` flag that gates it. Keyword values are `None` when the
    keyword is absent (`Qundef`). The scheduler objects are left out. */
module RustSession {
  import opened Wrappers
  import opened RubyValue
  import opened RustConfiguration
  import NewThreadWatcher
  import RustProfile

  /** The five keywords `rb_get_kwargs` reads, in its order. */
  datatype Kwargs = Kwargs(
    intervalMs: Option<RValue>,
    threads: Option<RValue>,
    timeMode: Option<RValue>,
    scheduler: Option<RValue>,
    useExperimentalSerializer: Option<RValue>)

  datatype Session = Session(
    configuration: Configuration,
    useExperimentalSerializer: bool,
    profile: RustProfile.Profile,
    running: bool,
    newThreadWatcher: Option<NewThreadWatcher.Watcher>)

  /** `parse_option_interval_ms`: absent gives the default; otherwise the
      value goes through `rb_num2long`, and a negative interval falls back
      to 9 ms (with a warning). */
  function ParseIntervalMs(value: Option<RValue>): (r: Result<nat, RubyError>)
    ensures value.None? ==> r == Success(DefaultIntervalMs)
    ensures value.Some? ==> (r.Success? <==> NumToInt(value.value, 64).Success?)
    ensures r.Success? && value.Some? ==>
      r.value == (if value.value.i < 0 then 9 else value.value.i)
  {
    match value
    case None => Success(DefaultIntervalMs)
    case Some(v) =>
      var ms :- NumToInt(v, 64);
      Success(if ms < 0 then 9 else ms)
  }

  /** What `parse_option_threads` can read: nothing, `nil`, `:all`, or an
      array (`RARRAY_LEN` is applied to anything else). */
  predicate ThreadsOptionReadable(value: Option<RValue>) {
    value.None? || value.value.Nil? || value.value == Sym("all") || value.value.Array?
  }

  /** `parse_option_threads`: absent or `nil` means "use the default",
      `:all` means all threads, and an array means the set of its
      elements. */
  function ParseThreads(value: Option<RValue>): (r: Option<Threads>)
    requires ThreadsOptionReadable(value)
    ensures r.None? <==> value.None? || value.value.Nil?
    ensures r == Some(All) <==> value == Some(Sym("all"))
    ensures r.Some? && r.value.Targeted? ==>
      value.value.Array? && forall x :: x in r.value.threads <==> x in value.value.items
  {
    match value
    case None => None
    case Some(v) =>
      if v.Nil? then None
      else if v == Sym("all") then Some(All)
      else Some(Targeted(set i | 0 <= i < |v.items| :: v.items[i]))
  }

  /** `parse_option_time_mode`: absent gives the platform default; any
      other value is converted with `to_s` and must name a mode. */
  function ParseTimeMode(value: Option<RValue>, linux: bool): (r: Result<TimeMode, RubyError>)
    ensures value.None? ==> r == Success(DefaultTimeMode(linux))
    ensures value.Some? ==> (r.Success? <==> TimeModeFromStr(ToS(value.value)).Some?)
    ensures value.Some? && r.Success? ==> TimeModeName(r.value) == ToS(value.value)
    ensures r.Failure? ==> r.error == ArgumentError("Invalid time mode. Valid values are 'cpu' and 'wall'.")
  {
    match value
    case None => Success(DefaultTimeMode(linux))
    case Some(v) =>
      match TimeModeFromStr(ToS(v))
      case Some(m) => Success(m)
      case None => Failure(ArgumentError("Invalid time mode. Valid values are 'cpu' and 'wall'."))
  }

  /** `parse_option_scheduler`: absent gives the platform default; any
      other value must name a scheduler, and the signal scheduler is
      refused off Linux. */
  function ParseScheduler(value: Option<RValue>, linux: bool): (r: Result<Scheduler, RubyError>)
    ensures value.None? ==> r == Success(DefaultScheduler(linux))
    ensures value.Some? ==>
      (r.Success? <==> match SchedulerFromStr(ToS(value.value))
                       case None => false
                       case Some(s) => linux || s == TimerThread)
    ensures value.Some? && r.Success? ==> SchedulerName(r.value) == ToS(value.value)
    ensures r.Success? && !linux ==> r.value == TimerThread
  {
    match value
    case None => Success(DefaultScheduler(linux))
    case Some(v) =>
      match SchedulerFromStr(ToS(v))
      case None => Failure(ArgumentError("Invalid scheduler. Valid values are ':signal' and ':timer_thread'."))
      case Some(s) =>
        if !linux && s == Signal then Failure(ArgumentError("Signal scheduler is not supported on this platform."))
        else Success(s)
  }

  /** `parse_option_use_experimental_serializer`: off unless given a
      truthy value. */
  function ParseUseExperimentalSerializer(value: Option<RValue>): (b: bool)
    ensures b <==> value.Some? && Truthy(value.value)
  {
    value.Some? && Truthy(value.value)
  }

  /** The threads to sample when the option is left out: all of them for
      the signal scheduler (the only one supporting `:all`), none for the
      timer thread. */
  function DefaultThreads(scheduler: Scheduler): (t: Threads)
    ensures t == All <==> scheduler == Signal
  {
    match scheduler
    case Signal => All
    case TimerThread => Targeted({})
  }

  /** The configuration the keyword arguments describe, before
      validation: options are parsed in the source's order (interval, time
      mode, scheduler, threads) and the first failure is raised. */
  function Parse(kwargs: Kwargs, linux: bool): (r: Result<Configuration, RubyError>)
    requires ThreadsOptionReadable(kwargs.threads)
    ensures ParseIntervalMs(kwargs.intervalMs).Failure? ==> r == Failure(ParseIntervalMs(kwargs.intervalMs).error)
    ensures ParseIntervalMs(kwargs.intervalMs).Success? && ParseTimeMode(kwargs.timeMode, linux).Failure? ==>
      r == Failure(ParseTimeMode(kwargs.timeMode, linux).error)
    ensures r.Success? <==>
      ParseIntervalMs(kwargs.intervalMs).Success? && ParseTimeMode(kwargs.timeMode, linux).Success?
      && ParseScheduler(kwargs.scheduler, linux).Success?
    ensures r.Success? ==>
      && r.value.intervalMs == ParseIntervalMs(kwargs.intervalMs).value
      && r.value.timeMode == ParseTimeMode(kwargs.timeMode, linux).value
      && r.value.scheduler == ParseScheduler(kwargs.scheduler, linux).value
      && r.value.targetRubyThreads == ParseThreads(kwargs.threads).GetOr(DefaultThreads(r.value.scheduler))
  {
    var interval :- ParseIntervalMs(kwargs.intervalMs);
    var timeMode :- ParseTimeMode(kwargs.timeMode, linux);
    var scheduler :- ParseScheduler(kwargs.scheduler, linux);
    var threads := ParseThreads(kwargs.threads).GetOr(DefaultThreads(scheduler));
    Success(Configuration(scheduler, interval, timeMode, threads))
  }

  /** `new_from_rb_initialize`, up to the scheduler object: the parsed
      configuration is validated before anything is built, and a rejected
      one raises `ArgumentError` with the validation message. A watcher
      exists exactly for `threads: :all`; the session starts stopped with
      a fresh profile. */
  function New(kwargs: Kwargs, linux: bool, now: int): (r: Result<Session, RubyError>)
    requires ThreadsOptionReadable(kwargs.threads)
    ensures Parse(kwargs, linux).Failure? ==> r == Failure(Parse(kwargs, linux).error)
    ensures Parse(kwargs, linux).Success? ==>
      && (r.Success? <==> Validate(Parse(kwargs, linux).value).Success?)
      && (r.Failure? ==> r.error == ArgumentError(Validate(Parse(kwargs, linux).value).error))
    ensures r.Success? ==>
      && r.value.configuration == Parse(kwargs, linux).value
      && Validate(r.value.configuration).Success?
      && (r.value.newThreadWatcher.Some? <==> r.value.configuration.targetRubyThreads == All)
      && (r.value.newThreadWatcher.Some? ==> r.value.newThreadWatcher.value.knownThreads == {})
      && !r.value.running
      && r.value.profile == RustProfile.New(now)
      && (r.value.useExperimentalSerializer <==> ParseUseExperimentalSerializer(kwargs.useExperimentalSerializer))
  {
    var configuration :- Parse(kwargs, linux);
    match Validate(configuration)
    case Failure(msg) => Failure(ArgumentError(msg))
    case Success(_) =>
      var watcher := if configuration.targetRubyThreads == All then Some(NewThreadWatcher.Watch()) else None;
      Success(Session(configuration, ParseUseExperimentalSerializer(kwargs.useExperimentalSerializer),
                      RustProfile.New(now), false, watcher))
  }

  /** Leaving out `threads` never fails validation on the thread
      condition: the signal scheduler gets all threads (and a watcher), the
      timer thread an empty target set, which it accepts with wall time. */
  lemma DefaultThreadsValidate(kwargs: Kwargs, linux: bool, now: int)
    requires kwargs.threads.None? && Parse(kwargs, linux).Success?
    ensures var c := Parse(kwargs, linux).value;
      && (c.scheduler == Signal ==> New(kwargs, linux, now).Success? && New(kwargs, linux, now).value.newThreadWatcher.Some?)
      && (c.scheduler == TimerThread ==> (New(kwargs, linux, now).Success? <==> c.timeMode == WallTime))
  {
  }

  /** `start`: the session runs. */
  function Start(s: Session): (r: Session)
    ensures r.running && r == s.(running := true)
  {
    s.(running := true)
  }

  /** `stop`: the session no longer runs. */
  function Stop(s: Session): (r: Session)
    ensures !r.running && r == s.(running := false)
  {
    s.(running := false)
  }

  /** A Ruby thread resumes: the watcher, if any, records it, and its
      callback hands it on to the scheduler only while the session runs. */
  function OnThreadResume(s: Session, thread: int): (r: (Session, Option<int>))
    ensures r.1.Some? <==> s.newThreadWatcher.Some? && thread !in s.newThreadWatcher.value.knownThreads && s.running
    ensures r.1.Some? ==> r.1.value == thread
    ensures r.0.running == s.running && r.0.configuration == s.configuration
  {
    match s.newThreadWatcher
    case None => (s, None)
    case Some(w) =>
      var (w', fired) := NewThreadWatcher.OnThreadResume(w, thread);
      (s.(newThreadWatcher := Some(w')), if s.running then fired else None)
  }

  /** A thread that resumes while the session is stopped is still recorded
      as known, so it is never handed on later. */
  lemma {:induction false} ResumedWhileStoppedIsNeverForwarded(s: Session, thread: int)
    requires !s.running && s.newThreadWatcher.Some?
    ensures var s1 := OnThreadResume(s, thread).0;
      OnThreadResume(Start(s1), thread).1.None?
  {
    var s1 := OnThreadResume(s, thread).0;
    assert thread in s1.newThreadWatcher.value.knownThreads;
  }
}
