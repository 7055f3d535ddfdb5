/** `TimerInstaller` (`ext/pf2/src/signal_scheduler/timer_installer.rs`):
    thread hooks that give each target Ruby thread one POSIX CPU-time timer,
    created on the thread's pthread the first time it resumes. The pthread
    id and kernel thread id of the resuming thread are inputs; creating a
    timer is modelled by returning a description of it. */
module TimerInstaller {
  import opened Wrappers

  /** The signal scheduler's own `TimeMode`
      (`ext/pf2/src/signal_scheduler/configuration.rs`), a separate type
      from the session's with the same two modes. */
  datatype TimeMode = CpuTime | WallTime

  /** The timer period, fixed at 10 ms whatever the configured interval. */
  const TimerPeriodNs: nat := 10000000

  /** A timer on the thread CPU-time clock of `pthreadId`, delivering
      SIGALRM to `kernelThreadId` with `rubyThread` as handler argument. */
  datatype Timer = Timer(pthreadId: int, kernelThreadId: int, rubyThread: int, periodNs: nat)

  datatype Installer = Installer(
    timeMode: TimeMode,
    targetRubyThreads: set<int>,
    registeredPthreadIds: set<int>,
    kernelThreadIdToRubyThread: map<int, int>,
    trackNewThreads: bool)

  /** `todo!` for wall time. */
  datatype Panic = WallTimeNotSupported

  /** `install_timer_to_ruby_threads`: the given targets, nothing
      registered yet. Whether the start hook is installed is remembered as
      `trackNewThreads`. */
  function Install(timeMode: TimeMode, rubyThreads: set<int>, trackNewThreads: bool): (r: Installer)
    ensures r.targetRubyThreads == rubyThreads && r.registeredPthreadIds == {}
    ensures r.kernelThreadIdToRubyThread == map[] && r.trackNewThreads == trackNewThreads
  {
    Installer(timeMode, rubyThreads, {}, map[], trackNewThreads)
  }

  /** `register_timer_to_current_thread`: the Ruby thread comes from the
      kernel-thread map; wall time is not implemented. */
  function RegisterTimer(inst: Installer, pthreadId: int, kernelThreadId: int): (r: Result<Timer, Panic>)
    requires kernelThreadId in inst.kernelThreadIdToRubyThread
    ensures r.Failure? <==> inst.timeMode == WallTime
    ensures r.Success? ==>
      && r.value.rubyThread == inst.kernelThreadIdToRubyThread[kernelThreadId]
      && r.value.pthreadId == pthreadId && r.value.kernelThreadId == kernelThreadId
      && r.value.periodNs == TimerPeriodNs
  {
    match inst.timeMode
    case CpuTime => Success(Timer(pthreadId, kernelThreadId, inst.kernelThreadIdToRubyThread[kernelThreadId], TimerPeriodNs))
    case WallTime => Failure(WallTimeNotSupported)
  }

  /** `on_thread_resume`: a thread that is not a target, or whose pthread
      already has a timer, changes nothing; otherwise the pthread is
      recorded, its kernel thread id mapped to the Ruby thread, and one
      timer registered. */
  function OnThreadResume(inst: Installer, thread: int, pthreadId: int, kernelThreadId: int)
    : (r: Result<(Installer, Option<Timer>), Panic>)
    ensures thread !in inst.targetRubyThreads || pthreadId in inst.registeredPthreadIds ==> r == Success((inst, None))
    ensures thread in inst.targetRubyThreads && pthreadId !in inst.registeredPthreadIds ==>
      && (r.Failure? <==> inst.timeMode == WallTime)
      && (r.Success? ==>
            && r.value.0 == inst.(registeredPthreadIds := inst.registeredPthreadIds + {pthreadId},
                                  kernelThreadIdToRubyThread := inst.kernelThreadIdToRubyThread[kernelThreadId := thread])
            && r.value.1 == Some(Timer(pthreadId, kernelThreadId, thread, TimerPeriodNs)))
  {
    if thread !in inst.targetRubyThreads then Success((inst, None))
    else if pthreadId in inst.registeredPthreadIds then Success((inst, None))
    else
      var inst' := inst.(registeredPthreadIds := inst.registeredPthreadIds + {pthreadId},
                         kernelThreadIdToRubyThread := inst.kernelThreadIdToRubyThread[kernelThreadId := thread]);
      var timer :- RegisterTimer(inst', pthreadId, kernelThreadId);
      Success((inst', Some(timer)))
  }

  /** `on_thread_start`, which runs only when the start hook was installed:
      the new thread becomes a target. */
  function OnThreadStart(inst: Installer, thread: int): (r: Installer)
    ensures r.targetRubyThreads == if inst.trackNewThreads then inst.targetRubyThreads + {thread} else inst.targetRubyThreads
    ensures r.registeredPthreadIds == inst.registeredPthreadIds
  {
    if inst.trackNewThreads then inst.(targetRubyThreads := inst.targetRubyThreads + {thread}) else inst
  }

  /** A thread event as the hooks see it. */
  datatype Event =
    | Resumed(thread: int, pthreadId: int, kernelThreadId: int)
    | Started(thread: int)

  /** The timers registered over a run of events, in order, or the panic
      that ends the run. */
  function Replay(inst: Installer, events: seq<Event>): (r: Result<(Installer, seq<Timer>), Panic>)
    ensures r.Success? ==> inst.registeredPthreadIds <= r.value.0.registeredPthreadIds
    ensures r.Success? ==> forall i :: 0 <= i < |r.value.1| ==> r.value.1[i].pthreadId in r.value.0.registeredPthreadIds
    decreases |events|
  {
    if |events| == 0 then Success((inst, []))
    else
      var (inst1, timer) :- match events[0]
        case Resumed(thread, pthreadId, tid) => OnThreadResume(inst, thread, pthreadId, tid)
        case Started(thread) => Success((OnThreadStart(inst, thread), None));
      var (inst2, rest) :- Replay(inst1, events[1..]);
      Success((inst2, (if timer.Some? then [timer.value] else []) + rest))
  }

  /** Over any run of events, no pthread gets two timers, and none gets one
      if it was registered before the run. */
  lemma {:induction false} OneTimerPerPthread(inst: Installer, events: seq<Event>)
    requires Replay(inst, events).Success?
    ensures var timers := Replay(inst, events).value.1;
      && (forall a, b :: 0 <= a < b < |timers| ==> timers[a].pthreadId != timers[b].pthreadId)
      && (forall a :: 0 <= a < |timers| ==> timers[a].pthreadId !in inst.registeredPthreadIds)
    decreases |events|
  {
    if |events| > 0 {
      var step := match events[0]
        case Resumed(thread, pthreadId, tid) => OnThreadResume(inst, thread, pthreadId, tid)
        case Started(thread) => Success((OnThreadStart(inst, thread), None));
      var (inst1, timer) := step.value;
      OneTimerPerPthread(inst1, events[1..]);
      var rest := Replay(inst1, events[1..]).value.1;
      if timer.Some? {
        assert timer.value.pthreadId in inst1.registeredPthreadIds;
        assert timer.value.pthreadId !in inst.registeredPthreadIds;
      }
    }
  }
}
