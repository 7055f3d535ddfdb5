/** `NewThreadWatcher` (`ext/pf2/src/session/new_thread_watcher.rs`): a
    thread-resume hook that reports each Ruby thread the first time it is
    seen. The callback is modelled by returning the thread it would be
    called with. */
module NewThreadWatcher {
  import opened Wrappers

  datatype Watcher = Watcher(knownThreads: set<int>)

  /** `watch`: nothing known yet. */
  function Watch(): (w: Watcher)
    ensures w.knownThreads == {}
  {
    Watcher({})
  }

  /** `on_thread_resume`: an unknown thread is recorded and reported; a
      known thread changes nothing. */
  function OnThreadResume(w: Watcher, thread: int): (r: (Watcher, Option<int>))
    ensures r.1.Some? <==> thread !in w.knownThreads
    ensures r.1.Some? ==> r.1.value == thread
    ensures r.0.knownThreads == w.knownThreads + {thread}
  {
    if thread !in w.knownThreads then (Watcher(w.knownThreads + {thread}), Some(thread))
    else (w, None)
  }

  /** The callbacks made over a run of resume events, in order. */
  function Replay(w: Watcher, events: seq<int>): (r: (Watcher, seq<int>))
    ensures r.0.knownThreads == w.knownThreads + set i | 0 <= i < |events| :: events[i]
    decreases |events|
  {
    if |events| == 0 then (w, [])
    else
      var (w1, fired) := OnThreadResume(w, events[0]);
      var (w2, rest) := Replay(w1, events[1..]);
      assert (set i | 0 <= i < |events| :: events[i]) == {events[0]} + set i | 0 <= i < |events| - 1 :: events[1..][i];
      (w2, (if fired.Some? then [fired.value] else []) + rest)
  }

  /** Over any run of events the callback fires at most once per thread,
      only for threads unknown at the start, and for every such thread
      that resumes. */
  lemma {:induction false} FiresOncePerThread(w: Watcher, events: seq<int>)
    ensures var fired := Replay(w, events).1;
      && (forall a, b :: 0 <= a < b < |fired| ==> fired[a] != fired[b])
      && (forall a :: 0 <= a < |fired| ==> fired[a] !in w.knownThreads && fired[a] in events)
      && (forall i :: 0 <= i < |events| && events[i] !in w.knownThreads ==> events[i] in fired)
    decreases |events|
  {
    if |events| > 0 {
      var (w1, first) := OnThreadResume(w, events[0]);
      FiresOncePerThread(w1, events[1..]);
      var rest := Replay(w1, events[1..]).1;
      var fired := Replay(w, events).1;
      assert fired == (if first.Some? then [first.value] else []) + rest;
      forall i | 0 <= i < |events| && events[i] !in w.knownThreads
        ensures events[i] in fired
      {
        if i > 0 && events[i] != events[0] {
          assert events[i] == events[1..][i - 1];
        }
      }
      forall a | 0 <= a < |rest|
        ensures rest[a] in events
      {
      }
    }
  }
}
