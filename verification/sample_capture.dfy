/** One profiler sample of the C extension and its capture
    (`ext/pf2/sample.h`, `ext/pf2/sample.c`).

    The sample owns three heap arrays allocated by the ring buffer: the Ruby
    frames (`cmes`), their line numbers, and the native program counters. A
    pointer that is `NULL` is `None`; an allocated array is `Some` of its
    contents. The clock, `pthread_self`, the Ruby VM's frame walk and the
    libbacktrace stack walk are inputs of `Capture`. */
module SampleCapture {
  import opened Wrappers

  /** Two to the 64: `uint64_t` arithmetic is taken modulo this. */
  const U64: int := 0x1_0000_0000_0000_0000

  datatype Sample = Sample(
    contextPthread: int,
    depth: int,
    cmes: Option<seq<int>>,
    linenos: Option<seq<int>>,
    nativeStackDepth: nat,
    nativeStack: Option<seq<int>>,
    consumedTimeNs: nat,
    timestampNs: nat)

  /** The depth limits `pf2_sample_capture` reads from the configuration. */
  datatype DepthLimits = DepthLimits(maxRubyDepth: int, maxNativeDepth: int)

  /** The smaller of two integers. */
  function Min(a: int, b: int): int {
    if a < b then a else b
  }

  /** How many entries a walk of `available` frames stores when at most
      `limit` may be stored (a negative limit stores nothing). */
  function Stored(available: nat, limit: int): (n: nat)
    ensures n <= available
    ensures limit <= 0 ==> n == 0
    ensures limit > 0 ==> n <= limit && (n == available || n == limit)
  {
    if limit <= 0 then 0 else Min(available, limit)
  }

  /** `struct bt_data`: the sample being filled, the next free index and the
      bound on stored program counters. */
  datatype BtData = BtData(nativeStack: seq<int>, index: nat, maxNativeDepth: int)

  /** `backtrace_on_ok`: store the program counter at `index` and advance while
      `index < max_native_depth`, and always ask the walk to continue
      (return 0). */
  function OnBacktraceFrame(data: BtData, pc: int): (r: (int, BtData))
    requires data.maxNativeDepth <= |data.nativeStack|
    ensures r.0 == 0
    ensures r.1.maxNativeDepth == data.maxNativeDepth
    ensures |r.1.nativeStack| == |data.nativeStack|
    ensures data.index < data.maxNativeDepth ==>
      r.1.index == data.index + 1 && r.1.nativeStack == data.nativeStack[data.index := pc]
    ensures data.index >= data.maxNativeDepth ==> r.1 == data
  {
    if data.index < data.maxNativeDepth then
      (0, data.(nativeStack := data.nativeStack[data.index := pc], index := data.index + 1))
    else
      (0, data)
  }

  /** Feeds the program counters of a stack walk, in walk order, to
      `backtrace_on_ok`. */
  function WalkFrames(data: BtData, pcs: seq<int>): BtData
    requires data.maxNativeDepth <= |data.nativeStack|
    decreases |pcs|
  {
    if pcs == [] then data
    else WalkFrames(OnBacktraceFrame(data, pcs[0]).1, pcs[1..])
  }

  /** A walk that starts at index `i <= max` stores the first
      `min(n, max - i)` delivered program counters at `i, i+1, …` and leaves
      every other slot alone. */
  lemma {:induction false} WalkFramesStores(data: BtData, pcs: seq<int>)
    requires data.maxNativeDepth <= |data.nativeStack|
    requires data.index <= data.maxNativeDepth || data.maxNativeDepth <= 0
    ensures var out := WalkFrames(data, pcs);
      var n := Stored(|pcs|, data.maxNativeDepth - data.index);
      && |out.nativeStack| == |data.nativeStack|
      && out.index == data.index + n
      && (forall k :: 0 <= k < n ==> out.nativeStack[data.index + k] == pcs[k])
      && (forall k :: 0 <= k < |out.nativeStack| && !(data.index <= k < data.index + n) ==>
            out.nativeStack[k] == data.nativeStack[k])
    decreases |pcs|
  {
    if pcs != [] {
      var next := OnBacktraceFrame(data, pcs[0]).1;
      WalkFramesStores(next, pcs[1..]);
      var out := WalkFrames(next, pcs[1..]);
      if data.index < data.maxNativeDepth {
        forall k | 0 <= k < Stored(|pcs|, data.maxNativeDepth - data.index)
          ensures out.nativeStack[data.index + k] == pcs[k]
        {
          if k > 0 {
            assert out.nativeStack[next.index + (k - 1)] == pcs[1..][k - 1];
          }
        }
      }
    }
  }

  /** `capture_native_backtrace`: walks the native stack into `nativeStack`
      and returns how many program counters were stored. The result never
      exceeds `max_native_depth`, and the stored program counters are the
      first ones delivered, in walk order. */
  function CaptureNativeBacktrace(nativeStack: seq<int>, maxNativeDepth: int, pcs: seq<int>): (r: (nat, seq<int>))
    requires maxNativeDepth <= |nativeStack|
    ensures r.0 == Stored(|pcs|, maxNativeDepth)
    ensures maxNativeDepth >= 0 ==> r.0 <= maxNativeDepth
    ensures |r.1| == |nativeStack|
    ensures r.1[..r.0] == pcs[..r.0]
    ensures r.1[r.0..] == nativeStack[r.0..]
  {
    var data := WalkFrames(BtData(nativeStack, 0, maxNativeDepth), pcs);
    WalkFramesStores(BtData(nativeStack, 0, maxNativeDepth), pcs);
    (data.index, data.nativeStack)
  }

  /** `rb_profile_frames(0, limit, cmes, linenos)` as seen from the caller:
      the VM copies its innermost frames, at most `limit` of them, into the
      two buffers and returns how many it copied. `stack` is the thread's
      Ruby stack, innermost first, as (frame, line number) pairs. */
  function ProfileFrames(stack: seq<(int, int)>, limit: int, cmes: seq<int>, linenos: seq<int>): (r: (nat, seq<int>, seq<int>))
    requires limit <= |cmes| && limit <= |linenos|
    ensures r.0 == Stored(|stack|, limit)
    ensures |r.1| == |cmes| && |r.2| == |linenos|
    ensures forall k :: 0 <= k < r.0 ==> r.1[k] == stack[k].0 && r.2[k] == stack[k].1
  {
    var n := Stored(|stack|, limit);
    (n,
     seq(|cmes|, k requires 0 <= k < |cmes| => if k < n then stack[k].0 else cmes[k]),
     seq(|linenos|, k requires 0 <= k < |linenos| => if k < n then stack[k].1 else linenos[k]))
  }

  /** The arrays of an allocated sample are large enough for the configured
      depths (the ring buffer allocates them from the same configuration). */
  predicate Fits(sample: Sample, limits: DepthLimits) {
    && (sample.cmes.Some? ==> limits.maxRubyDepth <= |sample.cmes.value|)
    && (sample.linenos.Some? ==> limits.maxRubyDepth <= |sample.linenos.value|)
    && (sample.nativeStack.Some? ==> limits.maxNativeDepth <= |sample.nativeStack.value|)
  }

  /** `pf2_sample_capture`. A sample with a missing array is refused (false,
      untouched). Otherwise the per-sample fields are reset and refilled: the
      monotonic time as `sec * 10^9 + nsec` in 64-bit arithmetic, the calling
      pthread, at most `max_ruby_depth` Ruby frames and at most
      `max_native_depth` native program counters; consumed time stays 0. */
  function Capture(sample: Sample, limits: DepthLimits, nowSec: nat, nowNsec: nat, self: int,
                   rubyStack: seq<(int, int)>, nativePcs: seq<int>): (r: (bool, Sample))
    requires Fits(sample, limits)
    ensures !r.0 <==> sample.cmes.None? || sample.linenos.None? || sample.nativeStack.None?
    ensures !r.0 ==> r.1 == sample
    ensures r.0 ==> var s := r.1;
      && s.contextPthread == self
      && s.timestampNs == (nowSec * 1000000000 + nowNsec) % U64
      && s.consumedTimeNs == 0
      && s.depth == Stored(|rubyStack|, limits.maxRubyDepth)
      && s.nativeStackDepth == Stored(|nativePcs|, limits.maxNativeDepth)
      && s.cmes.Some? && s.linenos.Some? && s.nativeStack.Some?
      && |s.cmes.value| == |sample.cmes.value| && |s.linenos.value| == |sample.linenos.value|
      && |s.nativeStack.value| == |sample.nativeStack.value|
      && (forall k :: 0 <= k < s.depth ==> s.cmes.value[k] == rubyStack[k].0 && s.linenos.value[k] == rubyStack[k].1)
      && s.nativeStack.value[..s.nativeStackDepth] == nativePcs[..s.nativeStackDepth]
  {
    if sample.cmes.None? || sample.linenos.None? || sample.nativeStack.None? then
      (false, sample)
    else
      var reset := sample.(depth := 0, nativeStackDepth := 0, consumedTimeNs := 0, timestampNs := 0);
      var timed := reset.(timestampNs := (nowSec * 1000000000 + nowNsec) % U64, contextPthread := self);
      var (depth, cmes, linenos) := ProfileFrames(rubyStack, limits.maxRubyDepth, sample.cmes.value, sample.linenos.value);
      var (nativeDepth, nativeStack) := CaptureNativeBacktrace(sample.nativeStack.value, limits.maxNativeDepth, nativePcs);
      (true, timed.(depth := depth, cmes := Some(cmes), linenos := Some(linenos),
                    nativeStackDepth := nativeDepth, nativeStack := Some(nativeStack)))
  }

  /** The depth-truncation guarantee: a captured sample never records more
      Ruby frames than `max_ruby_depth` nor more native frames than
      `max_native_depth`. */
  lemma CaptureRespectsLimits(sample: Sample, limits: DepthLimits, nowSec: nat, nowNsec: nat, self: int,
                              rubyStack: seq<(int, int)>, nativePcs: seq<int>)
    requires Fits(sample, limits)
    requires limits.maxRubyDepth >= 0 && limits.maxNativeDepth >= 0
    ensures var r := Capture(sample, limits, nowSec, nowNsec, self, rubyStack, nativePcs);
      r.0 ==> r.1.depth <= limits.maxRubyDepth && r.1.nativeStackDepth <= limits.maxNativeDepth
  {
  }
}
