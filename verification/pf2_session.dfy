/** The sample tables of the C extension's session (`ext/pf2/session.c`).

    The collector thread pops captured samples from the reserve/commit queue
    and indexes them: every Ruby frame and every native program counter
    becomes a function (looked up or appended in the function table), then a
    location (looked up or appended in the location table), and the sample
    becomes a list of location indices. Samples with the same thread and the
    same Ruby stack are merged into one entry with a count.

    The hash maps that index the two tables are modelled as Dafny maps that
    are kept exactly inverse to the tables. The function map is keyed by
    `Identity`, which `IdentityIsKeyEquality` shows to be the equality that
    `pf2_function_key_equal` implements on built keys.

    Every `malloc`, `realloc` and map insertion can fail. A drain receives an
    allocation oracle `alloc`: the `n`-th fallible allocation succeeds iff
    `alloc(n)`, and the functions thread the number of the next attempt. Ruby
    frame metadata (`rb_profile_frame_*`) and native symbol lookup
    (`backtrace_syminfo`) are the parameters `frames` and `symbols`. */
module Pf2Session {
  import opened Wrappers
  import opened IndexedMaps
  import opened SampleCapture
  import Pf2Ringbuffer

  /** What `rb_profile_frame_full_label`, `rb_profile_frame_path` and
      `rb_profile_frame_first_lineno` return for a frame; `nil` is `None`. */
  datatype FrameMeta = FrameMeta(fullLabel: CString, path: CString, firstLineno: Option<int>)

  /** The arguments libbacktrace passes to the symbol callback. */
  datatype SymInfo = SymInfo(symname: CString, symval: nat)

  /** `struct pf2_ser_location`. */
  datatype SerLocation = SerLocation(functionIndex: nat, lineno: int, address: nat)

  /** `struct pf2_ser_sample` as the session fills it: the Ruby and native
      stacks as location indices (a `NULL` array with count 0 is the empty
      sequence), the thread, the time since the session started and the
      number of merged occurrences. */
  datatype SerSample = SerSample(
    stack: seq<nat>,
    nativeStack: seq<nat>,
    rubyThreadId: nat,
    elapsedNs: nat,
    count: nat)

  /** The data `pf2_function_key_equal` compares: strings by content, with
      `NULL` distinct from every string. */
  datatype FunctionIdentity = FunctionIdentity(
    implementation: Implementation,
    startLineno: int,
    startAddress: nat,
    name: Option<seq<bv8>>,
    filename: Option<seq<bv8>>)

  /** The content of a C string, or `None` for `NULL`. */
  function ContentOf(s: CString): (c: Option<seq<bv8>>)
    ensures c.None? <==> s.None?
  {
    if s.None? then None else Some(Content(s.value))
  }

  function Identity(f: SerFunction): FunctionIdentity {
    FunctionIdentity(f.implementation, f.startLineno, f.startAddress, ContentOf(f.name), ContentOf(f.filename))
  }

  /** Keying the function map by `Identity` is the same as keying it by
      built keys under `pf2_function_key_equal`. */
  lemma IdentityIsKeyEquality(f: SerFunction, g: SerFunction)
    ensures FunctionKeyEqual(FunctionKeyBuild(f), FunctionKeyBuild(g)) <==> Identity(f) == Identity(g)
  {
    FunctionKeyEqualIff(f, g);
  }

  datatype Session = Session(
    startTimeNs: nat,
    functions: seq<SerFunction>,
    functionsCapacity: nat,
    functionMap: map<FunctionIdentity, nat>,
    locations: seq<SerLocation>,
    locationsCapacity: nat,
    locationMap: map<SerLocation, nat>,
    samples: seq<SerSample>,
    samplesCapacity: nat,
    collectedSampleCount: nat,
    droppedSampleCount: nat)

  /** The function map sends each stored function's identity to its index
      and holds nothing else; in particular, identities are distinct. */
  predicate FunctionMapExact(functions: seq<SerFunction>, m: map<FunctionIdentity, nat>) {
    && (forall i :: 0 <= i < |functions| ==> Identity(functions[i]) in m && m[Identity(functions[i])] == i)
    && (forall k :: k in m ==> m[k] < |functions| && Identity(functions[m[k]]) == k)
  }

  /** The location map sends each stored location to its index and holds
      nothing else. */
  predicate LocationMapExact(locations: seq<SerLocation>, m: map<SerLocation, nat>) {
    && (forall i :: 0 <= i < |locations| ==> locations[i] in m && m[locations[i]] == i)
    && (forall k :: k in m ==> m[k] < |locations| && locations[m[k]] == k)
  }

  /** Every index a stack holds names a stored location. */
  predicate IndicesBelow(stack: seq<nat>, n: nat) {
    forall j :: 0 <= j < |stack| ==> stack[j] < n
  }

  /** What the session keeps true between operations: counts within
      capacities, both maps exact, and every stored index valid. */
  predicate Valid(s: Session) {
    && |s.functions| <= s.functionsCapacity
    && |s.locations| <= s.locationsCapacity
    && |s.samples| <= s.samplesCapacity
    && FunctionMapExact(s.functions, s.functionMap)
    && LocationMapExact(s.locations, s.locationMap)
    && (forall i :: 0 <= i < |s.locations| ==> s.locations[i].functionIndex < |s.functions|)
    && (forall i :: 0 <= i < |s.samples| ==>
          IndicesBelow(s.samples[i].stack, |s.locations|) && IndicesBelow(s.samples[i].nativeStack, |s.locations|))
    && DistinctStacks(s.samples)
  }

  /** `s'` only adds to `s`: both tables keep their entries and capacities
      never shrink. */
  predicate Extends(s: Session, s': Session) {
    && s'.startTimeNs == s.startTimeNs
    && s.functions <= s'.functions
    && s.locations <= s'.locations
    && s.functionsCapacity <= s'.functionsCapacity
    && s.locationsCapacity <= s'.locationsCapacity
    && s.samplesCapacity <= s'.samplesCapacity
  }

  /** The initial tables of a session: empty, with room for 256 samples, 128
      functions and 256 locations, and no samples counted. */
  function NewSession(): (s: Session)
    ensures Valid(s)
    ensures s.functions == [] && s.locations == [] && s.samples == []
    ensures TotalCount(s.samples) == 0
    ensures s.collectedSampleCount == 0 && s.droppedSampleCount == 0
  {
    Session(0, [], 128, map[], [], 256, map[], [], 256, 0, 0)
  }

  /** Recording the monotonic start time in `rb_pf2_session_start`:
      seconds × 10^9 + nanoseconds, as `uint64_t`. */
  function Start(s: Session, sec: nat, nsec: nat): (s': Session)
    ensures s'.startTimeNs < U64
    ensures sec * 1000000000 + nsec < U64 ==> s'.startTimeNs == sec * 1000000000 + nsec
    ensures s' == s.(startTimeNs := s'.startTimeNs)
  {
    s.(startTimeNs := (sec * 1000000000 + nsec) % U64)
  }

  /** Every allocation attempt numbered `from` up to (not including) `to`
      succeeds. */
  predicate AllSucceed(alloc: nat -> bool, from: nat, to: nat) {
    forall k :: from <= k < to ==> alloc(k)
  }

  /** The outcome of an `ensure_*_capacity` call. */
  datatype Growth = Growth(ok: bool, capacity: nat, attempt: nat)

  /** `ensure_samples_capacity`, `ensure_functions_capacity` and
      `ensure_locations_capacity`, which share one shape: nothing happens
      while `count < capacity`; otherwise the array is reallocated to 16 slots
      if the capacity was 0 and to twice the capacity otherwise, which is one
      allocation attempt. On success there is room for one more entry; on
      failure the capacity is unchanged. */
  function EnsureCapacity(count: nat, capacity: nat, alloc: nat -> bool, attempt: nat): (g: Growth)
    requires count <= capacity
    ensures count < capacity ==> g == Growth(true, capacity, attempt)
    ensures count == capacity ==> g.attempt == attempt + 1 && (g.ok <==> alloc(attempt))
    ensures g.ok <==> AllSucceed(alloc, attempt, g.attempt)
    ensures g.ok ==> count < g.capacity
    ensures !g.ok ==> g.capacity == capacity
    ensures capacity <= g.capacity
    ensures capacity < g.capacity ==> g.capacity == (if capacity == 0 then 16 else 2 * capacity)
  {
    if count < capacity then Growth(true, capacity, attempt)
    else
      var newCapacity := if capacity == 0 then 16 else capacity * 2;
      if alloc(attempt) then Growth(true, newCapacity, attempt + 1)
      else Growth(false, capacity, attempt + 1)
  }

  /** The outcome of `function_index_for` or `location_index_for`: success,
      the index, the session afterwards and the next allocation attempt. */
  datatype Indexed = Indexed(ok: bool, index: nat, session: Session, attempt: nat)

  /** Only the function table (and its capacity) may have changed. */
  predicate OnlyFunctionsChanged(s: Session, s': Session) {
    s' == s.(functions := s'.functions, functionsCapacity := s'.functionsCapacity, functionMap := s'.functionMap)
  }

  /** Only the location table (and its capacity) may have changed. */
  predicate OnlyLocationsChanged(s: Session, s': Session) {
    s' == s.(locations := s'.locations, locationsCapacity := s'.locationsCapacity, locationMap := s'.locationMap)
  }

  /** `function_index_for`. A function whose key is equal to a stored one's
      yields the stored index and changes nothing. Otherwise the table is
      grown if full, the function is appended at the old count and its key is
      inserted; if the growth fails nothing is added, and if the insertion
      fails the count is rolled back. */
  function FunctionIndexFor(s: Session, f: SerFunction, alloc: nat -> bool, attempt: nat): (r: Indexed)
    requires Valid(s)
    ensures Valid(r.session) && Extends(s, r.session) && OnlyFunctionsChanged(s, r.session)
    ensures attempt <= r.attempt
    ensures r.ok <==> AllSucceed(alloc, attempt, r.attempt)
    ensures Identity(f) in s.functionMap ==>
      r.ok && r.index == s.functionMap[Identity(f)] && r.session == s && r.attempt == attempt
    ensures r.ok ==> r.index < |r.session.functions| && Identity(r.session.functions[r.index]) == Identity(f)
    ensures Identity(f) !in s.functionMap && r.ok ==>
      r.index == |s.functions| && r.session.functions == s.functions + [f]
    ensures !r.ok ==> r.session.functions == s.functions && r.session.functionMap == s.functionMap
  {
    var id := Identity(f);
    if id in s.functionMap then
      Indexed(true, s.functionMap[id], s, attempt)
    else
      var g := EnsureCapacity(|s.functions|, s.functionsCapacity, alloc, attempt);
      if !g.ok then
        Indexed(false, 0, s, g.attempt)
      else
        var grown := s.(functionsCapacity := g.capacity);
        var newIndex := |s.functions|;
        if !alloc(g.attempt) then
          Indexed(false, 0, grown, g.attempt + 1)
        else
          var s' := grown.(functions := s.functions + [f], functionMap := s.functionMap[id := newIndex]);
          assert FunctionMapExact(s'.functions, s'.functionMap) by {
            forall k | k in s'.functionMap
              ensures s'.functionMap[k] < |s'.functions| && Identity(s'.functions[s'.functionMap[k]]) == k
            {
              if k != id {
                assert k in s.functionMap;
              }
            }
          }
          Indexed(true, newIndex, s', g.attempt + 1)
  }

  /** `location_index_for`, keyed on (function index, line, address), with
      the same lookup-or-append contract as `FunctionIndexFor`. */
  function LocationIndexFor(s: Session, functionIndex: nat, lineno: int, address: nat, alloc: nat -> bool, attempt: nat): (r: Indexed)
    requires Valid(s) && functionIndex < |s.functions|
    ensures Valid(r.session) && Extends(s, r.session) && OnlyLocationsChanged(s, r.session)
    ensures attempt <= r.attempt
    ensures r.ok <==> AllSucceed(alloc, attempt, r.attempt)
    ensures SerLocation(functionIndex, lineno, address) in s.locationMap ==>
      r.ok && r.index == s.locationMap[SerLocation(functionIndex, lineno, address)] && r.session == s && r.attempt == attempt
    ensures r.ok ==> r.index < |r.session.locations| && r.session.locations[r.index] == SerLocation(functionIndex, lineno, address)
    ensures SerLocation(functionIndex, lineno, address) !in s.locationMap && r.ok ==>
      r.index == |s.locations| && r.session.locations == s.locations + [SerLocation(functionIndex, lineno, address)]
    ensures !r.ok ==> r.session.locations == s.locations && r.session.locationMap == s.locationMap
  {
    var key := SerLocation(functionIndex, lineno, address);
    if key in s.locationMap then
      Indexed(true, s.locationMap[key], s, attempt)
    else
      var g := EnsureCapacity(|s.locations|, s.locationsCapacity, alloc, attempt);
      if !g.ok then
        Indexed(false, 0, s, g.attempt)
      else
        var grown := s.(locationsCapacity := g.capacity);
        var newIndex := |s.locations|;
        if !alloc(g.attempt) then
          Indexed(false, 0, grown, g.attempt + 1)
        else
          var s' := grown.(locations := s.locations + [key], locationMap := s.locationMap[key := newIndex]);
          assert LocationMapExact(s'.locations, s'.locationMap) by {
            forall k | k in s'.locationMap
              ensures s'.locationMap[k] < |s'.locations| && s'.locations[s'.locationMap[k]] == k
            {
              if k != key {
                assert k in s.locationMap;
              }
            }
          }
          assert forall i :: 0 <= i < |s'.samples| ==>
            IndicesBelow(s'.samples[i].stack, |s'.locations|) && IndicesBelow(s'.samples[i].nativeStack, |s'.locations|);
          Indexed(true, newIndex, s', g.attempt + 1)
  }

  /** `extract_function_from_ruby_frame`: a Ruby function named by the
      frame's full label and path (`nil` gives `NULL`), starting at the
      frame's first line or -1, with address 0. */
  function RubyFunction(meta: FrameMeta): (f: SerFunction)
    ensures f.implementation == Ruby && f.startAddress == 0
    ensures f.name == meta.fullLabel && f.filename == meta.path
    ensures f.startLineno == (if meta.firstLineno.Some? then meta.firstLineno.value else -1)
  {
    SerFunction(Ruby, meta.fullLabel, meta.path, meta.firstLineno.GetOr(-1), 0)
  }

  /** `extract_function_from_native_pc` with `pf2_backtrace_syminfo_callback`:
      a native function with no filename and start line 0. When the callback
      runs, the symbol name (if any) and the symbol's start address are taken
      from it; when it does not, name is `NULL` and address 0. */
  function NativeFunction(sym: Option<SymInfo>): (f: SerFunction)
    ensures f.implementation == Native && f.filename.None? && f.startLineno == 0
    ensures sym.None? ==> f.name.None? && f.startAddress == 0
    ensures sym.Some? ==> f.name == sym.value.symname && f.startAddress == sym.value.symval
  {
    match sym
    case None => SerFunction(Native, None, None, 0, 0)
    case Some(info) => SerFunction(Native, info.symname, None, 0, info.symval)
  }

  /** The parts of a popped sample the drain reads are allocated and long
      enough. */
  predicate Readable(sample: Sample) {
    && (sample.depth > 0 ==>
          && sample.cmes.Some? && sample.linenos.Some?
          && sample.depth <= |sample.cmes.value| && sample.depth <= |sample.linenos.value|)
    && (sample.nativeStackDepth > 0 ==>
          sample.nativeStack.Some? && sample.nativeStackDepth <= |sample.nativeStack.value|)
  }

  /** Location `li` stands for a function with the identity of `f`, at line
      `lineno` and address 0. */
  predicate LocatesFrame(s: Session, li: nat, f: SerFunction, lineno: int) {
    && li < |s.locations|
    && s.locations[li].lineno == lineno
    && s.locations[li].address == 0
    && s.locations[li].functionIndex < |s.functions|
    && Identity(s.functions[s.locations[li].functionIndex]) == Identity(f)
  }

  /** The number of Ruby frames the drain reads (a non-positive depth reads
      none). */
  function RubyDepth(sample: Sample): nat {
    if sample.depth > 0 then sample.depth else 0
  }

  /** `stack[j]` is the location of Ruby frame `j` of the sample, for the
      first `n` frames. */
  predicate RubyFramesLocated(s: Session, stack: seq<nat>, sample: Sample, frames: int -> FrameMeta, n: nat)
    requires Readable(sample) && n <= RubyDepth(sample)
  {
    |stack| == n &&
    forall j :: 0 <= j < n ==>
      LocatesFrame(s, stack[j], RubyFunction(frames(sample.cmes.value[j])), sample.linenos.value[j])
  }

  /** `stack[j]` is the location of native frame `j` of the sample (line 0),
      for the first `n` frames. */
  predicate NativeFramesLocated(s: Session, stack: seq<nat>, sample: Sample, symbols: int -> Option<SymInfo>, n: nat)
    requires Readable(sample) && n <= sample.nativeStackDepth
  {
    |stack| == n &&
    forall j :: 0 <= j < n ==>
      LocatesFrame(s, stack[j], NativeFunction(symbols(sample.nativeStack.value[j])), 0)
  }

  /** A location keeps standing for the same frame as the tables grow. */
  lemma LocatesFrameStable(s: Session, s': Session, li: nat, f: SerFunction, lineno: int)
    requires Extends(s, s') && LocatesFrame(s, li, f, lineno)
    ensures LocatesFrame(s', li, f, lineno)
  {
    assert s'.locations[li] == s.locations[li];
    assert s'.functions[s.locations[li].functionIndex] == s.functions[s.locations[li].functionIndex];
  }

  /** A run of allocation attempts succeeds iff both of its parts do. */
  lemma AllSucceedSplit(alloc: nat -> bool, from: nat, middle: nat, to: nat)
    requires from <= middle <= to
    ensures AllSucceed(alloc, from, to) <==> AllSucceed(alloc, from, middle) && AllSucceed(alloc, middle, to)
  {
    if AllSucceed(alloc, from, middle) && AllSucceed(alloc, middle, to) {
      forall k | from <= k < to ensures alloc(k) {
        if k < middle {
          assert from <= k < middle;
        } else {
          assert middle <= k < to;
        }
      }
    }
  }

  /** Index the frame `f` at `lineno`: its function, then its location. */
  function FrameIndexFor(s: Session, f: SerFunction, lineno: int, address: nat, alloc: nat -> bool, attempt: nat): (r: Indexed)
    requires Valid(s)
    ensures Valid(r.session) && Extends(s, r.session)
    ensures r.session.samples == s.samples
    ensures r.session.collectedSampleCount == s.collectedSampleCount
    ensures r.session.droppedSampleCount == s.droppedSampleCount
    ensures attempt <= r.attempt
    ensures r.ok <==> AllSucceed(alloc, attempt, r.attempt)
    ensures r.ok ==> r.index < |r.session.locations|
    ensures r.ok && address == 0 ==> LocatesFrame(r.session, r.index, f, lineno)
  {
    var fr := FunctionIndexFor(s, f, alloc, attempt);
    if !fr.ok then fr
    else
      var lr := LocationIndexFor(fr.session, fr.index, lineno, address, alloc, fr.attempt);
      AllSucceedSplit(alloc, attempt, fr.attempt, lr.attempt);
      lr
  }

  /** Two stacks of `count` entries agree in every entry (`memcmp(...) == 0`
      over `count * sizeof(size_t)` bytes), compared from `k` on. */
  function MemEqualFrom(a: seq<nat>, b: seq<nat>, k: nat): (eq: bool)
    requires k <= |a| == |b|
    ensures eq <==> a[k..] == b[k..]
    decreases |a| - k
  {
    if k == |a| then true
    else if a[k] != b[k] then false
    else
      var rest := MemEqualFrom(a, b, k + 1);
      assert a[k..] == [a[k]] + a[k + 1..];
      assert b[k..] == [b[k]] + b[k + 1..];
      rest
  }

  /** A stored sample is the one `find_sample_by_ruby_stack` looks for: same
      thread and the same Ruby stack (the native stack is not compared). */
  predicate SameRubyStack(existing: SerSample, threadId: nat, stack: seq<nat>) {
    existing.rubyThreadId == threadId && existing.stack == stack
  }

  /** The loop of `find_sample_by_ruby_stack` from index `i`: skip other
      threads and other depths; an empty stack matches at once; otherwise
      compare the entries. */
  function FindFrom(samples: seq<SerSample>, threadId: nat, stack: seq<nat>, i: nat): (r: Option<nat>)
    requires i <= |samples|
    ensures r.Some? ==> i <= r.value < |samples| && SameRubyStack(samples[r.value], threadId, stack)
    ensures r.Some? ==> forall k :: i <= k < r.value ==> !SameRubyStack(samples[k], threadId, stack)
    ensures r.None? ==> forall k :: i <= k < |samples| ==> !SameRubyStack(samples[k], threadId, stack)
    decreases |samples| - i
  {
    if i == |samples| then None
    else
      var existing := samples[i];
      if existing.rubyThreadId != threadId then FindFrom(samples, threadId, stack, i + 1)
      else if |existing.stack| != |stack| then FindFrom(samples, threadId, stack, i + 1)
      else if |existing.stack| == 0 then Some(i)
      else if MemEqualFrom(existing.stack, stack, 0) then Some(i)
      else FindFrom(samples, threadId, stack, i + 1)
  }

  /** `find_sample_by_ruby_stack`: the first stored sample of the same thread
      with the same Ruby stack, if there is one. */
  function FindSampleByRubyStack(samples: seq<SerSample>, sample: SerSample): (r: Option<nat>)
    ensures r.Some? ==> r.value < |samples| && SameRubyStack(samples[r.value], sample.rubyThreadId, sample.stack)
    ensures r.Some? ==> forall k :: 0 <= k < r.value ==> !SameRubyStack(samples[k], sample.rubyThreadId, sample.stack)
    ensures r.None? <==> forall k :: 0 <= k < |samples| ==> !SameRubyStack(samples[k], sample.rubyThreadId, sample.stack)
  {
    FindFrom(samples, sample.rubyThreadId, sample.stack, 0)
  }

  /** A repeated sample bumps the stored entry's count and keeps the later
      of the two elapsed times; its own native stack is discarded. */
  function Merge(existing: SerSample, sample: SerSample): (m: SerSample)
    ensures m.count == existing.count + 1
    ensures m.elapsedNs >= existing.elapsedNs && m.elapsedNs >= sample.elapsedNs
    ensures m.elapsedNs == existing.elapsedNs || m.elapsedNs == sample.elapsedNs
    ensures m.stack == existing.stack && m.nativeStack == existing.nativeStack
    ensures m.rubyThreadId == existing.rubyThreadId
  {
    var elapsed := if sample.elapsedNs > existing.elapsedNs then sample.elapsedNs else existing.elapsedNs;
    existing.(count := existing.count + 1, elapsedNs := elapsed)
  }

  /** Where an indexed sample ends up: merged into the first stored sample
      with the same thread and Ruby stack, or appended. */
  function Aggregate(samples: seq<SerSample>, sample: SerSample): (r: seq<SerSample>)
    ensures FindSampleByRubyStack(samples, sample).None? ==> r == samples + [sample]
    ensures FindSampleByRubyStack(samples, sample).Some? ==>
      var i := FindSampleByRubyStack(samples, sample).value;
      |r| == |samples| && r[i] == Merge(samples[i], sample) &&
      forall k :: 0 <= k < |samples| && k != i ==> r[k] == samples[k]
  {
    match FindSampleByRubyStack(samples, sample)
    case None => samples + [sample]
    case Some(i) => samples[i := Merge(samples[i], sample)]
  }

  /** The number of occurrences the stored samples stand for. */
  function TotalCount(samples: seq<SerSample>): nat {
    if |samples| == 0 then 0 else TotalCount(samples[..|samples| - 1]) + samples[|samples| - 1].count
  }

  /** Replacing one entry changes the total by the difference of counts. */
  lemma {:induction false} TotalCountUpdate(samples: seq<SerSample>, i: nat, x: SerSample)
    requires i < |samples|
    ensures TotalCount(samples[i := x]) + samples[i].count == TotalCount(samples) + x.count
    decreases |samples|
  {
    var n := |samples| - 1;
    if i == n {
      assert samples[i := x][..n] == samples[..n];
    } else {
      assert samples[i := x][..n] == samples[..n][i := x];
      TotalCountUpdate(samples[..n], i, x);
    }
  }

  /** No two stored samples share a thread and a Ruby stack. */
  predicate DistinctStacks(samples: seq<SerSample>) {
    forall i, k :: 0 <= i < k < |samples| ==> !SameRubyStack(samples[i], samples[k].rubyThreadId, samples[k].stack)
  }

  /** Aggregating a freshly indexed sample (count 1) adds exactly one
      occurrence, whether it is merged or appended. */
  lemma {:induction false} AggregateCountsOnce(samples: seq<SerSample>, built: SerSample)
    requires built.count == 1
    ensures TotalCount(Aggregate(samples, built)) == TotalCount(samples) + 1
  {
    match FindSampleByRubyStack(samples, built)
    case None =>
      assert (samples + [built])[..|samples|] == samples;
    case Some(i) =>
      TotalCountUpdate(samples, i, Merge(samples[i], built));
  }

  /** Aggregation keeps the stored (thread, Ruby stack) pairs distinct. */
  lemma AggregateKeepsDistinct(samples: seq<SerSample>, built: SerSample)
    requires DistinctStacks(samples)
    ensures DistinctStacks(Aggregate(samples, built))
  {
  }

  /** Exactly the collected counter went up by one. */
  predicate Collected(s: Session, s': Session) {
    s'.collectedSampleCount == s.collectedSampleCount + 1 && s'.droppedSampleCount == s.droppedSampleCount
  }

  /** Exactly the dropped counter went up by one. */
  predicate Dropped(s: Session, s': Session) {
    s'.droppedSampleCount == s.droppedSampleCount + 1 && s'.collectedSampleCount == s.collectedSampleCount
  }

  /** The Ruby half of indexing a sample: allocate the stack array (when the
      depth is positive), then index every Ruby frame at its line. It fails
      exactly when an allocation fails, and stops there. */
  method IndexRubyFrames(s: Session, sample: Sample, frames: int -> FrameMeta, alloc: nat -> bool, attempt: nat)
    returns (s': Session, next: nat, ok: bool, stack: seq<nat>)
    requires Valid(s) && Readable(sample)
    ensures Valid(s') && Extends(s, s') && s'.samples == s.samples
    ensures s'.collectedSampleCount == s.collectedSampleCount && s'.droppedSampleCount == s.droppedSampleCount
    ensures attempt <= next
    ensures ok <==> AllSucceed(alloc, attempt, next)
    ensures ok ==> RubyFramesLocated(s', stack, sample, frames, RubyDepth(sample))
    ensures ok ==> IndicesBelow(stack, |s'.locations|)
  {
    s' := s;
    next := attempt;
    ok := true;
    stack := [];
    if sample.depth <= 0 {
      return;
    }
    ok := alloc(next);
    next := next + 1;
    var j := 0;
    while ok && j < sample.depth
      invariant 0 <= j <= sample.depth
      invariant Valid(s') && Extends(s, s') && s'.samples == s.samples
      invariant s'.collectedSampleCount == s.collectedSampleCount && s'.droppedSampleCount == s.droppedSampleCount
      invariant attempt <= next
      invariant ok <==> AllSucceed(alloc, attempt, next)
      invariant ok ==> RubyFramesLocated(s', stack, sample, frames, j)
      invariant ok ==> IndicesBelow(stack, |s'.locations|)
    {
      var f := RubyFunction(frames(sample.cmes.value[j]));
      var r := FrameIndexFor(s', f, sample.linenos.value[j], 0, alloc, next);
      AllSucceedSplit(alloc, attempt, next, r.attempt);
      if r.ok {
        RubyFramesGrow(s', r.session, stack, sample, frames, j, r.index);
        stack := stack + [r.index];
        j := j + 1;
      }
      ok := r.ok;
      s' := r.session;
      next := r.attempt;
    }
  }

  /** The native half of indexing a sample: allocate the native stack array
      (when the native depth is positive), then index every program counter
      as a native frame at line 0. */
  method IndexNativeFrames(s: Session, sample: Sample, symbols: int -> Option<SymInfo>, alloc: nat -> bool, attempt: nat)
    returns (s': Session, next: nat, ok: bool, nativeStack: seq<nat>)
    requires Valid(s) && Readable(sample)
    ensures Valid(s') && Extends(s, s') && s'.samples == s.samples
    ensures s'.collectedSampleCount == s.collectedSampleCount && s'.droppedSampleCount == s.droppedSampleCount
    ensures attempt <= next
    ensures ok <==> AllSucceed(alloc, attempt, next)
    ensures ok ==> NativeFramesLocated(s', nativeStack, sample, symbols, sample.nativeStackDepth)
    ensures ok ==> IndicesBelow(nativeStack, |s'.locations|)
  {
    s' := s;
    next := attempt;
    ok := true;
    nativeStack := [];
    if sample.nativeStackDepth == 0 {
      return;
    }
    ok := alloc(next);
    next := next + 1;
    var j := 0;
    while ok && j < sample.nativeStackDepth
      invariant 0 <= j <= sample.nativeStackDepth
      invariant Valid(s') && Extends(s, s') && s'.samples == s.samples
      invariant s'.collectedSampleCount == s.collectedSampleCount && s'.droppedSampleCount == s.droppedSampleCount
      invariant attempt <= next
      invariant ok <==> AllSucceed(alloc, attempt, next)
      invariant ok ==> NativeFramesLocated(s', nativeStack, sample, symbols, j)
      invariant ok ==> IndicesBelow(nativeStack, |s'.locations|)
    {
      var f := NativeFunction(symbols(sample.nativeStack.value[j]));
      var r := FrameIndexFor(s', f, 0, 0, alloc, next);
      AllSucceedSplit(alloc, attempt, next, r.attempt);
      if r.ok {
        NativeFramesGrow(s', r.session, nativeStack, sample, symbols, j, r.index);
        nativeStack := nativeStack + [r.index];
        j := j + 1;
      }
      ok := r.ok;
      s' := r.session;
      next := r.attempt;
    }
  }

  /** Located Ruby frames stay located as the tables grow. */
  lemma RubyFramesStable(s: Session, s': Session, stack: seq<nat>, sample: Sample, frames: int -> FrameMeta, n: nat)
    requires Extends(s, s') && Readable(sample) && n <= RubyDepth(sample)
    requires RubyFramesLocated(s, stack, sample, frames, n)
    ensures RubyFramesLocated(s', stack, sample, frames, n)
  {
    forall j | 0 <= j < n
      ensures LocatesFrame(s', stack[j], RubyFunction(frames(sample.cmes.value[j])), sample.linenos.value[j])
    {
      LocatesFrameStable(s, s', stack[j], RubyFunction(frames(sample.cmes.value[j])), sample.linenos.value[j]);
    }
  }

  /** Located native frames stay located as the tables grow. */
  lemma NativeFramesStable(s: Session, s': Session, stack: seq<nat>, sample: Sample, symbols: int -> Option<SymInfo>, n: nat)
    requires Extends(s, s') && Readable(sample) && n <= sample.nativeStackDepth
    requires NativeFramesLocated(s, stack, sample, symbols, n)
    ensures NativeFramesLocated(s', stack, sample, symbols, n)
  {
    forall j | 0 <= j < n
      ensures LocatesFrame(s', stack[j], NativeFunction(symbols(sample.nativeStack.value[j])), 0)
    {
      LocatesFrameStable(s, s', stack[j], NativeFunction(symbols(sample.nativeStack.value[j])), 0);
    }
  }

  /** Ruby frame `n`, located in the grown tables, extends the located
      prefix by one. */
  lemma RubyFramesGrow(s: Session, s': Session, stack: seq<nat>, sample: Sample, frames: int -> FrameMeta, n: nat, index: nat)
    requires Extends(s, s') && Readable(sample) && n < RubyDepth(sample)
    requires RubyFramesLocated(s, stack, sample, frames, n) && IndicesBelow(stack, |s.locations|)
    requires LocatesFrame(s', index, RubyFunction(frames(sample.cmes.value[n])), sample.linenos.value[n])
    requires index < |s'.locations|
    ensures RubyFramesLocated(s', stack + [index], sample, frames, n + 1)
    ensures IndicesBelow(stack + [index], |s'.locations|)
  {
    RubyFramesStable(s, s', stack, sample, frames, n);
  }

  /** Native frame `n`, located in the grown tables, extends the located
      prefix by one. */
  lemma NativeFramesGrow(s: Session, s': Session, stack: seq<nat>, sample: Sample, symbols: int -> Option<SymInfo>, n: nat, index: nat)
    requires Extends(s, s') && Readable(sample) && n < sample.nativeStackDepth
    requires NativeFramesLocated(s, stack, sample, symbols, n) && IndicesBelow(stack, |s.locations|)
    requires LocatesFrame(s', index, NativeFunction(symbols(sample.nativeStack.value[n])), 0)
    requires index < |s'.locations|
    ensures NativeFramesLocated(s', stack + [index], sample, symbols, n + 1)
    ensures IndicesBelow(stack + [index], |s'.locations|)
  {
    NativeFramesStable(s, s', stack, sample, symbols, n);
  }

  /** The outcome of storing an indexed sample. */
  datatype StoreOutcome = StoreOutcome(ok: bool, session: Session, attempt: nat)

  /** The last step of the loop body: merge the sample into an equal stored
      one, or grow the sample array if needed and append it. Only the growth
      can fail, and then the sample list is unchanged. */
  function StoreSample(s: Session, built: SerSample, alloc: nat -> bool, attempt: nat): (r: StoreOutcome)
    requires Valid(s) && IndicesBelow(built.stack, |s.locations|) && IndicesBelow(built.nativeStack, |s.locations|)
    requires built.count == 1
    ensures Valid(r.session) && Extends(s, r.session)
    ensures r.session.functions == s.functions && r.session.locations == s.locations
    ensures r.session.collectedSampleCount == s.collectedSampleCount
    ensures r.session.droppedSampleCount == s.droppedSampleCount
    ensures attempt <= r.attempt
    ensures r.ok <==> AllSucceed(alloc, attempt, r.attempt)
    ensures r.ok ==> r.session.samples == Aggregate(s.samples, built)
    ensures r.ok ==> TotalCount(r.session.samples) == TotalCount(s.samples) + 1
    ensures !r.ok ==> r.session.samples == s.samples
  {
    AggregateKeepsDistinct(s.samples, built);
    AggregateCountsOnce(s.samples, built);
    AggregateIndicesBelow(s.samples, built, |s.locations|);
    match FindSampleByRubyStack(s.samples, built)
    case Some(i) =>
      WithSamplesValid(s, Aggregate(s.samples, built), s.samplesCapacity);
      StoreOutcome(true, s.(samples := Aggregate(s.samples, built)), attempt)
    case None =>
      var g := EnsureCapacity(|s.samples|, s.samplesCapacity, alloc, attempt);
      if !g.ok then
        WithSamplesValid(s, s.samples, g.capacity);
        StoreOutcome(false, s.(samplesCapacity := g.capacity), g.attempt)
      else
        WithSamplesValid(s, Aggregate(s.samples, built), g.capacity);
        StoreOutcome(true, s.(samples := Aggregate(s.samples, built), samplesCapacity := g.capacity), g.attempt)
  }

  /** Replacing the samples by valid ones, within a capacity, keeps the
      session valid. */
  lemma WithSamplesValid(s: Session, samples: seq<SerSample>, capacity: nat)
    requires Valid(s) && |samples| <= capacity && DistinctStacks(samples)
    requires forall i :: 0 <= i < |samples| ==>
      IndicesBelow(samples[i].stack, |s.locations|) && IndicesBelow(samples[i].nativeStack, |s.locations|)
    ensures Valid(s.(samples := samples, samplesCapacity := capacity))
  {
  }

  /** Aggregating a sample whose indices are valid keeps every stored
      sample's indices valid. */
  lemma AggregateIndicesBelow(samples: seq<SerSample>, built: SerSample, n: nat)
    requires forall i :: 0 <= i < |samples| ==> IndicesBelow(samples[i].stack, n) && IndicesBelow(samples[i].nativeStack, n)
    requires IndicesBelow(built.stack, n) && IndicesBelow(built.nativeStack, n)
    ensures var r := Aggregate(samples, built);
      forall i :: 0 <= i < |r| ==> IndicesBelow(r[i].stack, n) && IndicesBelow(r[i].nativeStack, n)
  {
  }

  /** Index both stacks of a popped sample: the thread, the elapsed time,
      count 1, and a location for every Ruby and native frame. It succeeds
      exactly when every allocation succeeded. */
  method IndexSample(s: Session, sample: Sample, frames: int -> FrameMeta, symbols: int -> Option<SymInfo>,
                     alloc: nat -> bool, attempt: nat)
    returns (s': Session, next: nat, ok: bool, built: SerSample)
    requires Valid(s) && Readable(sample)
    ensures Valid(s') && Extends(s, s') && s'.samples == s.samples
    ensures s'.collectedSampleCount == s.collectedSampleCount && s'.droppedSampleCount == s.droppedSampleCount
    ensures attempt <= next
    ensures ok <==> AllSucceed(alloc, attempt, next)
    ensures built.rubyThreadId == sample.contextPthread % U64
    ensures built.elapsedNs == (sample.timestampNs - s.startTimeNs) % U64
    ensures built.count == 1
    ensures ok ==> RubyFramesLocated(s', built.stack, sample, frames, RubyDepth(sample))
    ensures ok ==> NativeFramesLocated(s', built.nativeStack, sample, symbols, sample.nativeStackDepth)
    ensures ok ==> IndicesBelow(built.stack, |s'.locations|) && IndicesBelow(built.nativeStack, |s'.locations|)
  {
    var threadId := sample.contextPthread % U64;
    var elapsed := (sample.timestampNs - s.startTimeNs) % U64;
    built := SerSample([], [], threadId, elapsed, 1);
    var rubyDone, afterRuby, rubyOk, stack := IndexRubyFrames(s, sample, frames, alloc, attempt);
    if !rubyOk {
      s', next, ok := rubyDone, afterRuby, false;
      return;
    }
    var nativeStack;
    s', next, ok, nativeStack := IndexNativeFrames(rubyDone, sample, symbols, alloc, afterRuby);
    AllSucceedSplit(alloc, attempt, afterRuby, next);
    if ok {
      RubyFramesStable(rubyDone, s', stack, sample, frames, RubyDepth(sample));
      built := SerSample(stack, nativeStack, threadId, elapsed, 1);
    }
  }

  /** The body of the `drain_ringbuffer` loop for one popped sample. The
      sample is collected exactly when every allocation it needed succeeded;
      then `built` is the indexed sample: the thread, the time since the
      session started (as `uint64_t`), count 1, and the location of every
      Ruby frame (at its line) and every native frame (at line 0). It is
      merged into an equal stored sample or appended. A dropped sample leaves
      the sample list alone, though functions and locations indexed before
      the failure stay. */
  method DrainSample(s: Session, sample: Sample, frames: int -> FrameMeta, symbols: int -> Option<SymInfo>,
                     alloc: nat -> bool, attempt: nat)
    returns (s': Session, next: nat, built: SerSample)
    requires Valid(s) && Readable(sample)
    ensures Valid(s') && Extends(s, s')
    ensures attempt <= next
    ensures Collected(s, s') || Dropped(s, s')
    ensures Collected(s, s') <==> AllSucceed(alloc, attempt, next)
    ensures Dropped(s, s') ==> s'.samples == s.samples
    ensures TotalCount(s'.samples) + s.collectedSampleCount == TotalCount(s.samples) + s'.collectedSampleCount
    ensures Collected(s, s') ==>
      && built.rubyThreadId == sample.contextPthread % U64
      && built.elapsedNs == (sample.timestampNs - s.startTimeNs) % U64
      && built.count == 1
      && RubyFramesLocated(s', built.stack, sample, frames, RubyDepth(sample))
      && NativeFramesLocated(s', built.nativeStack, sample, symbols, sample.nativeStackDepth)
      && s'.samples == Aggregate(s.samples, built)
  {
    var indexed, afterIndex, ok;
    indexed, afterIndex, ok, built := IndexSample(s, sample, frames, symbols, alloc, attempt);
    if !ok {
      s', next := Counted(s, indexed, false), afterIndex;
      return;
    }
    var stored := StoreSample(indexed, built, alloc, afterIndex);
    AllSucceedSplit(alloc, attempt, afterIndex, stored.attempt);
    next := stored.attempt;
    s' := Counted(s, stored.session, stored.ok);
  }

  /** `t` with the counters of `s`, one of them bumped: the collected one
      when the sample was stored, the dropped one otherwise. Only the
      counters change. */
  function Counted(s: Session, t: Session, collected: bool): (r: Session)
    requires Valid(t) && Extends(s, t)
    ensures Valid(r) && Extends(s, r)
    ensures r.samples == t.samples && r.functions == t.functions && r.locations == t.locations
    ensures collected ==> Collected(s, r)
    ensures !collected ==> Dropped(s, r)
  {
    if collected then t.(collectedSampleCount := s.collectedSampleCount + 1, droppedSampleCount := s.droppedSampleCount)
    else t.(collectedSampleCount := s.collectedSampleCount, droppedSampleCount := s.droppedSampleCount + 1)
  }

  /** `drain_ringbuffer`: pop every committed sample and index it. The queue
      ends empty, and every popped sample is counted exactly once, as
      collected or as dropped. */
  method DrainRingbuffer(s: Session, rb: Pf2Ringbuffer.Ringbuffer, frames: int -> FrameMeta,
                         symbols: int -> Option<SymInfo>, alloc: nat -> bool, attempt: nat)
    returns (s': Session, rb': Pf2Ringbuffer.Ringbuffer, next: nat)
    requires Valid(s) && Pf2Ringbuffer.Valid(rb)
    requires forall i :: 0 <= i < |Pf2Ringbuffer.Items(rb)| ==> Readable(Pf2Ringbuffer.Items(rb)[i])
    ensures Valid(s') && Extends(s, s')
    ensures Pf2Ringbuffer.Valid(rb') && Pf2Ringbuffer.Items(rb') == []
    ensures rb'.size == rb.size && rb'.samples == rb.samples
    ensures s'.collectedSampleCount + s'.droppedSampleCount
         == s.collectedSampleCount + s.droppedSampleCount + |Pf2Ringbuffer.Items(rb)|
    ensures s'.collectedSampleCount >= s.collectedSampleCount && s'.droppedSampleCount >= s.droppedSampleCount
    ensures TotalCount(s'.samples) + s.collectedSampleCount == TotalCount(s.samples) + s'.collectedSampleCount
  {
    s' := s;
    rb' := rb;
    next := attempt;
    var popped := 0;
    while true
      invariant Valid(s') && Extends(s, s')
      invariant Pf2Ringbuffer.Valid(rb') && rb'.size == rb.size && rb'.samples == rb.samples
      invariant popped + |Pf2Ringbuffer.Items(rb')| == |Pf2Ringbuffer.Items(rb)|
      invariant Pf2Ringbuffer.Items(rb') == Pf2Ringbuffer.Items(rb)[popped..]
      invariant s'.collectedSampleCount + s'.droppedSampleCount == s.collectedSampleCount + s.droppedSampleCount + popped
      invariant s'.collectedSampleCount >= s.collectedSampleCount && s'.droppedSampleCount >= s.droppedSampleCount
      invariant TotalCount(s'.samples) + s.collectedSampleCount == TotalCount(s.samples) + s'.collectedSampleCount
      decreases |Pf2Ringbuffer.Items(rb')|
    {
      var popResult := Pf2Ringbuffer.Pop(rb');
      if popResult.None? {
        break;
      }
      var sample := popResult.value.0;
      assert sample == Pf2Ringbuffer.Items(rb)[popped];
      var built;
      s', next, built := DrainSample(s', sample, frames, symbols, alloc, next);
      rb' := popResult.value.1;
      popped := popped + 1;
    }
  }

  /** The drop logic of `sigprof_handler`. A sample is dropped (and counted
      as dropped) while the garbage collector is marking, when the capture
      failed, or when the queue is full; otherwise it joins the end of the
      queue and no counter changes. */
  function SigprofHandler(s: Session, rb: Pf2Ringbuffer.Ringbuffer, isMarking: bool, captureOk: bool, sample: Sample)
    : (r: (Session, Pf2Ringbuffer.Ringbuffer))
    requires Pf2Ringbuffer.Valid(rb)
    ensures Pf2Ringbuffer.Valid(r.1) && r.1.size == rb.size
    ensures var accepted := !isMarking && captureOk && |Pf2Ringbuffer.Items(rb)| < rb.size - 1;
      && (accepted ==> r.0 == s && Pf2Ringbuffer.Items(r.1) == Pf2Ringbuffer.Items(rb) + [sample])
      && (!accepted ==> r.0 == s.(droppedSampleCount := s.droppedSampleCount + 1) && r.1 == rb)
  {
    if isMarking then (s.(droppedSampleCount := s.droppedSampleCount + 1), rb)
    else if !captureOk then (s.(droppedSampleCount := s.droppedSampleCount + 1), rb)
    else
      match Pf2Ringbuffer.Produce(rb, sample)
      case None => (s.(droppedSampleCount := s.droppedSampleCount + 1), rb)
      case Some(rb') => (s, rb')
  }
}
