/** The prototype's serializer (`ext/pf2c/serializer.c`). Unlike the C
    extension's, it owns its tables and builds them itself while it walks
    the session's samples: functions and locations are deduplicated by a
    linear search, and every sample becomes one entry. Frame metadata and
    symbol lookup are parameters; `realloc` is taken to succeed, as the
    source never checks it. */
module PrototypeSerializer {
  import opened Wrappers
  import opened IndexedMaps
  import opened RubyValue
  import opened SampleCapture
  import Pf2Session
  import Pf2Serializer

  /** Frames a prototype sample has room for (`struct pf2_sample`). */
  const MaxFrames: nat := 200

  /** `struct pf2_sample` of the prototype: fixed arrays of 200 entries, of
      which the first `depth` (Ruby) and `nativeStackDepth` (native) count. */
  datatype ProtoSample = ProtoSample(
    depth: int,
    cmes: seq<int>,
    linenos: seq<int>,
    nativeStackDepth: nat,
    nativeStack: seq<int>,
    consumedTimeNs: nat,
    timestampNs: nat)

  /** A sample as the capture leaves it: full arrays, depths within them. */
  predicate WellFormed(sample: ProtoSample) {
    && |sample.cmes| == MaxFrames && |sample.linenos| == MaxFrames && |sample.nativeStack| == MaxFrames
    && 0 <= sample.depth <= MaxFrames && sample.nativeStackDepth <= MaxFrames
  }

  /** What `pf2_ser_prepare` reads from the session: both start clocks,
      the duration, and `samples[0..samples_index)`. */
  datatype SessionView = SessionView(
    realtimeSec: nat,
    realtimeNsec: nat,
    monotonicSec: nat,
    monotonicNsec: nat,
    durationNs: nat,
    samples: seq<ProtoSample>)

  /** `struct pf2_ser_sample`: a `NULL` native stack is `None`. */
  datatype ProtoSerSample = ProtoSerSample(
    rubyThreadId: nat,
    elapsedNs: nat,
    stack: seq<nat>,
    nativeStack: Option<seq<nat>>)

  datatype Ser = Ser(
    startTimestampNs: nat,
    durationNs: nat,
    samples: seq<ProtoSerSample>,
    samplesCapacity: nat,
    locations: seq<Pf2Session.SerLocation>,
    locationsCapacity: nat,
    functions: seq<SerFunction>,
    functionsCapacity: nat)

  /** `pf2_ser_new`: `NULL` if the header cannot be allocated, otherwise
      everything zero and empty. */
  function New(allocOk: bool): (r: Option<Ser>)
    ensures r.None? <==> !allocOk
    ensures r.Some? ==> && r.value.samples == [] && r.value.locations == [] && r.value.functions == []
                        && r.value.samplesCapacity == 0 && r.value.locationsCapacity == 0 && r.value.functionsCapacity == 0
                        && r.value.startTimestampNs == 0 && r.value.durationNs == 0
  {
    if allocOk then Some(Ser(0, 0, [], 0, [], 0, [], 0)) else None
  }

  /** `pf2_ser_free`: the prototype always owns its tables, so every
      sample's two stacks, every function's two strings and the three
      arrays are released, then the header. */
  function Free(ser: Ser): (freed: seq<Pf2Serializer.Block>)
    ensures |freed| == 2 * |ser.samples| + 2 * |ser.functions| + 4
    ensures freed[|freed| - 1] == Pf2Serializer.Header
    ensures forall i :: 0 <= i < |ser.samples| ==>
      freed[2 * i] == Pf2Serializer.SampleStack(i) && freed[2 * i + 1] == Pf2Serializer.SampleNativeStack(i)
    ensures forall i :: 0 <= i < |ser.functions| ==>
      var base := 2 * |ser.samples| + 1;
      freed[base + 2 * i] == Pf2Serializer.FunctionName(i) && freed[base + 2 * i + 1] == Pf2Serializer.FunctionFilename(i)
  {
    Pf2Serializer.OwnedBlocks(|ser.samples|, |ser.functions|) + [Pf2Serializer.Header]
  }

  /** `ensure_*_capacity`: grow to 16, or double, once the count has
      reached the capacity. */
  function Grow(count: nat, capacity: nat): (r: nat)
    ensures capacity <= r
    ensures count < capacity ==> r == capacity
    ensures count <= capacity ==> count < r
  {
    if count >= capacity then (if capacity == 0 then 16 else capacity * 2) else capacity
  }

  /** The prototype's notion of "the same function": equal names, equal
      filenames (`NULL` only equals `NULL`) and equal start lines. The
      implementation and the start address are not compared. */
  predicate SameFunction(a: SerFunction, b: SerFunction) {
    SameString(a.name, b.name) && SameString(a.filename, b.filename) && a.startLineno == b.startLineno
  }

  /** The nested test in `function_index_for`. */
  function FunctionMatches(existing: SerFunction, f: SerFunction): (m: bool)
    ensures m <==> SameFunction(existing, f)
  {
    if StrEqual(existing.name, f.name) then
      if StrEqual(existing.filename, f.filename) then existing.startLineno == f.startLineno
      else false
    else false
  }

  /** The linear search of `function_index_for` from position `i`. */
  function FindFunction(functions: seq<SerFunction>, f: SerFunction, i: nat): (r: Option<nat>)
    requires i <= |functions|
    ensures r.Some? ==> i <= r.value < |functions| && SameFunction(functions[r.value], f)
                        && forall k :: i <= k < r.value ==> !SameFunction(functions[k], f)
    ensures r.None? ==> forall k :: i <= k < |functions| ==> !SameFunction(functions[k], f)
    decreases |functions| - i
  {
    if i == |functions| then None
    else if FunctionMatches(functions[i], f) then Some(i)
    else FindFunction(functions, f, i + 1)
  }

  /** The linear search of `location_index_for` from position `i`. */
  function FindLocation(locations: seq<Pf2Session.SerLocation>, functionIndex: nat, lineno: int, i: nat): (r: Option<nat>)
    requires i <= |locations|
    ensures r.Some? ==> && i <= r.value < |locations|
                        && locations[r.value].functionIndex == functionIndex && locations[r.value].lineno == lineno
                        && forall k :: i <= k < r.value ==> !(locations[k].functionIndex == functionIndex && locations[k].lineno == lineno)
    ensures r.None? ==> forall k :: i <= k < |locations| ==> !(locations[k].functionIndex == functionIndex && locations[k].lineno == lineno)
    decreases |locations| - i
  {
    if i == |locations| then None
    else if locations[i].functionIndex == functionIndex && locations[i].lineno == lineno then Some(i)
    else FindLocation(locations, functionIndex, lineno, i + 1)
  }

  /** Every stored index points into its table. */
  predicate Below(indices: seq<nat>, bound: nat) {
    forall j :: 0 <= j < |indices| ==> indices[j] < bound
  }

  /** The tables fit their capacities, and every index resolves. */
  predicate Valid(ser: Ser) {
    && |ser.samples| <= ser.samplesCapacity
    && |ser.locations| <= ser.locationsCapacity
    && |ser.functions| <= ser.functionsCapacity
    && (forall i :: 0 <= i < |ser.locations| ==> ser.locations[i].functionIndex < |ser.functions|)
    && (forall i :: 0 <= i < |ser.samples| ==>
          && Below(ser.samples[i].stack, |ser.locations|)
          && (ser.samples[i].nativeStack.Some? ==> Below(ser.samples[i].nativeStack.value, |ser.locations|)))
  }

  /** `ser'` only appended to the tables of `ser`. */
  predicate Extends(ser: Ser, ser': Ser) {
    && ser'.startTimestampNs == ser.startTimestampNs && ser'.durationNs == ser.durationNs
    && |ser.samples| <= |ser'.samples| && ser'.samples[..|ser.samples|] == ser.samples
    && |ser.locations| <= |ser'.locations| && ser'.locations[..|ser.locations|] == ser.locations
    && |ser.functions| <= |ser'.functions| && ser'.functions[..|ser.functions|] == ser.functions
  }

  /** No two functions of the table are the same function. */
  predicate DistinctFunctions(functions: seq<SerFunction>) {
    forall a, b :: 0 <= a < b < |functions| ==> !SameFunction(functions[a], functions[b])
  }

  /** No two locations share function index and line. */
  predicate DistinctLocations(locations: seq<Pf2Session.SerLocation>) {
    forall a, b :: 0 <= a < b < |locations| ==>
      !(locations[a].functionIndex == locations[b].functionIndex && locations[a].lineno == locations[b].lineno)
  }

  /** `function_index_for`: the first stored function that is the same
      function, with nothing changed; otherwise `f` appended at the end. */
  function FunctionIndexFor(ser: Ser, f: SerFunction): (r: (nat, Ser))
    requires Valid(ser)
    ensures Valid(r.1) && Extends(ser, r.1)
    ensures r.1.samples == ser.samples && r.1.locations == ser.locations
    ensures r.0 < |r.1.functions| && SameFunction(r.1.functions[r.0], f)
    ensures (exists k :: 0 <= k < |ser.functions| && SameFunction(ser.functions[k], f)) ==>
      && r.1 == ser
      && forall k :: 0 <= k < r.0 ==> !SameFunction(ser.functions[k], f)
    ensures (forall k :: 0 <= k < |ser.functions| ==> !SameFunction(ser.functions[k], f)) ==>
      && r.0 == |ser.functions|
      && r.1.functions == ser.functions + [f]
      && r.1.functionsCapacity == Grow(|ser.functions|, ser.functionsCapacity)
  {
    match FindFunction(ser.functions, f, 0)
    case Some(i) => (i, ser)
    case None =>
      var ser' := ser.(functions := ser.functions + [f],
                       functionsCapacity := Grow(|ser.functions|, ser.functionsCapacity));
      assert SameString(f.name, f.name) && SameString(f.filename, f.filename);
      (|ser.functions|, ser')
  }

  /** `location_index_for`: the first location with this function index
      and line, with nothing changed; otherwise a new location with
      address 0 appended at the end. */
  function LocationIndexFor(ser: Ser, functionIndex: nat, lineno: int): (r: (nat, Ser))
    requires Valid(ser) && functionIndex < |ser.functions|
    ensures Valid(r.1) && Extends(ser, r.1)
    ensures r.1.samples == ser.samples && r.1.functions == ser.functions
    ensures r.0 < |r.1.locations|
    ensures r.1.locations[r.0].functionIndex == functionIndex && r.1.locations[r.0].lineno == lineno
    ensures (exists k :: 0 <= k < |ser.locations| && ser.locations[k].functionIndex == functionIndex && ser.locations[k].lineno == lineno) ==>
      r.1 == ser
    ensures (forall k :: 0 <= k < |ser.locations| ==> !(ser.locations[k].functionIndex == functionIndex && ser.locations[k].lineno == lineno)) ==>
      && r.0 == |ser.locations|
      && r.1.locations == ser.locations + [Pf2Session.SerLocation(functionIndex, lineno, 0)]
      && r.1.locationsCapacity == Grow(|ser.locations|, ser.locationsCapacity)
  {
    match FindLocation(ser.locations, functionIndex, lineno, 0)
    case Some(i) => (i, ser)
    case None =>
      var ser' := ser.(locations := ser.locations + [Pf2Session.SerLocation(functionIndex, lineno, 0)],
                       locationsCapacity := Grow(|ser.locations|, ser.locationsCapacity));
      assert forall i :: 0 <= i < |ser.samples| ==> ser'.samples[i] == ser.samples[i];
      (|ser.locations|, ser')
  }

  /** The lookups never store a duplicate: a table without two entries
      for the same function (or the same function index and line) keeps
      that property. */
  lemma LookupsKeepTablesDistinct(ser: Ser, f: SerFunction, functionIndex: nat, lineno: int)
    requires Valid(ser) && DistinctFunctions(ser.functions) && DistinctLocations(ser.locations)
    requires functionIndex < |ser.functions|
    ensures DistinctFunctions(FunctionIndexFor(ser, f).1.functions)
    ensures DistinctLocations(LocationIndexFor(ser, functionIndex, lineno).1.locations)
  {
  }

  /** Looking a function up twice gives the same index, and the second
      lookup changes nothing. */
  lemma {:induction false} FunctionIndexForIdempotent(ser: Ser, f: SerFunction)
    requires Valid(ser)
    ensures var (i, ser') := FunctionIndexFor(ser, f);
      FunctionIndexFor(ser', f) == (i, ser')
  {
    var (i, ser') := FunctionIndexFor(ser, f);
    assert SameFunction(ser'.functions[i], f);
  }

  /** Because neither the implementation nor the start address takes part,
      a native function whose symbol is found is folded into a function with
      the same name, no filename and start line 0, whatever its address. */
  lemma NativeFunctionsMergeByName(ser: Ser, f: SerFunction, g: SerFunction)
    requires Valid(ser)
    requires f.name == g.name && f.filename == g.filename && f.startLineno == g.startLineno
    requires f.implementation == Ruby && g.implementation == Native && f.startAddress != g.startAddress
    ensures var (i, ser') := FunctionIndexFor(ser, f);
      FunctionIndexFor(ser', g) == (i, ser')
  {
    var (i, ser') := FunctionIndexFor(ser, f);
    assert SameFunction(ser'.functions[i], g);
  }

  /** Location `li` of `ser` stands for `f` at line `lineno`. */
  predicate Locates(ser: Ser, li: nat, f: SerFunction, lineno: int) {
    && li < |ser.locations|
    && ser.locations[li].lineno == lineno
    && ser.locations[li].functionIndex < |ser.functions|
    && SameFunction(ser.functions[ser.locations[li].functionIndex], f)
  }

  /** `stack[j]` locates frame `j`, for every frame. */
  predicate AllLocated(ser: Ser, stack: seq<nat>, fns: seq<SerFunction>, linenos: seq<int>)
    requires |fns| == |linenos|
  {
    |stack| == |fns| && forall j :: 0 <= j < |stack| ==> Locates(ser, stack[j], fns[j], linenos[j])
  }

  lemma {:induction false} AllLocatedStable(ser: Ser, ser': Ser, stack: seq<nat>, fns: seq<SerFunction>, linenos: seq<int>)
    requires Extends(ser, ser') && |fns| == |linenos| && AllLocated(ser, stack, fns, linenos)
    ensures AllLocated(ser', stack, fns, linenos)
  {
    forall j | 0 <= j < |stack|
      ensures Locates(ser', stack[j], fns[j], linenos[j])
    {
      var li := stack[j];
      assert ser'.locations[li] == ser.locations[li];
      assert ser'.functions[ser.locations[li].functionIndex] == ser.functions[ser.locations[li].functionIndex];
    }
  }

  /** One frame of the loop: the function looked up or appended, then the
      location of that function at the frame's line. */
  function IndexFrame(ser: Ser, f: SerFunction, lineno: int): (r: (nat, Ser))
    requires Valid(ser)
    ensures Valid(r.1) && Extends(ser, r.1) && r.1.samples == ser.samples
    ensures Locates(r.1, r.0, f, lineno)
  {
    var (fi, s2) := FunctionIndexFor(ser, f);
    var (li, s3) := LocationIndexFor(s2, fi, lineno);
    assert s3.functions[fi] == s2.functions[fi];
    ExtendsTransitive(ser, s2, s3);
    (li, s3)
  }

  /** Appending twice is appending. */
  lemma ExtendsTransitive(a: Ser, b: Ser, c: Ser)
    requires Extends(a, b) && Extends(b, c)
    ensures Extends(a, c)
  {
    assert c.samples[..|a.samples|] == c.samples[..|b.samples|][..|a.samples|];
    assert c.locations[..|a.locations|] == c.locations[..|b.locations|][..|a.locations|];
    assert c.functions[..|a.functions|] == c.functions[..|b.functions|][..|a.functions|];
  }

  /** A located prefix of frames grows by one located frame. */
  lemma AllLocatedPush(ser: Ser, stack: seq<nat>, li: nat, fns: seq<SerFunction>, linenos: seq<int>, j: nat)
    requires j < |fns| == |linenos|
    requires AllLocated(ser, stack, fns[..j], linenos[..j]) && Locates(ser, li, fns[j], linenos[j])
    ensures AllLocated(ser, stack + [li], fns[..j + 1], linenos[..j + 1])
  {
    assert fns[..j + 1] == fns[..j] + [fns[j]] && linenos[..j + 1] == linenos[..j] + [linenos[j]];
  }

  /** The frame loop shared by the Ruby and the native half of
      `pf2_ser_prepare`: frames are looked up in order, function first,
      then location, and the location indices collected. */
  method IndexFrames(ser: Ser, fns: seq<SerFunction>, linenos: seq<int>) returns (ser': Ser, stack: seq<nat>)
    requires Valid(ser) && |fns| == |linenos|
    ensures Valid(ser') && Extends(ser, ser') && ser'.samples == ser.samples
    ensures AllLocated(ser', stack, fns, linenos)
  {
    ser' := ser;
    stack := [];
    var j := 0;
    while j < |fns|
      invariant 0 <= j <= |fns|
      invariant Valid(ser') && Extends(ser, ser') && ser'.samples == ser.samples
      invariant AllLocated(ser', stack, fns[..j], linenos[..j])
    {
      var (li, s3) := IndexFrame(ser', fns[j], linenos[j]);
      ExtendsTransitive(ser, ser', s3);
      AllLocatedStable(ser', s3, stack, fns[..j], linenos[..j]);
      AllLocatedPush(s3, stack, li, fns, linenos, j);
      ser', stack, j := s3, stack + [li], j + 1;
    }
    assert fns[..j] == fns && linenos[..j] == linenos;
  }

  /** The functions of the Ruby frames of a sample. */
  function RubyFunctions(sample: ProtoSample, frames: int -> Pf2Session.FrameMeta): (fns: seq<SerFunction>)
    requires WellFormed(sample)
    ensures |fns| == sample.depth
    ensures forall j :: 0 <= j < sample.depth ==> fns[j] == Pf2Session.RubyFunction(frames(sample.cmes[j]))
  {
    seq(sample.depth, j requires 0 <= j < sample.depth => Pf2Session.RubyFunction(frames(sample.cmes[j])))
  }

  /** The functions of the native frames of a sample. */
  function NativeFunctions(sample: ProtoSample, symbols: int -> Option<Pf2Session.SymInfo>): (fns: seq<SerFunction>)
    requires WellFormed(sample)
    ensures |fns| == sample.nativeStackDepth
    ensures forall j :: 0 <= j < sample.nativeStackDepth ==> fns[j] == Pf2Session.NativeFunction(symbols(sample.nativeStack[j]))
  {
    seq(sample.nativeStackDepth, j requires 0 <= j < sample.nativeStackDepth => Pf2Session.NativeFunction(symbols(sample.nativeStack[j])))
  }

  /** Native locations always use line 0. */
  function Zeros(n: nat): (z: seq<int>)
    ensures |z| == n && forall j :: 0 <= j < n ==> z[j] == 0
  {
    seq(n, j => 0)
  }

  /** `out` is the serialized form of `sample` in `ser`, with elapsed time
      measured from `base` in `uint64_t` arithmetic. */
  predicate Serializes(ser: Ser, out: ProtoSerSample, sample: ProtoSample, base: nat,
                       frames: int -> Pf2Session.FrameMeta, symbols: int -> Option<Pf2Session.SymInfo>)
    requires WellFormed(sample)
  {
    && out.rubyThreadId == 0
    && out.elapsedNs == Elapsed(sample.timestampNs, base)
    && AllLocated(ser, out.stack, RubyFunctions(sample, frames), sample.linenos[..sample.depth])
    && (out.nativeStack.None? <==> sample.nativeStackDepth == 0)
    && (out.nativeStack.Some? ==>
          AllLocated(ser, out.nativeStack.value, NativeFunctions(sample, symbols), Zeros(sample.nativeStackDepth)))
  }

  lemma SerializesStable(ser: Ser, ser': Ser, out: ProtoSerSample, sample: ProtoSample, base: nat,
                         frames: int -> Pf2Session.FrameMeta, symbols: int -> Option<Pf2Session.SymInfo>)
    requires Extends(ser, ser') && WellFormed(sample) && Serializes(ser, out, sample, base, frames, symbols)
    ensures Serializes(ser', out, sample, base, frames, symbols)
  {
    AllLocatedStable(ser, ser', out.stack, RubyFunctions(sample, frames), sample.linenos[..sample.depth]);
    if out.nativeStack.Some? {
      AllLocatedStable(ser, ser', out.nativeStack.value, NativeFunctions(sample, symbols), Zeros(sample.nativeStackDepth));
    }
  }

  /** The two frame loops of one sample: Ruby frames, then native frames
      if there are any (`NULL` otherwise). */
  method IndexSampleFrames(ser: Ser, sample: ProtoSample,
                           frames: int -> Pf2Session.FrameMeta, symbols: int -> Option<Pf2Session.SymInfo>)
    returns (ser': Ser, stack: seq<nat>, native: Option<seq<nat>>)
    requires Valid(ser) && WellFormed(sample)
    ensures Valid(ser') && Extends(ser, ser') && ser'.samples == ser.samples
    ensures AllLocated(ser', stack, RubyFunctions(sample, frames), sample.linenos[..sample.depth])
    ensures native.None? <==> sample.nativeStackDepth == 0
    ensures native.Some? ==> AllLocated(ser', native.value, NativeFunctions(sample, symbols), Zeros(sample.nativeStackDepth))
  {
    ser', stack := IndexFrames(ser, RubyFunctions(sample, frames), sample.linenos[..sample.depth]);
    native := None;
    if sample.nativeStackDepth > 0 {
      var s2, ns := IndexFrames(ser', NativeFunctions(sample, symbols), Zeros(sample.nativeStackDepth));
      AllLocatedStable(ser', s2, stack, RubyFunctions(sample, frames), sample.linenos[..sample.depth]);
      ser', native := s2, Some(ns);
    }
  }

  /** Storing one serialized sample whose indices resolve (after
      `ensure_samples_capacity`). */
  function AppendSample(ser: Ser, out: ProtoSerSample): (r: Ser)
    requires Valid(ser)
    requires Below(out.stack, |ser.locations|)
    requires out.nativeStack.Some? ==> Below(out.nativeStack.value, |ser.locations|)
    ensures Valid(r) && Extends(ser, r)
    ensures r.samples == ser.samples + [out] && r.locations == ser.locations && r.functions == ser.functions
  {
    var r := ser.(samples := ser.samples + [out], samplesCapacity := Grow(|ser.samples|, ser.samplesCapacity));
    assert forall i :: 0 <= i < |ser.samples| ==> r.samples[i] == ser.samples[i];
    r
  }

  /** A `uint64_t` time difference: `timestampNs - base` modulo 2^64. It
      is the true difference when the stamp is not before the base, and has
      wrapped around to near 2^64 when it is. */
  function Elapsed(timestampNs: nat, base: nat): (e: nat)
    ensures e < U64
    ensures base <= timestampNs < base + U64 ==> e == timestampNs - base
    ensures timestampNs < base <= timestampNs + U64 ==> e == U64 + timestampNs - base
  {
    (timestampNs - base) % U64
  }

  /** One iteration of the sample loop of `pf2_ser_prepare`. */
  method PrepareSample(ser: Ser, sample: ProtoSample, base: nat,
                       frames: int -> Pf2Session.FrameMeta, symbols: int -> Option<Pf2Session.SymInfo>)
    returns (r: Ser)
    requires Valid(ser) && WellFormed(sample)
    ensures Valid(r) && Extends(ser, r)
    ensures |r.samples| == |ser.samples| + 1
    ensures Serializes(r, r.samples[|ser.samples|], sample, base, frames, symbols)
  {
    var s1, stack, native := IndexSampleFrames(ser, sample, frames, symbols);
    var out := ProtoSerSample(0, Elapsed(sample.timestampNs, base), stack, native);
    r := AppendSample(s1, out);
    SerializesStable(s1, r, out, sample, base, frames, symbols);
  }

  /** A wall-clock or monotonic reading in nanoseconds, as `uint64_t`. */
  function Nanos(sec: nat, nsec: nat): (ns: nat)
    ensures ns < U64
    ensures sec * 1000000000 + nsec < U64 ==> ns == sec * 1000000000 + nsec
  {
    (sec * 1000000000 + nsec) % U64
  }

  /** Every sample of the session is well formed. */
  predicate SamplesWellFormed(session: SessionView) {
    forall i :: 0 <= i < |session.samples| ==> WellFormed(session.samples[i])
  }

  /** The loop of `pf2_ser_prepare`, with elapsed times measured from
      `base`, after the header fields are set. */
  method PrepareFrom(ser: Ser, session: SessionView, base: nat,
                     frames: int -> Pf2Session.FrameMeta, symbols: int -> Option<Pf2Session.SymInfo>)
    returns (r: Ser)
    requires Valid(ser) && SamplesWellFormed(session)
    ensures Valid(r)
    ensures r.startTimestampNs == Nanos(session.realtimeSec, session.realtimeNsec) && r.durationNs == session.durationNs
    ensures |r.samples| == |ser.samples| + |session.samples| && r.samples[..|ser.samples|] == ser.samples
    ensures forall i :: 0 <= i < |session.samples| ==>
      Serializes(r, r.samples[|ser.samples| + i], session.samples[i], base, frames, symbols)
  {
    var s0 := ser.(startTimestampNs := Nanos(session.realtimeSec, session.realtimeNsec), durationNs := session.durationNs);
    r := s0;
    var i := 0;
    while i < |session.samples|
      invariant 0 <= i <= |session.samples|
      invariant Valid(r) && Extends(s0, r) && |r.samples| == |ser.samples| + i
      invariant forall k :: 0 <= k < i ==> Serializes(r, r.samples[|ser.samples| + k], session.samples[k], base, frames, symbols)
    {
      var r' := PrepareSample(r, session.samples[i], base, frames, symbols);
      forall k | 0 <= k < i
        ensures Serializes(r', r'.samples[|ser.samples| + k], session.samples[k], base, frames, symbols)
      {
        assert r'.samples[|ser.samples| + k] == r.samples[|ser.samples| + k];
        SerializesStable(r, r', r.samples[|ser.samples| + k], session.samples[k], base, frames, symbols);
      }
      r, i := r', i + 1;
    }
  }

  /** `pf2_ser_prepare` as written: the start timestamp is the wall-clock
      start, and each sample's elapsed time is its monotonic stamp minus
      that wall-clock start. A stamp below the wall-clock start (the
      monotonic clock counts from boot, the wall clock from 1970) wraps
      around to nearly 2^64. Entries are appended to what the serializer
      already holds. */
  method Prepare(ser: Ser, session: SessionView,
                 frames: int -> Pf2Session.FrameMeta, symbols: int -> Option<Pf2Session.SymInfo>)
    returns (r: Ser)
    requires Valid(ser) && SamplesWellFormed(session)
    ensures Valid(r)
    ensures r.startTimestampNs == Nanos(session.realtimeSec, session.realtimeNsec) && r.durationNs == session.durationNs
    ensures |r.samples| == |ser.samples| + |session.samples| && r.samples[..|ser.samples|] == ser.samples
    ensures forall i :: 0 <= i < |session.samples| ==>
      Serializes(r, r.samples[|ser.samples| + i], session.samples[i], r.startTimestampNs, frames, symbols)
    ensures forall i :: 0 <= i < |session.samples| && session.samples[i].timestampNs < r.startTimestampNs ==>
      r.samples[|ser.samples| + i].elapsedNs == U64 + session.samples[i].timestampNs - r.startTimestampNs
  {
    r := PrepareFrom(ser, session, Nanos(session.realtimeSec, session.realtimeNsec), frames, symbols);
  }

  /** `pf2_ser_prepare` as evidently intended, as the C extension does it:
      the reported start is still the wall-clock start, but elapsed times
      are measured from the monotonic start, the clock the samples were
      stamped with, so a sample stamped `d` nanoseconds after the start
      reports `d`. */
  method PrepareIntended(ser: Ser, session: SessionView,
                         frames: int -> Pf2Session.FrameMeta, symbols: int -> Option<Pf2Session.SymInfo>)
    returns (r: Ser)
    requires Valid(ser) && SamplesWellFormed(session)
    ensures Valid(r)
    ensures r.startTimestampNs == Nanos(session.realtimeSec, session.realtimeNsec) && r.durationNs == session.durationNs
    ensures |r.samples| == |ser.samples| + |session.samples| && r.samples[..|ser.samples|] == ser.samples
    ensures forall i :: 0 <= i < |session.samples| ==>
      Serializes(r, r.samples[|ser.samples| + i], session.samples[i], Nanos(session.monotonicSec, session.monotonicNsec), frames, symbols)
    ensures forall i :: 0 <= i < |session.samples| && Nanos(session.monotonicSec, session.monotonicNsec) <= session.samples[i].timestampNs < U64 ==>
      r.samples[|ser.samples| + i].elapsedNs == session.samples[i].timestampNs - Nanos(session.monotonicSec, session.monotonicNsec)
  {
    r := PrepareFrom(ser, session, Nanos(session.monotonicSec, session.monotonicNsec), frames, symbols);
  }

  /** A session started at wall-clock second 1,700,000,000 and monotonic
      second 1000, with a sample one second later: measured from the
      monotonic start it is one second in; measured as written it is about
      1.6 * 10^19 ns in. */
  lemma ClockMixCounterexample()
    ensures var stamp := 1001 * 1000000000;
      && Elapsed(stamp, Nanos(1000, 0)) == 1000000000
      && Elapsed(stamp, Nanos(1700000000, 0)) == U64 + 1001000000000 - 1700000000000000000
      && Elapsed(stamp, Nanos(1700000000, 0)) > 16000000000000000000
  {
    assert Nanos(1700000000, 0) == 1700000000000000000;
    assert Nanos(1000, 0) == 1000000000000;
  }

  /** Measured from a common base, stamps taken in order within the clock's
      range report times in order, exactly as far apart. */
  lemma IntendedElapsedKeepsSpacing(base: nat, t1: nat, t2: nat)
    requires base <= t1 <= t2 < base + U64
    ensures Elapsed(t1, base) <= Elapsed(t2, base)
    ensures Elapsed(t2, base) - Elapsed(t1, base) == t2 - t1
  {
  }

  /** One element of the `samples` array: no `count`, the native stack as
      an empty array when it is `NULL`. */
  function SampleValue(s: ProtoSerSample): (v: RValue)
    ensures AsInts(Field(v, "stack").GetOr(Nil)) == Some(s.stack)
    ensures AsInts(Field(v, "native_stack").GetOr(Nil)) == Some(s.nativeStack.GetOr([]))
    ensures Field(v, "ruby_thread_id") == Some(if s.rubyThreadId == 0 then Nil else Int(s.rubyThreadId))
    ensures Field(v, "elapsed_ns") == Some(Int(s.elapsedNs))
  {
    IntArrayRoundTrip(s.stack);
    IntArrayRoundTrip(s.nativeStack.GetOr([]));
    var names := ["stack", "native_stack", "ruby_thread_id", "elapsed_ns"];
    var values := [IntArray(s.stack),
       IntArray(s.nativeStack.GetOr([])),
       if s.rubyThreadId != 0 then Int(s.rubyThreadId) else Nil,
       Int(s.elapsedNs)];
    var h := Record(names, values);
    assert Field(h, names[0]) == Some(values[0]);
    assert Field(h, names[1]) == Some(values[1]);
    assert Field(h, names[2]) == Some(values[2]);
    assert Field(h, names[3]) == Some(values[3]);
    h
  }

  /** `pf2_ser_to_ruby_hash` of the prototype: start and duration, then the
      three tables; locations and functions are rendered as in the C
      extension. */
  function ToRubyHash(ser: Ser): (h: RValue)
    ensures Field(h, "start_timestamp_ns") == Some(Int(ser.startTimestampNs))
    ensures Field(h, "duration_ns") == Some(Int(ser.durationNs))
    ensures Field(h, "samples") == Some(ArrayOf(ser.samples, SampleValue))
    ensures Field(h, "locations") == Some(ArrayOf(ser.locations, Pf2Serializer.LocationValue))
    ensures Field(h, "functions") == Some(ArrayOf(ser.functions, Pf2Serializer.FunctionValue))
  {
    var names := ["start_timestamp_ns", "duration_ns", "samples", "locations", "functions"];
    var values := [Int(ser.startTimestampNs),
       Int(ser.durationNs),
       ArrayOf(ser.samples, SampleValue),
       ArrayOf(ser.locations, Pf2Serializer.LocationValue),
       ArrayOf(ser.functions, Pf2Serializer.FunctionValue)];
    var h := Record(names, values);
    assert Field(h, names[0]) == Some(values[0]);
    assert Field(h, names[1]) == Some(values[1]);
    assert Field(h, names[2]) == Some(values[2]);
    assert Field(h, names[3]) == Some(values[3]);
    assert Field(h, names[4]) == Some(values[4]);
    h
  }

  /** A serialized sample of the prototype exports a `nil` thread id, its
      elapsed time, one stack entry per Ruby frame, and an empty native
      stack when there were no native frames. */
  lemma ExportedSampleReadsBack(ser: Ser, out: ProtoSerSample, sample: ProtoSample, base: nat,
                                frames: int -> Pf2Session.FrameMeta, symbols: int -> Option<Pf2Session.SymInfo>)
    requires WellFormed(sample) && Serializes(ser, out, sample, base, frames, symbols)
    ensures var v := SampleValue(out);
      && Field(v, "ruby_thread_id") == Some(Nil)
      && Field(v, "elapsed_ns") == Some(Int(Elapsed(sample.timestampNs, base)))
      && AsInts(Field(v, "stack").GetOr(Nil)).Some?
      && |AsInts(Field(v, "stack").GetOr(Nil)).value| == sample.depth
      && (sample.nativeStackDepth == 0 ==> AsInts(Field(v, "native_stack").GetOr(Nil)) == Some([]))
  {
  }
}
