/** `ProfileSerializer2` of the Rust extension
    (`ext/pf2/src/serialization/serializer.rs`): turns the collected Rust
    samples into a `SerializationProfile.Profile`, deduplicating functions
    and locations by linear search for a structurally equal entry. Frame
    metadata is a parameter; the JSON text `serde_json` renders is not
    modelled, only the profile it renders. */
module ProfileSerializer2 {
  import opened Wrappers
  import opened SerializationProfile
  import RustSample

  /** What the VM reports about a frame: full label, path and first line. */
  datatype FrameInfo = FrameInfo(fullLabel: Option<string>, path: Option<string>, firstLineno: Option<int>)

  /** `ProfileSerializer2::new`: an empty profile with zero timestamps. */
  function New(): (p: Profile)
    ensures p.samples == [] && p.locations == [] && p.functions == []
    ensures p.startTimestampNs == 0 && p.durationNs == 0
  {
    Profile([], [], [], 0, 0)
  }

  /** `Iterator::position`: the first index holding `x`. */
  function Position<T(==)>(xs: seq<T>, x: T): (r: Option<nat>)
    ensures r.Some? ==> r.value < |xs| && xs[r.value] == x && forall k :: 0 <= k < r.value ==> xs[k] != x
    ensures r.None? <==> x !in xs
  {
    if |xs| == 0 then None
    else if xs[0] == x then Some(0)
    else
      match Position(xs[1..], x)
      case None => None
      case Some(k) => Some(k + 1)
  }

  /** `function_index_for`: the first equal function, table unchanged;
      otherwise `function` appended and its index (`len - 1`) returned. */
  function FunctionIndexFor(functions: seq<Function>, f: Function): (r: (nat, seq<Function>))
    ensures r.0 < |r.1| && r.1[r.0] == f
    ensures f in functions ==> r.1 == functions && forall k :: 0 <= k < r.0 ==> functions[k] != f
    ensures f !in functions ==> r.1 == functions + [f] && r.0 == |functions|
  {
    match Position(functions, f)
    case Some(i) => (i, functions)
    case None => (|functions|, functions + [f])
  }

  /** `location_index_for`: the location `(function_index, lineno, None)`,
      looked up or appended like a function. */
  function LocationIndexFor(locations: seq<Location>, functionIndex: nat, lineno: int): (r: (nat, seq<Location>))
    ensures r.0 < |r.1| && r.1[r.0] == Location(functionIndex, lineno, None)
    ensures Location(functionIndex, lineno, None) in locations ==> r.1 == locations
    ensures Location(functionIndex, lineno, None) !in locations ==>
      r.1 == locations + [Location(functionIndex, lineno, None)] && r.0 == |locations|
  {
    var location := Location(functionIndex, lineno, None);
    match Position(locations, location)
    case Some(i) => (i, locations)
    case None => (|locations|, locations + [location])
  }

  /** No entry of the table occurs twice. */
  predicate NoDuplicates<T(==)>(xs: seq<T>) {
    forall a, b :: 0 <= a < b < |xs| ==> xs[a] != xs[b]
  }

  /** The lookups keep both tables free of duplicates. */
  lemma LookupsKeepNoDuplicates(functions: seq<Function>, f: Function,
                                locations: seq<Location>, functionIndex: nat, lineno: int)
    requires NoDuplicates(functions) && NoDuplicates(locations)
    ensures NoDuplicates(FunctionIndexFor(functions, f).1)
    ensures NoDuplicates(LocationIndexFor(locations, functionIndex, lineno).1)
  {
  }

  /** A second lookup of the same function finds it where the first put
      it, and changes nothing. */
  lemma FunctionIndexForIdempotent(functions: seq<Function>, f: Function)
    ensures var (i, fs) := FunctionIndexFor(functions, f);
      FunctionIndexFor(fs, f) == (i, fs)
  {
    var (i, fs) := FunctionIndexFor(functions, f);
    assert fs[i] == f;
  }

  /** `extract_function_from_frame`: a Ruby function with the frame's
      label, path and first line, and no address. */
  function ExtractFunctionFromFrame(info: FrameInfo): (f: Function)
    ensures f.implementation == Ruby && f.startAddress.None?
    ensures f.name == info.fullLabel && f.filename == info.path && f.startLineno == info.firstLineno
  {
    Function(Ruby, info.fullLabel, info.path, info.firstLineno, None)
  }

  /** The tables resolve every stack entry of `stack` back to frame `j` of
      `sample`: its function, and the line it was at. */
  predicate ResolvesTo(p: Profile, stack: seq<nat>, sample: RustSample.Sample, frames: int -> FrameInfo, n: nat)
    requires n <= |sample.frames| && n <= |sample.linenos|
  {
    |stack| == n &&
    forall j :: 0 <= j < n ==>
      && stack[j] < |p.locations|
      && p.locations[stack[j]] == Location(p.locations[stack[j]].functionIndex, sample.linenos[j], None)
      && p.locations[stack[j]].functionIndex < |p.functions|
      && p.functions[p.locations[stack[j]].functionIndex] == ExtractFunctionFromFrame(frames(sample.frames[j]))
  }

  /** `p'` only appended to the tables and samples of `p`. */
  predicate Extends(p: Profile, p': Profile) {
    && |p.samples| <= |p'.samples| && p'.samples[..|p.samples|] == p.samples
    && |p.locations| <= |p'.locations| && p'.locations[..|p.locations|] == p.locations
    && |p.functions| <= |p'.functions| && p'.functions[..|p.functions|] == p.functions
  }

  lemma {:induction false} ResolvesToStable(p: Profile, p': Profile, stack: seq<nat>, sample: RustSample.Sample, frames: int -> FrameInfo, n: nat)
    requires Extends(p, p') && n <= |sample.frames| && n <= |sample.linenos|
    requires ResolvesTo(p, stack, sample, frames, n)
    ensures ResolvesTo(p', stack, sample, frames, n)
  {
    forall j | 0 <= j < n
      ensures p'.locations[stack[j]] == p.locations[stack[j]]
      ensures p'.functions[p.locations[stack[j]].functionIndex] == p.functions[p.locations[stack[j]].functionIndex]
    {
      assert p'.locations[..|p.locations|][stack[j]] == p.locations[stack[j]];
      assert p'.functions[..|p.functions|][p.locations[stack[j]].functionIndex] == p.functions[p.locations[stack[j]].functionIndex];
    }
  }

  /** One frame of the stack loop: its function and then its location
      looked up or appended. The result indexes a location at the frame's
      line whose function is the frame's, and the tables only grew. */
  function IndexFrame(q: Profile, info: FrameInfo, lineno: int): (r: (Profile, nat))
    requires IndicesResolve(q)
    ensures IndicesResolve(r.0) && Extends(q, r.0) && r.0.samples == q.samples
    ensures r.0.startTimestampNs == q.startTimestampNs && r.0.durationNs == q.durationNs
    ensures r.1 < |r.0.locations| && r.0.locations[r.1].functionIndex < |r.0.functions|
    ensures r.0.locations[r.1] == Location(r.0.locations[r.1].functionIndex, lineno, None)
    ensures r.0.functions[r.0.locations[r.1].functionIndex] == ExtractFunctionFromFrame(info)
  {
    var (fi, functions) := FunctionIndexFor(q.functions, ExtractFunctionFromFrame(info));
    var (li, locations) := LocationIndexFor(q.locations, fi, lineno);
    assert functions[..|q.functions|] == q.functions;
    assert locations[..|q.locations|] == q.locations;
    (q.(functions := functions, locations := locations), li)
  }

  /** Appending twice is appending. */
  lemma ExtendsTransitive(p: Profile, q: Profile, r: Profile)
    requires Extends(p, q) && Extends(q, r)
    ensures Extends(p, r)
  {
    assert r.samples[..|p.samples|] == r.samples[..|q.samples|][..|p.samples|];
    assert r.locations[..|p.locations|] == r.locations[..|q.locations|][..|p.locations|];
    assert r.functions[..|p.functions|] == r.functions[..|q.functions|][..|p.functions|];
  }

  /** The number of frames the stack loop visits: `0..line_count`. */
  function Depth(sample: RustSample.Sample): (n: nat)
    ensures sample.lineCount >= 0 ==> n == sample.lineCount
    ensures sample.lineCount < 0 ==> n == 0
  {
    if sample.lineCount < 0 then 0 else sample.lineCount
  }

  /** The Ruby-stack loop of `serialize` for one sample. */
  method IndexStack(p: Profile, sample: RustSample.Sample, frames: int -> FrameInfo)
    returns (p': Profile, stack: seq<nat>)
    requires IndicesResolve(p) && RustSample.WellFormed(sample)
    ensures IndicesResolve(p') && Extends(p, p') && p'.samples == p.samples
    ensures p'.startTimestampNs == p.startTimestampNs && p'.durationNs == p.durationNs
    ensures ResolvesTo(p', stack, sample, frames, Depth(sample))
  {
    p' := p;
    stack := [];
    var i := 0;
    while i < Depth(sample)
      invariant 0 <= i <= Depth(sample)
      invariant IndicesResolve(p') && Extends(p, p') && p'.samples == p.samples
      invariant p'.startTimestampNs == p.startTimestampNs && p'.durationNs == p.durationNs
      invariant ResolvesTo(p', stack, sample, frames, i)
    {
      var (next, li) := IndexFrame(p', frames(sample.frames[i]), sample.linenos[i]);
      ExtendsTransitive(p, p', next);
      ResolvesToStable(p', next, stack, sample, frames, i);
      p', stack, i := next, stack + [li], i + 1;
    }
  }

  /** The sample `serialize` emits for a source sample: its stack (leaf
      first, as the VM reports it) and `Some(ruby_thread)`. */
  predicate Emits(p: Profile, out: Sample, sample: RustSample.Sample, frames: int -> FrameInfo)
    requires RustSample.WellFormed(sample)
  {
    out.rubyThreadId == Some(sample.rubyThread) && ResolvesTo(p, out.stack, sample, frames, Depth(sample))
  }

  /** The inputs `serialize` reads from the source profile: the start as
      nanoseconds since the Unix epoch, and the start and end instants. */
  datatype SourceTimes = SourceTimes(startSinceEpochNs: nat, startInstantNs: int, endInstantNs: Option<int>)

  /** `serialize`: `None` where the source panics (no end instant);
      otherwise the metadata is set, and one sample per source sample is
      appended, in order, to what the serializer already held. */
  method Serialize(p: Profile, times: SourceTimes, samples: seq<RustSample.Sample>, frames: int -> FrameInfo)
    returns (r: Option<Profile>)
    requires IndicesResolve(p)
    requires forall i :: 0 <= i < |samples| ==> RustSample.WellFormed(samples[i])
    ensures r.None? <==> times.endInstantNs.None?
    ensures r.Some? ==> && IndicesResolve(r.value) && Extends(p, r.value)
                        && r.value.startTimestampNs == times.startSinceEpochNs
                        && r.value.durationNs == (if times.endInstantNs.value < times.startInstantNs then 0
                                                  else times.endInstantNs.value - times.startInstantNs)
                        && |r.value.samples| == |p.samples| + |samples|
    ensures r.Some? ==> forall i :: 0 <= i < |samples| ==>
      Emits(r.value, r.value.samples[|p.samples| + i], samples[i], frames)
  {
    if times.endInstantNs.None? {
      return None;
    }
    var end := times.endInstantNs.value;
    // `Instant::duration_since` saturates at zero.
    var duration := if end < times.startInstantNs then 0 else end - times.startInstantNs;
    var q := p.(startTimestampNs := times.startSinceEpochNs, durationNs := duration);
    var i := 0;
    while i < |samples|
      invariant 0 <= i <= |samples|
      invariant IndicesResolve(q) && Extends(p, q) && |q.samples| == |p.samples| + i
      invariant q.startTimestampNs == times.startSinceEpochNs && q.durationNs == duration
      invariant forall k :: 0 <= k < i ==> Emits(q, q.samples[|p.samples| + k], samples[k], frames)
    {
      var q', stack := IndexStack(q, samples[i], frames);
      var out := Sample(stack, Some(samples[i].rubyThread));
      var next := q'.(samples := q'.samples + [out]);
      assert next.samples[..|q'.samples|] == q'.samples;
      forall k | 0 <= k < i
        ensures Emits(next, next.samples[|p.samples| + k], samples[k], frames)
      {
        assert next.samples[|p.samples| + k] == q.samples[|p.samples| + k];
        ResolvesToStable(q, next, q.samples[|p.samples| + k].stack, samples[k], frames, Depth(samples[k]));
      }
      ResolvesToStable(q', next, stack, samples[i], frames, Depth(samples[i]));
      q, i := next, i + 1;
    }
    r := Some(q);
  }
}
