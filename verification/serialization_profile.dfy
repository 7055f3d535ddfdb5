/** The serialized profile of the Rust extension
    (`ext/pf2/src/serialization/profile.rs`): samples refer to locations by
    index, locations to functions by index. The derived `PartialEq` of
    `Location` and `Function` compares every field, which is exactly
    Dafny's equality on these datatypes, so the model uses `==` for it. */
module SerializationProfile {
  import opened Wrappers

  /** `FunctionImplementation`: exactly two kinds. */
  datatype FunctionImplementation = Ruby | C

  /** A Ruby method or C function. */
  datatype Function = Function(
    implementation: FunctionImplementation,
    name: Option<string>,
    filename: Option<string>,
    startLineno: Option<int>,
    startAddress: Option<nat>)

  /** A line hit while sampling, inside function `functionIndex`. */
  datatype Location = Location(functionIndex: nat, lineno: int, address: Option<nat>)

  /** A sample; `stack[0]` is the leaf frame. */
  datatype Sample = Sample(stack: seq<nat>, rubyThreadId: Option<int>)

  datatype Profile = Profile(
    samples: seq<Sample>,
    locations: seq<Location>,
    functions: seq<Function>,
    startTimestampNs: nat,
    durationNs: nat)

  /** Every index in the profile resolves: stack entries into the
      locations, function indices into the functions. */
  predicate IndicesResolve(p: Profile) {
    && (forall i, j :: 0 <= i < |p.samples| && 0 <= j < |p.samples[i].stack| ==> p.samples[i].stack[j] < |p.locations|)
    && (forall k :: 0 <= k < |p.locations| ==> p.locations[k].functionIndex < |p.functions|)
  }

  /** The leaf of a sample with a non-empty stack is its first entry. */
  function Leaf(s: Sample): (r: Option<nat>)
    ensures r.Some? <==> |s.stack| > 0
    ensures r.Some? ==> r.value == s.stack[0]
  {
    if |s.stack| == 0 then None else Some(s.stack[0])
  }
}
