/** The profile hash the Ruby reporters read (`lib/pf2/reporter.rb` and
    the files under `lib/pf2/reporter`), as produced by the serializers:
    samples referring to locations by index, locations referring to
    functions by index. Ruby's `nil` is `None`; the
    implementation symbol is `:ruby` or `:native`. */
module ReportProfile {
  import opened Wrappers

  datatype Implementation = RubyImpl | NativeImpl

  datatype Function = Function(
    implementation: Implementation,
    name: Option<string>,
    filename: Option<string>,
    startLineno: Option<int>,
    startAddress: Option<int>)

  datatype Location = Location(functionIndex: nat, lineno: int, address: Option<int>)

  /** `stack` and `native_stack` are leaf-first: index 0 is the frame that
      was running. */
  datatype Sample = Sample(
    stack: seq<nat>,
    nativeStack: seq<nat>,
    rubyThreadId: Option<int>,
    elapsedNs: int,
    count: Option<int>)

  datatype Profile = Profile(
    startTimestampNs: int,
    durationNs: int,
    samples: seq<Sample>,
    locations: seq<Location>,
    functions: seq<Function>)

  /** `@profile[:functions][@profile[:locations][i][:function_index]]`: an
      index past either table reads `nil`, so the lookup fails. */
  function FunctionOf(p: Profile, locationIndex: nat): (r: Option<Function>)
    ensures r.Some? <==> Resolves(p, locationIndex)
    ensures r.Some? ==> r.value in p.functions
  {
    if Resolves(p, locationIndex) then Some(p.functions[p.locations[locationIndex].functionIndex])
    else None
  }

  /** A location index whose location and function both exist. */
  predicate Resolves(p: Profile, locationIndex: nat) {
    locationIndex < |p.locations| && p.locations[locationIndex].functionIndex < |p.functions|
  }
}
