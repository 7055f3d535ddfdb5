/** The C extension's serializer (`ext/pf2/serializer.c`): it borrows the
    session's tables and turns them into the Ruby hash the reporters read.
    Heap ownership is modelled by the `ownsData` flag and by the list of
    blocks `Free` releases. */
module Pf2Serializer {
  import opened Wrappers
  import opened IndexedMaps
  import opened RubyValue
  import opened SampleCapture
  import Pf2Session

  datatype Ser = Ser(
    startTimestampNs: nat,
    durationNs: nat,
    collectedSampleCount: nat,
    droppedSampleCount: nat,
    ownsData: bool,
    samples: seq<Pf2Session.SerSample>,
    samplesCapacity: nat,
    locations: seq<Pf2Session.SerLocation>,
    locationsCapacity: nat,
    functions: seq<SerFunction>,
    functionsCapacity: nat)

  /** `pf2_ser_new`: `NULL` if the header cannot be allocated; otherwise
      empty tables with zero capacity, zero counters, and ownership of its
      (empty) tables. */
  function New(allocOk: bool): (r: Option<Ser>)
    ensures r.None? <==> !allocOk
    ensures r.Some? ==> && r.value.ownsData
                        && r.value.samples == [] && r.value.locations == [] && r.value.functions == []
                        && r.value.samplesCapacity == 0 && r.value.locationsCapacity == 0 && r.value.functionsCapacity == 0
                        && r.value.startTimestampNs == 0 && r.value.durationNs == 0
                        && r.value.collectedSampleCount == 0 && r.value.droppedSampleCount == 0
  {
    if !allocOk then None else Some(Ser(0, 0, 0, 0, true, [], 0, [], 0, [], 0))
  }

  /** `pf2_ser_prepare`: the start timestamp is the session's wall-clock
      start in nanoseconds (as `uint64_t`); duration and both counters are
      copied; the three tables are the session's own, shared, so the
      serializer no longer owns what it points to. */
  function Prepare(ser: Ser, session: Pf2Session.Session, realtimeSec: nat, realtimeNsec: nat, durationNs: nat): (r: Ser)
    ensures r.startTimestampNs == (realtimeSec * 1000000000 + realtimeNsec) % U64
    ensures r.durationNs == durationNs
    ensures r.collectedSampleCount == session.collectedSampleCount
    ensures r.droppedSampleCount == session.droppedSampleCount
    ensures !r.ownsData
    ensures r.samples == session.samples && r.samplesCapacity == session.samplesCapacity
    ensures r.functions == session.functions && r.functionsCapacity == session.functionsCapacity
    ensures r.locations == session.locations && r.locationsCapacity == session.locationsCapacity
  {
    Ser((realtimeSec * 1000000000 + realtimeNsec) % U64, durationNs,
        session.collectedSampleCount, session.droppedSampleCount, false,
        session.samples, session.samplesCapacity,
        session.locations, session.locationsCapacity,
        session.functions, session.functionsCapacity)
  }

  /** A heap block `pf2_ser_free` hands to `free`. */
  datatype Block =
    | SampleStack(sample: nat)
    | SampleNativeStack(sample: nat)
    | SampleArray
    | FunctionName(index: nat)
    | FunctionFilename(index: nat)
    | FunctionArray
    | LocationArray
    | Header

  /** The two stacks of each of the first `n` samples, sample by sample. */
  function SampleBlocks(n: nat): (r: seq<Block>)
    ensures |r| == 2 * n
    ensures forall i :: 0 <= i < n ==> r[2 * i] == SampleStack(i) && r[2 * i + 1] == SampleNativeStack(i)
  {
    if n == 0 then [] else SampleBlocks(n - 1) + [SampleStack(n - 1), SampleNativeStack(n - 1)]
  }

  /** The two strings of each of the first `n` functions, function by
      function. */
  function FunctionBlocks(n: nat): (r: seq<Block>)
    ensures |r| == 2 * n
    ensures forall i :: 0 <= i < n ==> r[2 * i] == FunctionName(i) && r[2 * i + 1] == FunctionFilename(i)
  {
    if n == 0 then [] else FunctionBlocks(n - 1) + [FunctionName(n - 1), FunctionFilename(n - 1)]
  }

  /** The blocks of an owned table set of `samples` samples and `functions`
      functions, in the order they are freed: each sample's stacks, the
      sample array, each function's strings, the function and location
      arrays. */
  function OwnedBlocks(samples: nat, functions: nat): (r: seq<Block>)
    ensures |r| == 2 * samples + 2 * functions + 3
    ensures forall i :: 0 <= i < samples ==> r[2 * i] == SampleStack(i) && r[2 * i + 1] == SampleNativeStack(i)
    ensures r[2 * samples] == SampleArray
    ensures forall i :: 0 <= i < functions ==>
      r[2 * samples + 1 + 2 * i] == FunctionName(i) && r[2 * samples + 1 + 2 * i + 1] == FunctionFilename(i)
    ensures r[|r| - 2] == FunctionArray && r[|r| - 1] == LocationArray
  {
    var a := SampleBlocks(samples) + [SampleArray];
    var c: seq<Block> := [FunctionArray, LocationArray];
    forall i | 0 <= i < functions
      ensures (a + FunctionBlocks(functions) + c)[|a| + 2 * i] == FunctionName(i)
      ensures (a + FunctionBlocks(functions) + c)[|a| + 2 * i + 1] == FunctionFilename(i)
    {
      FunctionBlocksAt(a, functions, c, i);
    }
    a + FunctionBlocks(functions) + c
  }

  /** The strings of function `i` sit `2 * i` blocks after whatever precedes
      the function blocks. */
  lemma FunctionBlocksAt(a: seq<Block>, functions: nat, c: seq<Block>, i: nat)
    requires i < functions
    ensures (a + FunctionBlocks(functions) + c)[|a| + 2 * i] == FunctionName(i)
    ensures (a + FunctionBlocks(functions) + c)[|a| + 2 * i + 1] == FunctionFilename(i)
  {
    var b := FunctionBlocks(functions);
    assert (a + b + c)[|a| + 2 * i] == b[2 * i];
    assert (a + b + c)[|a| + 2 * i + 1] == b[2 * i + 1];
  }

  /** `pf2_ser_free`: the tables (every sample's two stacks, every
      function's two strings, the three arrays) are freed only when the
      serializer owns them; the header always is, last. */
  function Free(ser: Ser): (freed: seq<Block>)
    ensures |freed| > 0 && freed[|freed| - 1] == Header
    ensures !ser.ownsData ==> freed == [Header]
    ensures ser.ownsData ==> SampleArray in freed && FunctionArray in freed && LocationArray in freed
    ensures ser.ownsData ==> forall i :: 0 <= i < |ser.samples| ==> SampleStack(i) in freed && SampleNativeStack(i) in freed
    ensures ser.ownsData ==> forall i :: 0 <= i < |ser.functions| ==> FunctionName(i) in freed && FunctionFilename(i) in freed
  {
    if !ser.ownsData then [Header]
    else
      var blocks := OwnedBlocks(|ser.samples|, |ser.functions|);
      assert blocks[2 * |ser.samples|] == SampleArray;
      assert blocks[|blocks| - 2] == FunctionArray && blocks[|blocks| - 1] == LocationArray;
      OwnedSampleBlocksHeld(|ser.samples|, |ser.functions|);
      OwnedFunctionBlocksHeld(|ser.samples|, |ser.functions|);
      blocks + [Header]
  }

  /** Both stacks of every sample are among the owned blocks. */
  lemma OwnedSampleBlocksHeld(samples: nat, functions: nat)
    ensures forall i :: 0 <= i < samples ==>
      SampleStack(i) in OwnedBlocks(samples, functions) && SampleNativeStack(i) in OwnedBlocks(samples, functions)
  {
    var blocks := OwnedBlocks(samples, functions);
    forall i | 0 <= i < samples
      ensures SampleStack(i) in blocks && SampleNativeStack(i) in blocks
    {
      assert blocks[2 * i] == SampleStack(i);
      assert blocks[2 * i + 1] == SampleNativeStack(i);
    }
  }

  /** Both strings of every function are among the owned blocks. */
  lemma OwnedFunctionBlocksHeld(samples: nat, functions: nat)
    ensures forall i :: 0 <= i < functions ==>
      FunctionName(i) in OwnedBlocks(samples, functions) && FunctionFilename(i) in OwnedBlocks(samples, functions)
  {
    var blocks := OwnedBlocks(samples, functions);
    forall i | 0 <= i < functions
      ensures FunctionName(i) in blocks && FunctionFilename(i) in blocks
    {
      assert blocks[2 * samples + 1 + 2 * i] == FunctionName(i);
      assert blocks[2 * samples + 1 + 2 * i + 1] == FunctionFilename(i);
    }
  }

  /** A serializer prepared from a session frees nothing of the session's
      tables, whatever it held before. */
  lemma PreparedFreesOnlyHeader(ser: Ser, session: Pf2Session.Session, realtimeSec: nat, realtimeNsec: nat, durationNs: nat)
    ensures Free(Prepare(ser, session, realtimeSec, realtimeNsec, durationNs)) == [Header]
  {
  }

  /** One element of the `samples` array. */
  function SampleValue(s: Pf2Session.SerSample): (v: RValue)
    ensures AsInts(Field(v, "stack").GetOr(Nil)) == Some(s.stack)
    ensures AsInts(Field(v, "native_stack").GetOr(Nil)) == Some(s.nativeStack)
    ensures Field(v, "ruby_thread_id") == Some(if s.rubyThreadId == 0 then Nil else Int(s.rubyThreadId))
    ensures Field(v, "elapsed_ns") == Some(Int(s.elapsedNs))
    ensures Field(v, "count") == Some(Int(s.count))
  {
    IntArrayRoundTrip(s.stack);
    IntArrayRoundTrip(s.nativeStack);
    var names := ["stack", "native_stack", "ruby_thread_id", "elapsed_ns", "count"];
    var values := [IntArray(s.stack),
       IntArray(s.nativeStack),
       if s.rubyThreadId != 0 then Int(s.rubyThreadId) else Nil,
       Int(s.elapsedNs),
       Int(s.count)];
    var h := Record(names, values);
    assert Field(h, names[0]) == Some(values[0]);
    assert Field(h, names[1]) == Some(values[1]);
    assert Field(h, names[2]) == Some(values[2]);
    assert Field(h, names[3]) == Some(values[3]);
    assert Field(h, names[4]) == Some(values[4]);
    h
  }

  /** One element of the `locations` array; the address is always `nil`. */
  function LocationValue(l: Pf2Session.SerLocation): (v: RValue)
    ensures Field(v, "function_index") == Some(Int(l.functionIndex))
    ensures Field(v, "lineno") == Some(Int(l.lineno))
    ensures Field(v, "address") == Some(Nil)
  {
    var names := ["function_index", "lineno", "address"];
    var values := [Int(l.functionIndex),
       Int(l.lineno),
       Nil];
    var h := Record(names, values);
    assert Field(h, names[0]) == Some(values[0]);
    assert Field(h, names[1]) == Some(values[1]);
    assert Field(h, names[2]) == Some(values[2]);
    h
  }

  /** A C string as a Ruby value: `nil` for `NULL`, otherwise the bytes
      before the first NUL. */
  function CStringValue(s: CString): (v: RValue)
    ensures s.None? <==> v == Nil
    ensures s.Some? ==> v == Str(Latin1(Content(s.value)))
  {
    if s.None? then Nil else Str(Latin1(Content(s.value)))
  }

  /** One element of the `functions` array: `:ruby` or `:native`, the two
      strings, the start line (`nil` when negative); the start address is
      always `nil`. */
  function FunctionValue(f: SerFunction): (v: RValue)
    ensures Field(v, "implementation") == Some(Sym(if f.implementation == Ruby then "ruby" else "native"))
    ensures Field(v, "name") == Some(CStringValue(f.name))
    ensures Field(v, "filename") == Some(CStringValue(f.filename))
    ensures Field(v, "start_lineno") == Some(if f.startLineno < 0 then Nil else Int(f.startLineno))
    ensures Field(v, "start_address") == Some(Nil)
  {
    var names := ["implementation", "name", "filename", "start_lineno", "start_address"];
    var values := [Sym(if f.implementation == Ruby then "ruby" else "native"),
       CStringValue(f.name),
       CStringValue(f.filename),
       if f.startLineno >= 0 then Int(f.startLineno) else Nil,
       Nil];
    var h := Record(names, values);
    assert Field(h, names[0]) == Some(values[0]);
    assert Field(h, names[1]) == Some(values[1]);
    assert Field(h, names[2]) == Some(values[2]);
    assert Field(h, names[3]) == Some(values[3]);
    assert Field(h, names[4]) == Some(values[4]);
    h
  }

  /** `pf2_ser_to_ruby_hash`: the four metadata numbers, then one entry per
      sample, location and function, each in table order. */
  function ToRubyHash(ser: Ser): (h: RValue)
    ensures Field(h, "start_timestamp_ns") == Some(Int(ser.startTimestampNs))
    ensures Field(h, "duration_ns") == Some(Int(ser.durationNs))
    ensures Field(h, "collected_sample_count") == Some(Int(ser.collectedSampleCount))
    ensures Field(h, "dropped_sample_count") == Some(Int(ser.droppedSampleCount))
    ensures Field(h, "samples").Some? && Field(h, "samples").value.Array?
    ensures var items := Field(h, "samples").value.items;
      |items| == |ser.samples| && forall i :: 0 <= i < |items| ==> items[i] == SampleValue(ser.samples[i])
    ensures Field(h, "locations").Some? && Field(h, "locations").value.Array?
    ensures var items := Field(h, "locations").value.items;
      |items| == |ser.locations| && forall i :: 0 <= i < |items| ==> items[i] == LocationValue(ser.locations[i])
    ensures Field(h, "functions").Some? && Field(h, "functions").value.Array?
    ensures var items := Field(h, "functions").value.items;
      |items| == |ser.functions| && forall i :: 0 <= i < |items| ==> items[i] == FunctionValue(ser.functions[i])
  {
    var names := ["start_timestamp_ns", "duration_ns", "collected_sample_count", "dropped_sample_count", "samples", "locations", "functions"];
    var values := [Int(ser.startTimestampNs),
       Int(ser.durationNs),
       Int(ser.collectedSampleCount),
       Int(ser.droppedSampleCount),
       ArrayOf(ser.samples, SampleValue),
       ArrayOf(ser.locations, LocationValue),
       ArrayOf(ser.functions, FunctionValue)];
    var h := Record(names, values);
    assert Field(h, names[0]) == Some(values[0]);
    assert Field(h, names[1]) == Some(values[1]);
    assert Field(h, names[2]) == Some(values[2]);
    assert Field(h, names[3]) == Some(values[3]);
    assert Field(h, names[4]) == Some(values[4]);
    assert Field(h, names[5]) == Some(values[5]);
    assert Field(h, names[6]) == Some(values[6]);
    h
  }

  /** What the reporters read back from the hash of a prepared serializer:
      sample `i`'s stack is the session's stack, unchanged, with its count;
      every stack entry indexes the locations array, and every location's
      function index the functions array. */
  lemma ExportedIndicesResolve(session: Pf2Session.Session, realtimeSec: nat, realtimeNsec: nat, durationNs: nat, ser: Ser, i: nat, j: nat)
    requires Pf2Session.Valid(session)
    requires i < |session.samples|
    ensures var h := ToRubyHash(Prepare(ser, session, realtimeSec, realtimeNsec, durationNs));
      var sample := Field(h, "samples").value.items[i];
      && AsInts(Field(sample, "stack").GetOr(Nil)) == Some(session.samples[i].stack)
      && Field(sample, "count") == Some(Int(session.samples[i].count))
      && (j < |session.samples[i].stack| ==> session.samples[i].stack[j] < |Field(h, "locations").value.items|)
      && (j < |session.locations| ==>
            var loc := Field(h, "locations").value.items[j];
            Field(loc, "function_index") == Some(Int(session.locations[j].functionIndex))
            && session.locations[j].functionIndex < |Field(h, "functions").value.items|)
  {
    var p := Prepare(ser, session, realtimeSec, realtimeNsec, durationNs);
    var h := ToRubyHash(p);
    assert Field(h, "samples").value.items[i] == SampleValue(session.samples[i]);
    assert Pf2Session.IndicesBelow(session.samples[i].stack, |session.locations|);
    if j < |session.locations| {
      assert Field(h, "locations").value.items[j] == LocationValue(session.locations[j]);
    }
  }
}
