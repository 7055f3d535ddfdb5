/** `Pf2::Reporter::ThreadReport` of `lib/pf2/reporter.rb`, the oldest
    Firefox Profiler reporter: a thread's function, frame and stack tables,
    its samples, and the markers for the time spent waiting for the GVL.
    The stack tree is used as recorded. */
module LegacyReporter {
  import opened Wrappers
  import StringTable
  import StackTree

  /** The `type` symbol of a GVL timing: `:resumed`, `:waiting`, or any
      other symbol, by name. */
  datatype TimingKind = Resumed | Waiting | OtherKind(symbol: string)

  /** An entry of `gvl_timings`: `{ type:, time: }`. */
  datatype Timing = Timing(kind: TimingKind, time: int)

  /** A thread of the profile. Frames are `id => full_label` in insertion
      order; samples carry a `timestamp` in nanoseconds. */
  datatype Thread = Thread(
    threadId: int,
    frames: seq<(int, string)>,
    stackTree: StackTree.Tree,
    samples: seq<StackTree.TreeSample>,
    gvlTimings: seq<Timing>)

  datatype ReportError = NoMethodError

  /** A marker row: the interned name and the times in milliseconds. */
  datatype Marker = Marker(name: nat, time: int, startTime: int, endTime: int, phase: int, category: int)

  const MarkerName: string := "Acquired GVL"

  /** A pair that is reported: a `:resumed` entry followed by a
      `:waiting` one. */
  predicate IsGvlPair(a: Timing, b: Timing) {
    b.kind == Waiting && a.kind == Resumed
  }

  /** The marker for a reported pair; `time / 1000 / 1000` is written as
      in the source. */
  function MarkerOf(a: Timing, b: Timing, name: nat): Marker {
    Marker(name, a.time / 1000 / 1000, a.time / 1000 / 1000, b.time / 1000 / 1000, 1, 2)
  }

  /** The `each_slice(2)` loop over the middle timings. A last slice of one
      element makes `pair[1]` `nil`, and `nil[:type]` raises. */
  function Pairs(t: StringTable.Table<string>, middle: seq<Timing>): (r: Result<(seq<Marker>, StringTable.Table<string>), ReportError>)
    requires StringTable.Interned(t)
    ensures r.Success? <==> |middle| % 2 == 0
    ensures r.Success? ==> StringTable.Interned(r.value.1) && StringTable.Extends(t, r.value.1)
    ensures r.Success? ==> forall i :: 0 <= i < |r.value.0| ==>
      r.value.0[i].name < |r.value.1| && r.value.1[r.value.0[i].name].0 == MarkerName
    decreases |middle|
  {
    if |middle| == 0 then Success(([], t))
    else if |middle| == 1 then Failure(NoMethodError)
    else
      var a := middle[0];
      var b := middle[1];
      if !IsGvlPair(a, b) then Pairs(t, middle[2..])
      else
        var (t1, id) := StringTable.StringId(t, MarkerName);
        var rest :- Pairs(t1, middle[2..]);
        assert rest.1[id] == t1[id];
        Success(([MarkerOf(a, b, id)] + rest.0, rest.1))
  }

  /** `markers`: nothing unless there are more than two timings; then the
      timings without the first and the last, in pairs. */
  function Markers(t: StringTable.Table<string>, timings: seq<Timing>): (r: Result<(seq<Marker>, StringTable.Table<string>), ReportError>)
    requires StringTable.Interned(t)
    ensures |timings| <= 2 ==> r == Success(([], t))
    ensures r.Failure? <==> |timings| > 2 && |timings| % 2 == 1
  {
    if |timings| > 2 then Pairs(t, timings[1..|timings| - 1]) else Success(([], t))
  }

  /** Pair `k` of `middle` when it is reported, nothing otherwise. */
  function Pick(middle: seq<Timing>, k: nat): (ks: seq<nat>)
    requires 2 * k + 1 < |middle|
  {
    if IsGvlPair(middle[2 * k], middle[2 * k + 1]) then [k] else []
  }

  /** The numbers of the reported pairs among pairs `from..n` of the
      middle (pair `k` is its timings `2k` and `2k + 1`), in order. */
  function Reported(middle: seq<Timing>, from: nat, n: nat): (ks: seq<nat>)
    requires from <= n && 2 * n <= |middle|
    ensures forall i :: 0 <= i < |ks| ==> from <= ks[i] < n
    decreases n - from
  {
    if from == n then [] else Pick(middle, from) + Reported(middle, from + 1, n)
  }

  /** A pair is reported exactly when it is a `:resumed` entry followed by
      a `:waiting` one. */
  lemma {:induction false} ReportedExactly(middle: seq<Timing>, from: nat, n: nat)
    requires from <= n && 2 * n <= |middle|
    ensures forall k: nat :: k in Reported(middle, from, n) <==> from <= k < n && IsGvlPair(middle[2 * k], middle[2 * k + 1])
    decreases n - from
  {
    if from < n {
      ReportedExactly(middle, from + 1, n);
      var rest := Reported(middle, from + 1, n);
      var p := Pick(middle, from);
      assert Reported(middle, from, n) == p + rest;
      forall k: nat
        ensures k in p + rest <==> from <= k < n && IsGvlPair(middle[2 * k], middle[2 * k + 1])
      {
        assert k in p + rest <==> k in p || k in rest;
      }
    }
  }

  /** The reported pair numbers increase. */
  lemma {:induction false} ReportedIncreasing(middle: seq<Timing>, from: nat, n: nat)
    requires from <= n && 2 * n <= |middle|
    ensures forall i, j :: 0 <= i < j < |Reported(middle, from, n)| ==> Reported(middle, from, n)[i] < Reported(middle, from, n)[j]
    decreases n - from
  {
    if from < n {
      ReportedIncreasing(middle, from + 1, n);
      var rest := Reported(middle, from + 1, n);
      var p := Pick(middle, from);
      var ks := p + rest;
      assert Reported(middle, from, n) == ks;
      forall i, j | 0 <= i < j < |ks|
        ensures ks[i] < ks[j]
      {
        if i < |p| {
          assert ks[i] == from && ks[j] == rest[j - |p|];
        } else {
          assert ks[i] == rest[i - |p|] && ks[j] == rest[j - |p|];
        }
      }
    }
  }

  /** `markers[i]` is the marker of pair `ks[i]` of `middle`, for every
      `i`. */
  predicate MarkersOfPairs(markers: seq<Marker>, middle: seq<Timing>, ks: seq<nat>) {
    && |markers| == |ks|
    && forall i :: 0 <= i < |ks| ==>
         2 * ks[i] + 1 < |middle| &&
         markers[i] == MarkerOf(middle[2 * ks[i]], middle[2 * ks[i] + 1], markers[i].name)
  }

  /** One slice of the loop: the first pair's marker, if any, then the
      rest. */
  lemma PairsStep(t: StringTable.Table<string>, middle: seq<Timing>)
    requires StringTable.Interned(t) && |middle| >= 2 && |middle| % 2 == 0
    ensures var t1 := if IsGvlPair(middle[0], middle[1]) then StringTable.StringId(t, MarkerName).0 else t;
      && StringTable.Interned(t1)
      && Pairs(t, middle).value.0 ==
        (if IsGvlPair(middle[0], middle[1]) then [MarkerOf(middle[0], middle[1], StringTable.StringId(t, MarkerName).1)] else [])
        + Pairs(t1, middle[2..]).value.0
  {
  }

  /** The marker of pair `from`, if it is reported, before the markers
      of the later pairs. */
  lemma MarkersOfPairsCons(head: seq<Marker>, rest: seq<Marker>, middle: seq<Timing>, from: nat, ks: seq<nat>)
    requires 2 * from + 1 < |middle|
    requires MarkersOfPairs(rest, middle, ks)
    requires IsGvlPair(middle[2 * from], middle[2 * from + 1]) ==>
      |head| == 1 && head[0] == MarkerOf(middle[2 * from], middle[2 * from + 1], head[0].name)
    requires !IsGvlPair(middle[2 * from], middle[2 * from + 1]) ==> head == []
    ensures MarkersOfPairs(head + rest, middle, Pick(middle, from) + ks)
  {
    var ks' := Pick(middle, from) + ks;
    var all := head + rest;
    forall i | |head| <= i < |ks'|
      ensures 2 * ks'[i] + 1 < |middle| && all[i] == MarkerOf(middle[2 * ks'[i]], middle[2 * ks'[i] + 1], all[i].name)
    {
      assert ks'[i] == ks[i - |head|] && all[i] == rest[i - |head|];
    }
  }

  /** The markers of the slices from pair `from` on are exactly the
      reported pairs among them, in order, each with the start of the pair
      as its time and start and the end as its end. */
  lemma {:induction false} PairsAreReported(t: StringTable.Table<string>, middle: seq<Timing>, from: nat)
    requires StringTable.Interned(t) && |middle| % 2 == 0 && 2 * from <= |middle|
    ensures MarkersOfPairs(Pairs(t, middle[2 * from..]).value.0, middle, Reported(middle, from, |middle| / 2))
    decreases |middle| - 2 * from
  {
    if 2 * from < |middle| {
      var m := middle[2 * from..];
      var pair := IsGvlPair(m[0], m[1]);
      assert m[0] == middle[2 * from] && m[1] == middle[2 * from + 1];
      assert m[2..] == middle[2 * (from + 1)..];
      var t1 := if pair then StringTable.StringId(t, MarkerName).0 else t;
      PairsStep(t, m);
      PairsAreReported(t1, middle, from + 1);
      var rest := Pairs(t1, m[2..]).value.0;
      var head: seq<Marker> := if pair then [MarkerOf(m[0], m[1], StringTable.StringId(t, MarkerName).1)] else [];
      assert Pairs(t, m).value.0 == head + rest;
      MarkersOfPairsCons(head, rest, middle, from, Reported(middle, from + 1, |middle| / 2));
    }
  }

  /** `markers` reports exactly the `:resumed`/`:waiting` pairs among the
      middle timings, in order. */
  lemma MarkersAreReported(t: StringTable.Table<string>, timings: seq<Timing>)
    requires StringTable.Interned(t) && Markers(t, timings).Success?
    ensures var middle := if |timings| > 2 then timings[1..|timings| - 1] else [];
      MarkersOfPairs(Markers(t, timings).value.0, middle, Reported(middle, 0, |middle| / 2))
  {
    if |timings| > 2 {
      var middle := timings[1..|timings| - 1];
      PairsAreReported(t, middle, 0);
      assert middle[2 * 0..] == middle;
    }
  }

  /** The row of the stack table: frame index, category 1, prefix. */
  datatype StackRow = StackRow(frame: Option<nat>, category: int, prefix: Option<nat>)

  function Labels(frames: seq<(int, string)>): (labels: seq<string>)
    ensures |labels| == |frames| && forall i :: 0 <= i < |frames| ==> labels[i] == frames[i].1
  {
    seq(|frames|, i requires 0 <= i < |frames| => frames[i].1)
  }

  /** `build_stack_table`: the breadth-first rows, each with the index of
      its node's frame (`nil` when the frames hash lacks the id). */
  function StackTable(visits: seq<StackTree.Visit>, frameIdMap: map<int, nat>): seq<StackRow> {
    seq(|visits|, i requires 0 <= i < |visits| =>
      StackRow(if visits[i].node.frameId in frameIdMap then Some(frameIdMap[visits[i].node.frameId]) else None,
               1, visits[i].prefix))
  }

  /** What `emit` produces for a thread, less the constant columns. */
  datatype ThreadReport = ThreadReport(
    funcNames: seq<nat>,
    frameFuncs: seq<nat>,
    stackTable: seq<StackRow>,
    samples: StackTree.Samples,
    markers: seq<Marker>,
    strings: seq<string>)

  /** `ThreadReport#emit`: the function table interns the labels, the
      frame table maps frame `i` to function `i` and fills the frame id
      map, the stack table and the samples follow, and `markers` interns
      its name before the string array is read. */
  function Emit(thread: Thread): (r: Result<ThreadReport, ReportError>)
    ensures r.Failure? <==> |thread.gvlTimings| > 2 && |thread.gvlTimings| % 2 == 1
  {
    var (table, names) := StringTable.InternAll([], Labels(thread.frames));
    var frameIdMap := StackTree.LastIndex(StringTable.Keys(thread.frames));
    var visits := StackTree.StackVisits(thread.stackTree);
    var stack := StackTable(visits, frameIdMap);
    var samples := StackTree.BuildSamples(thread.samples, StackTree.RowOfNode(visits));
    var (markers, table') :- Markers(table, thread.gvlTimings);
    Success(ThreadReport(names, seq(|thread.frames|, i => i), stack, samples, markers,
                         StringTable.BuildStringTable(table')))
  }

  /** In an emitted report, every function name is its frame's label in
      the string array and every marker is named `Acquired GVL` there. */
  lemma EmitStrings(thread: Thread)
    requires Emit(thread).Success?
    ensures var r := Emit(thread).value;
      && |r.funcNames| == |thread.frames| && |r.frameFuncs| == |thread.frames|
      && (forall i :: 0 <= i < |thread.frames| ==> r.funcNames[i] < |r.strings| && r.strings[r.funcNames[i]] == thread.frames[i].1)
      && (forall i :: 0 <= i < |r.markers| ==> r.markers[i].name < |r.strings| && r.strings[r.markers[i].name] == MarkerName)
  {
    var labels := Labels(thread.frames);
    var (table, names) := StringTable.InternAll([], labels);
    var (markers, table') := Markers(table, thread.gvlTimings).value;
    StringTable.SortInterned(table');
    var r := Emit(thread).value;
    assert r.funcNames == names && r.markers == markers;
    assert r.strings == StringTable.Keys(table');
    forall i | 0 <= i < |thread.frames| ensures r.funcNames[i] < |r.strings| && r.strings[r.funcNames[i]] == thread.frames[i].1 {
      assert table'[names[i]] == table[names[i]];
      assert labels[i] == thread.frames[i].1;
    }
  }

  /** In an emitted report the stack table has a row, of category 1, per
      node below the root, each row's prefix is the row of its parent, and
      there is a sample row per sample. */
  lemma EmitStackTable(thread: Thread)
    requires Emit(thread).Success?
    ensures var r := Emit(thread).value;
      && |r.stackTable| == StackTree.SizeAll(thread.stackTree.children)
      && (forall i :: 0 <= i < |r.stackTable| ==> r.stackTable[i].category == 1)
      && StackTree.Linked(StackTree.StackVisits(thread.stackTree), thread.stackTree)
      && r.samples.length == |thread.samples|
  {
    StackTree.StackVisitsLinked(thread.stackTree);
  }
}
