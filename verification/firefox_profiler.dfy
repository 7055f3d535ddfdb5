/** The per-thread tables of `Pf2::Reporter::FirefoxProfiler`
    (`lib/pf2/reporter/firefox_profiler.rb`): the function table, the frame
    table and the stack table with its categories. Frames are the thread's
    frames hash in insertion order; strings are interned together with
    `nil` (a missing file name), so a string-table key is an
    `Option<string>`. */
module FirefoxProfiler {
  import opened Wrappers
  import RubyValue
  import StringTable
  import StackTree

  type Key = Option<string>

  /** A frame of the profile's frames hash. */
  datatype Frame = Frame(
    entryType: string,
    fullLabel: string,
    fileName: Option<string>,
    functionFirstLineno: Option<int>,
    callsiteLineno: Option<int>,
    address: Option<int>)

  predicate IsNative(f: Frame) {
    f.entryType == "Native"
  }

  /** The function name: `"Native: "` before the label of a native frame. */
  function Label(f: Frame): (l: string)
    ensures IsNative(f) ==> StartsWith(l, "Native:")
    ensures !IsNative(f) ==> l == f.fullLabel
  {
    (if IsNative(f) then "Native: " else "") + f.fullLabel
  }

  /** `start_with?`. */
  predicate StartsWith(s: string, prefix: string) {
    |prefix| <= |s| && s[..|prefix|] == prefix
  }

  datatype FuncRow = FuncRow(name: nat, isJs: bool, relevantForJs: bool, resource: int,
                             fileName: nat, lineNumber: Option<int>)

  /** The row of a frame, read through the string table: its name is the
      frame's label and its file name the frame's file name. */
  predicate Resolves(row: FuncRow, f: Frame, t: StringTable.Table<Key>) {
    && row.name < |t| && t[row.name].0 == Some(Label(f))
    && row.fileName < |t| && t[row.fileName].0 == f.fileName
    && row.isJs == !IsNative(f) && !row.relevantForJs && row.resource == -1
    && row.lineNumber == f.functionFirstLineno
  }

  /** Interning more strings keeps a row resolving. */
  lemma ResolvesInExtension(row: FuncRow, f: Frame, t1: StringTable.Table<Key>, t2: StringTable.Table<Key>)
    requires Resolves(row, f, t1) && StringTable.Extends(t1, t2)
    ensures Resolves(row, f, t2)
  {
    assert t2[row.name] == t1[row.name] && t2[row.fileName] == t1[row.fileName];
  }

  /** The row of one frame: its label and then its file name interned. */
  function FuncRowOf(t: StringTable.Table<Key>, f: Frame): (r: (FuncRow, StringTable.Table<Key>))
    requires StringTable.Interned(t)
    ensures StringTable.Interned(r.1) && StringTable.Extends(t, r.1) && Resolves(r.0, f, r.1)
  {
    var (t1, name) := StringTable.StringId(t, Some(Label(f)));
    var (t2, file) := StringTable.StringId(t1, f.fileName);
    assert t2[name] == t1[name];
    (FuncRow(name, !IsNative(f), false, -1, file, f.functionFirstLineno), t2)
  }

  /** `build_func_table`: per frame, the label and then the file name
      interned, `is_js` for non-native frames. */
  function FuncTable(t: StringTable.Table<Key>, frames: seq<(int, Frame)>): (r: (seq<FuncRow>, StringTable.Table<Key>))
    requires StringTable.Interned(t)
    ensures StringTable.Interned(r.1) && |r.0| == |frames| && StringTable.Extends(t, r.1)
    decreases |frames|
  {
    if |frames| == 0 then ([], t)
    else
      var (row, t1) := FuncRowOf(t, frames[0].1);
      var (rows, t2) := FuncTable(t1, frames[1..]);
      ([row] + rows, t2)
  }

  /** Every row of the function table resolves, through the final string
      table, to its frame's label and file name. */
  lemma {:induction false} FuncTableResolves(t: StringTable.Table<Key>, frames: seq<(int, Frame)>)
    requires StringTable.Interned(t)
    ensures var (rows, table) := FuncTable(t, frames);
      forall i :: 0 <= i < |frames| ==> Resolves(rows[i], frames[i].1, table)
    decreases |frames|
  {
    if |frames| > 0 {
      var (row, t1) := FuncRowOf(t, frames[0].1);
      var (rows, t2) := FuncTable(t1, frames[1..]);
      FuncTableResolves(t1, frames[1..]);
      ResolvesInExtension(row, frames[0].1, t1, t2);
      var all := [row] + rows;
      assert FuncTable(t, frames) == (all, t2);
      forall i | 0 <= i < |frames| ensures Resolves(all[i], frames[i].1, t2) {
        if i > 0 {
          assert all[i] == rows[i - 1] && frames[i] == frames[1..][i - 1];
        }
      }
    }
  }

  datatype FrameRow = FrameRow(address: string, category: int, subcategory: int, func: nat,
                               line: Option<int>, inlineDepth: int)

  /** `frame[:address].to_s`: the decimal address, or `""` for `nil`. */
  function AddressString(address: Option<int>): string {
    match address
    case Some(a) => RubyValue.ToS(RubyValue.Int(a))
    case None => ""
  }

  /** `build_frame_table`: frame `i` is function `i`. */
  function FrameTable(frames: seq<(int, Frame)>): (rows: seq<FrameRow>)
    ensures |rows| == |frames|
    ensures forall i :: 0 <= i < |frames| ==> rows[i].func == i
  {
    seq(|frames|, i requires 0 <= i < |frames| =>
      FrameRow(AddressString(frames[i].1.address), 1, 1, i, frames[i].1.callsiteLineno, 0))
  }

  /** `@frame_id_map`, filled by `build_frame_table`. */
  function FrameIdMap(frames: seq<(int, Frame)>): map<int, nat> {
    StackTree.LastIndex(StringTable.Keys(frames))
  }

  datatype ReportError = TypeError | NoMethodError

  /** The category of a stack row: 2 when the name of the row's function
      starts with `Native:`, else 1, read through
      `build_string_table[func_table[:name][frame_table[:func][index]]]`.
      A `nil` index reaching `Array#[]` raises `TypeError`; a `nil` string
      reaching `start_with?` raises `NoMethodError`. */
  function Category(index: Option<nat>, frames: seq<FrameRow>, funcs: seq<FuncRow>, strings: seq<Key>): (r: Result<int, ReportError>)
    ensures r.Success? ==> r.value == 1 || r.value == 2
  {
    if index.None? || index.value >= |frames| then Failure(TypeError)
    else
      var func := frames[index.value].func;
      if func >= |funcs| then Failure(TypeError)
      else
        var name := funcs[func].name;
        if name >= |strings| || strings[name].None? then Failure(NoMethodError)
        else Success(if StartsWith(strings[name].value, "Native:") then 2 else 1)
  }

  datatype StackRow = StackRow(frame: Option<nat>, category: int, prefix: Option<nat>)

  /** The rows of `build_stack_table` for the visited nodes: the frame
      index of the node's frame id (`nil` if the frames hash lacks it), the
      category, and the prefix; the first failure is raised. */
  function StackRows(visits: seq<StackTree.Visit>, frameIdMap: map<int, nat>, frames: seq<FrameRow>,
                     funcs: seq<FuncRow>, strings: seq<Key>): (r: Result<seq<StackRow>, ReportError>)
    ensures r.Success? ==> |r.value| == |visits|
    ensures r.Success? ==> forall i :: 0 <= i < |visits| ==> r.value[i].prefix == visits[i].prefix
    ensures r.Success? <==> forall i :: 0 <= i < |visits| ==>
      Category(Lookup(frameIdMap, visits[i].node.frameId), frames, funcs, strings).Success?
    decreases |visits|
  {
    if |visits| == 0 then Success([])
    else
      var v := visits[|visits| - 1];
      var front :- StackRows(visits[..|visits| - 1], frameIdMap, frames, funcs, strings);
      var index := Lookup(frameIdMap, v.node.frameId);
      var category :- Category(index, frames, funcs, strings);
      Success(front + [StackRow(index, category, v.prefix)])
  }

  function Lookup(m: map<int, nat>, k: int): (r: Option<nat>)
    ensures r.Some? <==> k in m
    ensures r.Some? ==> r.value == m[k]
  {
    if k in m then Some(m[k]) else None
  }

  /** The tables `emit` builds for a thread, in its order: function table
      (interning into an empty string table), frame table, then the stack
      table over the thread's stack tree. */
  function StackTableOf(frames: seq<(int, Frame)>, tree: StackTree.Tree): (r: Result<seq<StackRow>, ReportError>)
  {
    var (funcs, table) := FuncTable([], frames);
    StackRows(StackTree.StackVisits(tree), FrameIdMap(frames), FrameTable(frames), funcs,
              StringTable.BuildStringTable(table))
  }

  /** The row a visited node should get: the last frame with the node's
      frame id, the node's prefix, and category 2 exactly when that frame's
      function name starts with `Native:`. */
  predicate RowFor(row: StackRow, v: StackTree.Visit, frames: seq<(int, Frame)>)
    requires v.node.frameId in FrameIdMap(frames)
  {
    var k := FrameIdMap(frames)[v.node.frameId];
    && row.frame == Some(k) && row.prefix == v.prefix
    && (row.category == 2 <==> StartsWith(Label(frames[k].1), "Native:"))
  }

  /** Read through the tables built from the frames, the category of a
      frame id is found exactly when the frames hash has the id, and
      reflects that frame's label. */
  lemma CategoryOfFrameId(frames: seq<(int, Frame)>, f: int)
    ensures var (funcs, table) := FuncTable([], frames);
      var c := Category(Lookup(FrameIdMap(frames), f), FrameTable(frames), funcs, StringTable.BuildStringTable(table));
      && (c.Success? <==> f in StringTable.Keys(frames))
      && (c.Success? ==> c.value == (if StartsWith(Label(frames[FrameIdMap(frames)[f]].1), "Native:") then 2 else 1))
  {
    var m := FrameIdMap(frames);
    if f in StringTable.Keys(frames) {
      var j :| 0 <= j < |frames| && StringTable.Keys(frames)[j] == f;
      assert f in m;
      assert Lookup(m, f) == Some(m[f]);
      CategoryOfFrame(frames, m[f]);
    } else {
      assert f !in m;
      assert Lookup(m, f) == None;
    }
  }

  /** Read through the tables built from the frames, the category of the
      frame at position `k` reflects that frame's label. */
  lemma CategoryOfFrame(frames: seq<(int, Frame)>, k: nat)
    requires k < |frames|
    ensures var (funcs, table) := FuncTable([], frames);
      Category(Some(k), FrameTable(frames), funcs, StringTable.BuildStringTable(table))
        == Success(if StartsWith(Label(frames[k].1), "Native:") then 2 else 1)
  {
    var (funcs, table) := FuncTable([], frames);
    FuncTableResolves([], frames);
    StringTable.SortInterned(table);
    var strings := StringTable.BuildStringTable(table);
    assert strings == StringTable.Keys(table);
    var frameRows := FrameTable(frames);
    assert frameRows[k].func == k;
    assert Resolves(funcs[k], frames[k].1, table);
    assert strings[funcs[k].name] == Some(Label(frames[k].1));
    CategoryFound(k, frameRows, funcs, strings);
  }

  lemma CategoryFound(k: nat, frames: seq<FrameRow>, funcs: seq<FuncRow>, strings: seq<Key>)
    requires k < |frames| && frames[k].func < |funcs|
    requires funcs[frames[k].func].name < |strings| && strings[funcs[frames[k].func].name].Some?
    ensures Category(Some(k), frames, funcs, strings)
      == Success(if StartsWith(strings[funcs[frames[k].func].name].value, "Native:") then 2 else 1)
  {
  }

  /** The stack table is built exactly when every node's frame id is in
      the frames hash; then each row points at the last frame with that
      id, keeps the node's prefix, and has category 2 exactly when that
      frame's function name starts with `Native:` (every native frame,
      and a Ruby frame whose own label does). */
  lemma StackTableCategories(frames: seq<(int, Frame)>, tree: StackTree.Tree)
    ensures var visits := StackTree.StackVisits(tree);
      var r := StackTableOf(frames, tree);
      && (r.Success? <==> forall i :: 0 <= i < |visits| ==> visits[i].node.frameId in StringTable.Keys(frames))
      && (r.Success? ==> forall i :: 0 <= i < |visits| ==>
            visits[i].node.frameId in FrameIdMap(frames) && RowFor(r.value[i], visits[i], frames))
  {
    var visits := StackTree.StackVisits(tree);
    var (funcs, table) := FuncTable([], frames);
    var strings := StringTable.BuildStringTable(table);
    var frameRows := FrameTable(frames);
    var m := FrameIdMap(frames);
    forall i | 0 <= i < |visits|
      ensures Category(Lookup(m, visits[i].node.frameId), frameRows, funcs, strings).Success?
          <==> visits[i].node.frameId in StringTable.Keys(frames)
    {
      CategoryOfFrameId(frames, visits[i].node.frameId);
    }
    var r := StackRows(visits, m, frameRows, funcs, strings);
    if r.Success? {
      forall i | 0 <= i < |visits|
        ensures visits[i].node.frameId in m && RowFor(r.value[i], visits[i], frames)
      {
        CategoryOfFrameId(frames, visits[i].node.frameId);
        StackRowAt(visits, m, frameRows, funcs, strings, i);
      }
    }
  }

  /** Row `i` of a built stack table is the one made from visit `i`. */
  lemma {:induction false} StackRowAt(visits: seq<StackTree.Visit>, frameIdMap: map<int, nat>, frames: seq<FrameRow>,
                                      funcs: seq<FuncRow>, strings: seq<Key>, i: nat)
    requires StackRows(visits, frameIdMap, frames, funcs, strings).Success? && i < |visits|
    ensures var index := Lookup(frameIdMap, visits[i].node.frameId);
      StackRows(visits, frameIdMap, frames, funcs, strings).value[i]
        == StackRow(index, Category(index, frames, funcs, strings).value, visits[i].prefix)
    decreases |visits|
  {
    var front := visits[..|visits| - 1];
    if i < |visits| - 1 {
      assert front[i] == visits[i];
      StackRowAt(front, frameIdMap, frames, funcs, strings, i);
    }
  }

  /** A native frame's row is always category 2, and a Ruby frame's row
      is category 1 unless its own label starts with `Native:`. */
  lemma NativeFramesAreCategoryTwo(f: Frame)
    ensures IsNative(f) ==> StartsWith(Label(f), "Native:")
    ensures !IsNative(f) ==> (StartsWith(Label(f), "Native:") <==> StartsWith(f.fullLabel, "Native:"))
  {
  }
}
