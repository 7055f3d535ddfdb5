/** `Pf2::Reporter::FirefoxProfilerSer2` (`lib/pf2/reporter/firefox_profiler_ser2.rb`):
    the Firefox Profiler report built straight from the serialized profile.
    Samples are grouped by Ruby thread; each thread's report interns the
    function names and file names, copies the locations into the frame
    table, and builds its stack table as a trie of root-first location
    paths over the samples of the whole profile. */
module FirefoxProfilerSer2 {
  import opened Wrappers
  import opened ReportProfile
  import StringTable

  datatype ReportError = NoMethodError

  type ThreadId = Option<int>

  /* ----- Grouping samples by thread (`group_by`) ----- */

  /** The samples of one thread, in profile order. */
  function SamplesOf(samples: seq<Sample>, tid: ThreadId): (r: seq<Sample>)
    ensures |r| <= |samples|
    ensures forall s :: s in r ==> s in samples && s.rubyThreadId == tid
    decreases |samples|
  {
    if |samples| == 0 then []
    else SamplesOf(samples[..|samples| - 1], tid) + (if samples[|samples| - 1].rubyThreadId == tid then [samples[|samples| - 1]] else [])
  }

  /** Appending a sample to its group, opening a new group at the end when
      its thread has none yet. */
  function AddToGroup(groups: seq<(ThreadId, seq<Sample>)>, s: Sample): (r: seq<(ThreadId, seq<Sample>)>)
    ensures |r| == |groups| || |r| == |groups| + 1
    decreases |groups|
  {
    if |groups| == 0 then [(s.rubyThreadId, [s])]
    else if groups[0].0 == s.rubyThreadId then [(groups[0].0, groups[0].1 + [s])] + groups[1..]
    else [groups[0]] + AddToGroup(groups[1..], s)
  }

  /** `group_by {|s| s[:ruby_thread_id] }`: the groups in the order their
      threads first appear. */
  function GroupByThread(samples: seq<Sample>): seq<(ThreadId, seq<Sample>)>
    decreases |samples|
  {
    if |samples| == 0 then []
    else AddToGroup(GroupByThread(samples[..|samples| - 1]), samples[|samples| - 1])
  }

  /** The groups have distinct thread ids, one for each thread that has a
      sample, and each holds exactly that thread's samples in order. */
  predicate Grouped(groups: seq<(ThreadId, seq<Sample>)>, samples: seq<Sample>) {
    DistinctThreads(groups) && CoversThreads(groups, samples) && ExactGroups(groups, samples)
  }

  predicate DistinctThreads(groups: seq<(ThreadId, seq<Sample>)>) {
    forall i, j :: 0 <= i < j < |groups| ==> groups[i].0 != groups[j].0
  }

  predicate CoversThreads(groups: seq<(ThreadId, seq<Sample>)>, samples: seq<Sample>) {
    forall s :: s in samples ==> exists i :: 0 <= i < |groups| && groups[i].0 == s.rubyThreadId
  }

  predicate ExactGroups(groups: seq<(ThreadId, seq<Sample>)>, samples: seq<Sample>) {
    forall i :: 0 <= i < |groups| ==> groups[i].1 == SamplesOf(samples, groups[i].0) && |groups[i].1| > 0
  }

  /** `r` is `groups` with `s` appended to group `i`, its thread's. */
  predicate Joined(groups: seq<(ThreadId, seq<Sample>)>, r: seq<(ThreadId, seq<Sample>)>, s: Sample, i: nat) {
    && |r| == |groups| && i < |groups|
    && groups[i].0 == s.rubyThreadId && r[i] == (groups[i].0, groups[i].1 + [s])
    && forall j :: 0 <= j < |groups| && j != i ==> r[j] == groups[j]
  }

  /** `r` is `groups` with a new group for `s`, whose thread had none. */
  predicate Opened(groups: seq<(ThreadId, seq<Sample>)>, r: seq<(ThreadId, seq<Sample>)>, s: Sample) {
    && |r| == |groups| + 1 && r[|groups|] == (s.rubyThreadId, [s])
    && (forall j :: 0 <= j < |groups| ==> r[j] == groups[j] && groups[j].0 != s.rubyThreadId)
  }

  lemma {:induction false} AddToGroupCases(groups: seq<(ThreadId, seq<Sample>)>, s: Sample)
    ensures Opened(groups, AddToGroup(groups, s), s) || exists i :: Joined(groups, AddToGroup(groups, s), s, i)
    decreases |groups|
  {
    var r := AddToGroup(groups, s);
    if |groups| > 0 && groups[0].0 != s.rubyThreadId {
      var tail := groups[1..];
      var rest := AddToGroup(tail, s);
      AddToGroupCases(tail, s);
      assert r == [groups[0]] + rest;
      if Opened(tail, rest, s) {
        forall j | 0 <= j < |groups| ensures r[j] == groups[j] && groups[j].0 != s.rubyThreadId {
          if j > 0 {
            assert groups[j] == tail[j - 1];
          }
        }
        assert Opened(groups, r, s);
      } else {
        var i: nat :| Joined(tail, rest, s, i);
        forall j | 0 <= j < |groups| && j != i + 1 ensures r[j] == groups[j] {
          if j > 0 {
            assert r[j] == rest[j - 1] && groups[j] == tail[j - 1];
          }
        }
        assert Joined(groups, r, s, i + 1);
      }
    } else if |groups| > 0 {
      assert Joined(groups, r, s, 0);
    }
  }

  lemma SamplesOfSnoc(init: seq<Sample>, s: Sample, tid: ThreadId)
    ensures SamplesOf(init + [s], tid) == SamplesOf(init, tid) + (if s.rubyThreadId == tid then [s] else [])
  {
    assert (init + [s])[..|init|] == init;
  }

  lemma {:induction false} SamplesOfAbsent(samples: seq<Sample>, tid: ThreadId)
    requires forall s :: s in samples ==> s.rubyThreadId != tid
    ensures SamplesOf(samples, tid) == []
    decreases |samples|
  {
    if |samples| > 0 {
      SamplesOfAbsent(samples[..|samples| - 1], tid);
      assert samples[|samples| - 1] in samples;
    }
  }

  /** A sample joining its thread's group keeps the grouping exact. */
  lemma JoinKeepsGrouped(groups: seq<(ThreadId, seq<Sample>)>, r: seq<(ThreadId, seq<Sample>)>, init: seq<Sample>, s: Sample, i: nat)
    requires Grouped(groups, init) && Joined(groups, r, s, i)
    ensures Grouped(r, init + [s])
  {
    forall j | 0 <= j < |r| ensures r[j].1 == SamplesOf(init + [s], r[j].0) && |r[j].1| > 0 {
      SamplesOfSnoc(init, s, r[j].0);
      assert groups[j].1 == SamplesOf(init, groups[j].0);
      if j != i {
        assert r[j] == groups[j] && groups[j].0 != s.rubyThreadId;
      }
    }
    forall x | x in init + [s] ensures exists j :: 0 <= j < |r| && r[j].0 == x.rubyThreadId {
      if x in init {
        var k :| 0 <= k < |groups| && groups[k].0 == x.rubyThreadId;
        assert r[k].0 == x.rubyThreadId;
      } else {
        assert r[i].0 == x.rubyThreadId;
      }
    }
  }

  /** A sample of a thread not seen before opens a group of its own. */
  lemma OpenKeepsGrouped(groups: seq<(ThreadId, seq<Sample>)>, init: seq<Sample>, s: Sample)
    requires Grouped(groups, init) && Opened(groups, AddToGroup(groups, s), s)
    ensures Grouped(AddToGroup(groups, s), init + [s])
  {
    var r := AddToGroup(groups, s);
    OpenKeepsDistinct(groups, r, s);
    OpenKeepsCover(groups, r, init, s);
    OpenKeepsExact(groups, r, init, s);
  }

  lemma OpenKeepsDistinct(groups: seq<(ThreadId, seq<Sample>)>, r: seq<(ThreadId, seq<Sample>)>, s: Sample)
    requires DistinctThreads(groups) && Opened(groups, r, s)
    ensures DistinctThreads(r)
  {
    forall i, j | 0 <= i < j < |r| ensures r[i].0 != r[j].0 {
      assert r[i] == groups[i];
    }
  }

  lemma OpenKeepsCover(groups: seq<(ThreadId, seq<Sample>)>, r: seq<(ThreadId, seq<Sample>)>, init: seq<Sample>, s: Sample)
    requires CoversThreads(groups, init) && Opened(groups, r, s)
    ensures CoversThreads(r, init + [s])
  {
    forall x | x in init + [s] ensures exists j :: 0 <= j < |r| && r[j].0 == x.rubyThreadId {
      if x in init {
        var k :| 0 <= k < |groups| && groups[k].0 == x.rubyThreadId;
        assert r[k].0 == x.rubyThreadId;
      } else {
        assert r[|groups|].0 == x.rubyThreadId;
      }
    }
  }

  /** A thread without a group has no samples. */
  lemma UnseenThread(groups: seq<(ThreadId, seq<Sample>)>, init: seq<Sample>, tid: ThreadId)
    requires CoversThreads(groups, init)
    requires forall j :: 0 <= j < |groups| ==> groups[j].0 != tid
    ensures forall x :: x in init ==> x.rubyThreadId != tid
  {
    forall x | x in init ensures x.rubyThreadId != tid {
      var k :| 0 <= k < |groups| && groups[k].0 == x.rubyThreadId;
    }
  }

  lemma OpenKeepsExact(groups: seq<(ThreadId, seq<Sample>)>, r: seq<(ThreadId, seq<Sample>)>, init: seq<Sample>, s: Sample)
    requires CoversThreads(groups, init) && ExactGroups(groups, init) && Opened(groups, r, s)
    ensures ExactGroups(r, init + [s])
  {
    UnseenThread(groups, init, s.rubyThreadId);
    SamplesOfAbsent(init, s.rubyThreadId);
    forall j | 0 <= j < |r| ensures r[j].1 == SamplesOf(init + [s], r[j].0) && |r[j].1| > 0 {
      if j < |groups| {
        assert r[j] == groups[j] && groups[j].0 != s.rubyThreadId;
        assert groups[j].1 == SamplesOf(init, groups[j].0);
        SamplesOfSnoc(init, s, groups[j].0);
      } else {
        assert j == |groups|;
        SamplesOfSnoc(init, s, s.rubyThreadId);
      }
    }
  }

  /** `group_by` partitions the samples by thread: the groups' threads are
      distinct and are exactly the threads that have samples, and every
      group is exactly its thread's samples in profile order. */
  lemma {:induction false} GroupByThreadPartitions(samples: seq<Sample>)
    ensures Grouped(GroupByThread(samples), samples)
    decreases |samples|
  {
    if |samples| > 0 {
      var init := samples[..|samples| - 1];
      var s := samples[|samples| - 1];
      var groups := GroupByThread(init);
      GroupByThreadPartitions(init);
      assert samples == init + [s];
      AddToGroupCases(groups, s);
      if Opened(groups, AddToGroup(groups, s), s) {
        OpenKeepsGrouped(groups, init, s);
      } else {
        var i: nat :| Joined(groups, AddToGroup(groups, s), s, i);
        JoinKeepsGrouped(groups, AddToGroup(groups, s), init, s, i);
      }
    }
  }

  /* ----- Function and frame tables ----- */

  type Key = Option<string>

  datatype FuncRow = FuncRow(name: nat, isJs: bool, relevantForJs: bool, resource: int,
                             fileName: nat, lineNumber: Option<int>)

  /** A row describes a function when its name and file name are the
      function's in the string table, `is_js` says whether it is Ruby code,
      and the line number is the function's first line. */
  predicate Describes(row: FuncRow, f: Function, t: StringTable.Table<Key>) {
    && row.name < |t| && t[row.name].0 == f.name
    && row.fileName < |t| && t[row.fileName].0 == f.filename
    && row.isJs == (f.implementation == RubyImpl) && !row.relevantForJs && row.resource == -1
    && row.lineNumber == f.startLineno
  }

  /** Interning more strings keeps a row describing its function. */
  lemma DescribesInExtension(row: FuncRow, f: Function, t1: StringTable.Table<Key>, t2: StringTable.Table<Key>)
    requires Describes(row, f, t1) && StringTable.Extends(t1, t2)
    ensures Describes(row, f, t2)
  {
    assert t2[row.name] == t1[row.name] && t2[row.fileName] == t1[row.fileName];
  }

  /** The row of one function: its name and then its file name interned. */
  function FuncRowOf(t: StringTable.Table<Key>, f: Function): (r: (FuncRow, StringTable.Table<Key>))
    requires StringTable.Interned(t)
    ensures StringTable.Interned(r.1) && StringTable.Extends(t, r.1) && Describes(r.0, f, r.1)
  {
    var (t1, name) := StringTable.StringId(t, f.name);
    var (t2, fileName) := StringTable.StringId(t1, f.filename);
    assert t2[name] == t1[name];
    (FuncRow(name, f.implementation == RubyImpl, false, -1, fileName, f.startLineno), t2)
  }

  /** `build_func_table`: one row per function of the profile. */
  function FuncTable(t: StringTable.Table<Key>, functions: seq<Function>): (r: (seq<FuncRow>, StringTable.Table<Key>))
    requires StringTable.Interned(t)
    ensures StringTable.Interned(r.1) && |r.0| == |functions| && StringTable.Extends(t, r.1)
    decreases |functions|
  {
    if |functions| == 0 then ([], t)
    else
      var (row, t1) := FuncRowOf(t, functions[0]);
      var (rows, t2) := FuncTable(t1, functions[1..]);
      ([row] + rows, t2)
  }

  /** Every row of the function table describes its function through the
      final string table. */
  lemma {:induction false} FuncTableDescribes(t: StringTable.Table<Key>, functions: seq<Function>)
    requires StringTable.Interned(t)
    ensures var (rows, table) := FuncTable(t, functions);
      forall i :: 0 <= i < |functions| ==> Describes(rows[i], functions[i], table)
    decreases |functions|
  {
    if |functions| > 0 {
      var (row, t1) := FuncRowOf(t, functions[0]);
      var (rows, t2) := FuncTable(t1, functions[1..]);
      FuncTableDescribes(t1, functions[1..]);
      DescribesInExtension(row, functions[0], t1, t2);
      var all := [row] + rows;
      assert FuncTable(t, functions) == (all, t2);
      forall i | 0 <= i < |functions| ensures Describes(all[i], functions[i], t2) {
        if i > 0 {
          assert all[i] == rows[i - 1] && functions[i] == functions[1..][i - 1];
        }
      }
    }
  }

  datatype FrameRow = FrameRow(address: Option<int>, category: int, subcategory: int, func: nat,
                               line: int, inlineDepth: int)

  /** `build_frame_table`: one row per location, naming its function by
      index. */
  function FrameTable(locations: seq<Location>): (rows: seq<FrameRow>)
    ensures |rows| == |locations|
    ensures forall i :: 0 <= i < |locations| ==>
      rows[i].func == locations[i].functionIndex && rows[i].line == locations[i].lineno
      && rows[i].address == locations[i].address
  {
    seq(|locations|, i requires 0 <= i < |locations| =>
      FrameRow(locations[i].address, 1, 1, locations[i].functionIndex, locations[i].lineno, 0))
  }

  /* ----- Stack table: the trie of root-first location paths ----- */

  datatype StackRow = StackRow(frame: nat, category: int, prefix: Option<nat>)

  /** `@stack_tree` together with the stack table: the stack id of every
      registered root-first path of location indices, and the rows. */
  datatype Stacks = Stacks(ids: map<seq<nat>, nat>, rows: seq<StackRow>)

  /** `sample[:stack].reverse`: the outermost frame first. */
  function RootFirst(stack: seq<nat>): (r: seq<nat>)
    ensures |r| == |stack| && forall i :: 0 <= i < |stack| ==> r[i] == stack[|stack| - 1 - i]
  {
    seq(|stack|, i requires 0 <= i < |stack| => stack[|stack| - 1 - i])
  }

  /** `meta[:categories]` by index: 0 names "Logs", 1 "Ruby", and 2 and 3
      "Native". */
  const CategoryNames: seq<string> := ["Logs", "Ruby", "Native", "Native"]

  /** The stack-table category as `build_stack_table` writes it: 2 for
      Ruby functions, 1 for native ones. */
  function CategoryAsWritten(f: Function): (c: int)
    ensures 0 <= c < |CategoryNames|
  {
    if f.implementation == RubyImpl then 2 else 1
  }

  /** As written, every function is filed under the category of the
      other implementation. */
  lemma CategoryAsWrittenSwapsNames(f: Function)
    ensures CategoryNames[CategoryAsWritten(f)] == (if f.implementation == RubyImpl then "Native" else "Ruby")
  {
  }

  /** The category a stack row should get, as the category list and the
      older Firefox reporter intend: 1 ("Ruby") for Ruby functions, 2
      ("Native") for native ones. It swaps 1 and 2 in the category
      written, so a corrected stack table is the built one with that
      column relabelled and nothing else changed. */
  function CategoryOf(f: Function): (c: int)
    ensures 0 <= c < |CategoryNames|
    ensures CategoryNames[c] == (if f.implementation == RubyImpl then "Ruby" else "Native")
    ensures c == 3 - CategoryAsWritten(f)
  {
    if f.implementation == RubyImpl then 1 else 2
  }

  /** The row a registered path must have: its last location's function,
      that function's category as written, and the row of the path one
      shorter as prefix, which was registered earlier. */
  predicate Entry(p: Profile, s: Stacks, path: seq<nat>)
    requires path in s.ids
  {
    && 0 < |path| && s.ids[path] < |s.rows| && Resolves(p, path[|path| - 1])
    && (|path| > 1 ==> path[..|path| - 1] in s.ids && s.ids[path[..|path| - 1]] < s.ids[path])
    && s.rows[s.ids[path]] == StackRow(
         p.locations[path[|path| - 1]].functionIndex,
         CategoryAsWritten(p.functions[p.locations[path[|path| - 1]].functionIndex]),
         if |path| == 1 then None else Some(s.ids[path[..|path| - 1]]))
  }

  /** Every registered path has its own row, and there is one row per
      registered path. */
  predicate Valid(p: Profile, s: Stacks) {
    Entries(p, s) && Injective(s.ids) && |s.ids| == |s.rows|
  }

  predicate Entries(p: Profile, s: Stacks) {
    forall path {:trigger Entry(p, s, path)} :: path in s.ids ==> Entry(p, s, path)
  }

  predicate Injective(ids: map<seq<nat>, nat>) {
    forall a, b :: a in ids && b in ids && a != b ==> ids[a] != ids[b]
  }

  /** `s'` keeps every path and row of `s`. */
  predicate Grows(s: Stacks, s': Stacks) {
    && (forall path :: path in s.ids ==> path in s'.ids && s'.ids[path] == s.ids[path])
    && |s.rows| <= |s'.rows| && (forall i :: 0 <= i < |s.rows| ==> s'.rows[i] == s.rows[i])
  }

  /** What the parent pointer `ptr[:stack_id]` holds at depth `|path| - 1`. */
  predicate ParentIs(s: Stacks, path: seq<nat>, parent: Option<nat>)
    requires 0 < |path|
  {
    if |path| == 1 then parent == None
    else path[..|path| - 1] in s.ids && parent == Some(s.ids[path[..|path| - 1]])
  }

  /** One step of the walk down the trie: a known path gives its id; a new
      one is registered with the next row, whose location and function
      must exist (`nil[:function_index]` and `nil[:implementation]` raise
      otherwise). */
  function Visit(p: Profile, s: Stacks, path: seq<nat>, parent: Option<nat>): (r: Result<(Stacks, nat), ReportError>)
    requires 0 < |path|
    ensures r.Success? <==> path in s.ids || Resolves(p, path[|path| - 1])
  {
    if path in s.ids then Success((s, s.ids[path]))
    else match FunctionOf(p, path[|path| - 1])
      case None => Failure(NoMethodError)
      case Some(f) =>
        var id := |s.rows|;
        Success((Stacks(s.ids[path := id], s.rows + [StackRow(p.locations[path[|path| - 1]].functionIndex, CategoryAsWritten(f), parent)]), id))
  }

  /** A new row is filed under the category of the other implementation:
      a Ruby function's row under "Native", a native function's under
      "Ruby". */
  lemma VisitFilesUnderOtherCategory(p: Profile, s: Stacks, path: seq<nat>, parent: Option<nat>)
    requires 0 < |path| && path !in s.ids && Resolves(p, path[|path| - 1])
    ensures var r := Visit(p, s, path, parent);
      var f := p.functions[p.locations[path[|path| - 1]].functionIndex];
      && r.Success? && r.value.1 == |s.rows| && |r.value.0.rows| == |s.rows| + 1
      && r.value.0.rows[|s.rows|].category == CategoryAsWritten(f)
      && CategoryNames[r.value.0.rows[|s.rows|].category] == (if f.implementation == RubyImpl then "Native" else "Ruby")
  {
  }

  /** One Ruby function, one location, one sample whose stack is that
      location: its only stack row gets category 2. */
  lemma RubyOnlyRowIsCategoryTwo()
    ensures var p := Profile(0, 0, [Sample([0], [], None, 0, None)], [Location(0, 1, None)],
                             [Function(RubyImpl, Some("main"), Some("a.rb"), Some(1), None)]);
      var r := Visit(p, Stacks(map[], []), [0], None);
      r.Success? && r.value.0.rows == [StackRow(0, 2, None)]
  {
  }

  /** The inner `stack.each` loop from depth `j` on. */
  function Walk(p: Profile, s: Stacks, path: seq<nat>, j: nat, parent: Option<nat>): Result<Stacks, ReportError>
    requires j <= |path|
    decreases |path| - j
  {
    if j == |path| then Success(s)
    else
      var v :- Visit(p, s, path[..j + 1], parent);
      Walk(p, v.0, path, j + 1, Some(v.1))
  }

  /** The outer `@profile[:samples].each` loop. */
  function AddSamples(p: Profile, s: Stacks, samples: seq<Sample>): Result<Stacks, ReportError>
    decreases |samples|
  {
    if |samples| == 0 then Success(s)
    else
      var s1 :- Walk(p, s, RootFirst(samples[0].stack), 0, None);
      AddSamples(p, s1, samples[1..])
  }

  /** `build_stack_table`: every sample of the profile, whichever thread
      the report is for. */
  function StackTable(p: Profile): Result<Stacks, ReportError> {
    AddSamples(p, Stacks(map[], []), p.samples)
  }

  /** Growing the trie keeps an existing path's row as it was. */
  lemma EntryKept(p: Profile, s: Stacks, s': Stacks, path: seq<nat>)
    requires path in s.ids && Entry(p, s, path) && Grows(s, s')
    ensures path in s'.ids && Entry(p, s', path)
  {
    if |path| > 1 {
      var up := path[..|path| - 1];
      assert s'.ids[up] == s.ids[up];
    }
    assert s'.rows[s.ids[path]] == s.rows[s.ids[path]];
  }

  /** A fresh id above all others keeps the ids distinct. */
  lemma InjectiveInsert(ids: map<seq<nat>, nat>, key: seq<nat>, n: nat)
    requires key !in ids && Injective(ids)
    requires forall a :: a in ids ==> ids[a] < n
    ensures Injective(ids[key := n])
  {
  }

  /** The row registered for a new path is the one `Entry` asks for, and
      the old paths keep theirs. */
  lemma EntriesAfterInsert(p: Profile, s: Stacks, path: seq<nat>, parent: Option<nat>, s': Stacks)
    requires Entries(p, s) && 0 < |path| && path !in s.ids && ParentIs(s, path, parent)
    requires Resolves(p, path[|path| - 1])
    requires var loc := p.locations[path[|path| - 1]];
      s' == Stacks(s.ids[path := |s.rows|],
                   s.rows + [StackRow(loc.functionIndex, CategoryAsWritten(p.functions[loc.functionIndex]), parent)])
    ensures Entries(p, s') && Grows(s, s')
  {
    var n := |s.rows|;
    assert Grows(s, s') by {
      forall i | 0 <= i < n ensures s'.rows[i] == s.rows[i] {
      }
    }
    forall q | q in s'.ids ensures Entry(p, s', q) {
      if q != path {
        EntryKept(p, s, s', q);
      } else if |path| > 1 {
        assert Entry(p, s, path[..|path| - 1]);
      }
    }
  }

  /** A step of the walk keeps the trie valid, only adds to it, and leaves
      the path registered under the id it returns. */
  lemma VisitValid(p: Profile, s: Stacks, path: seq<nat>, parent: Option<nat>)
    requires Valid(p, s) && 0 < |path| && ParentIs(s, path, parent)
    requires Visit(p, s, path, parent).Success?
    ensures var v := Visit(p, s, path, parent).value;
      Valid(p, v.0) && Grows(s, v.0) && path in v.0.ids && v.0.ids[path] == v.1
  {
    if path !in s.ids {
      var s' := Visit(p, s, path, parent).value.0;
      EntriesAfterInsert(p, s, path, parent, s');
      assert forall a :: a in s.ids ==> s.ids[a] < |s.rows| by {
        forall a | a in s.ids ensures s.ids[a] < |s.rows| {
          assert Entry(p, s, a);
        }
      }
      InjectiveInsert(s.ids, path, |s.rows|);
    }
  }

  /** Every non-empty prefix of `path` of length at most `n` is
      registered. */
  predicate Registered(s: Stacks, path: seq<nat>, n: nat)
    requires n <= |path|
  {
    forall k :: 1 <= k <= n ==> path[..k] in s.ids
  }

  lemma RegisteredGrows(s: Stacks, s': Stacks, path: seq<nat>)
    requires Registered(s, path, |path|) && Grows(s, s')
    ensures Registered(s', path, |path|)
  {
    forall k | 1 <= k <= |path| ensures path[..k] in s'.ids {
      assert path[..k] in s.ids;
    }
  }

  lemma GrowsTrans(s1: Stacks, s2: Stacks, s3: Stacks)
    requires Grows(s1, s2) && Grows(s2, s3)
    ensures Grows(s1, s3)
  {
    forall q | q in s1.ids ensures q in s3.ids && s3.ids[q] == s1.ids[q] {
      assert s2.ids[q] == s1.ids[q];
    }
  }

  /** The premises of the walk at depth `j`: the prefixes walked so far
      are registered and `parent` is the id of the last one. */
  predicate WalkFrom(s: Stacks, path: seq<nat>, j: nat, parent: Option<nat>)
    requires j <= |path|
  {
    && Registered(s, path, j)
    && (j == 0 ==> parent == None)
    && (j > 0 ==> parent == Some(s.ids[path[..j]]))
  }

  /** One step of the walk, as the recursion takes it. */
  lemma WalkStep(p: Profile, s: Stacks, path: seq<nat>, j: nat, parent: Option<nat>)
    requires Valid(p, s) && j < |path| && WalkFrom(s, path, j, parent)
    ensures ParentIs(s, path[..j + 1], parent)
    ensures var v := Visit(p, s, path[..j + 1], parent);
      && (v.Success? <==> Resolves(p, path[j]))
      && (v.Success? ==> Valid(p, v.value.0) && Grows(s, v.value.0) && WalkFrom(v.value.0, path, j + 1, Some(v.value.1)))
  {
    var step := path[..j + 1];
    assert step[..j] == path[..j];
    assert step[|step| - 1] == path[j];
    if step in s.ids {
      assert Entry(p, s, step);
    }
    var v := Visit(p, s, step, parent);
    if v.Success? {
      VisitValid(p, s, step, parent);
      var s1 := v.value.0;
      forall k | 1 <= k <= j + 1 ensures path[..k] in s1.ids {
        if k <= j {
          assert path[..k] in s.ids;
        }
      }
    }
  }

  /** A successful walk over one stack keeps the trie valid and registers
      every prefix of the stack. */
  lemma {:induction false} WalkKeeps(p: Profile, s: Stacks, path: seq<nat>, j: nat, parent: Option<nat>)
    requires Valid(p, s) && j <= |path| && WalkFrom(s, path, j, parent)
    requires Walk(p, s, path, j, parent).Success?
    ensures var s' := Walk(p, s, path, j, parent).value;
      Valid(p, s') && Grows(s, s') && Registered(s', path, |path|)
    decreases |path| - j
  {
    if j < |path| {
      WalkStep(p, s, path, j, parent);
      var v := Visit(p, s, path[..j + 1], parent).value;
      WalkKeeps(p, v.0, path, j + 1, Some(v.1));
      GrowsTrans(s, v.0, Walk(p, s, path, j, parent).value);
    }
  }

  /** The walk over one stack succeeds exactly when every location from
      depth `j` on resolves: a path already known resolved when it was
      registered. */
  lemma {:induction false} WalkSucceeds(p: Profile, s: Stacks, path: seq<nat>, j: nat, parent: Option<nat>)
    requires Valid(p, s) && j <= |path| && WalkFrom(s, path, j, parent)
    ensures Walk(p, s, path, j, parent).Success? <==> forall k :: j <= k < |path| ==> Resolves(p, path[k])
    decreases |path| - j
  {
    if j < |path| {
      WalkStep(p, s, path, j, parent);
      var v := Visit(p, s, path[..j + 1], parent);
      if v.Success? {
        WalkSucceeds(p, v.value.0, path, j + 1, Some(v.value.1));
      }
    }
  }

  /** Every location of every sample exists and so does its function. */
  predicate AllResolve(p: Profile, samples: seq<Sample>) {
    forall i, k :: 0 <= i < |samples| && 0 <= k < |samples[i].stack| ==> Resolves(p, samples[i].stack[k])
  }

  lemma RootFirstResolves(p: Profile, stack: seq<nat>)
    ensures (forall k :: 0 <= k < |stack| ==> Resolves(p, RootFirst(stack)[k]))
        <==> (forall k :: 0 <= k < |stack| ==> Resolves(p, stack[k]))
  {
    var path := RootFirst(stack);
    if forall k :: 0 <= k < |stack| ==> Resolves(p, path[k]) {
      forall k | 0 <= k < |stack| ensures Resolves(p, stack[k]) {
        assert stack[k] == path[|stack| - 1 - k];
      }
    }
  }

  /** A successful loop over the samples keeps the trie valid and
      registers every prefix of every sample's root-first stack. */
  lemma {:induction false} AddSamplesKeeps(p: Profile, s: Stacks, samples: seq<Sample>)
    requires Valid(p, s) && AddSamples(p, s, samples).Success?
    ensures var s' := AddSamples(p, s, samples).value;
      && Valid(p, s') && Grows(s, s')
      && forall i :: 0 <= i < |samples| ==> Registered(s', RootFirst(samples[i].stack), |samples[i].stack|)
    decreases |samples|
  {
    if |samples| > 0 {
      var path := RootFirst(samples[0].stack);
      var w := Walk(p, s, path, 0, None).value;
      WalkKeeps(p, s, path, 0, None);
      var rest := samples[1..];
      AddSamplesKeeps(p, w, rest);
      var s' := AddSamples(p, s, samples).value;
      assert s' == AddSamples(p, w, rest).value;
      RegisteredGrows(w, s', path);
      GrowsTrans(s, w, s');
      forall i | 0 <= i < |samples| ensures Registered(s', RootFirst(samples[i].stack), |samples[i].stack|) {
        if i > 0 {
          assert samples[i] == rest[i - 1];
        }
      }
    }
  }

  /** The loop over the samples succeeds exactly when all their locations
      resolve. */
  lemma {:induction false} AddSamplesSucceeds(p: Profile, s: Stacks, samples: seq<Sample>)
    requires Valid(p, s)
    ensures AddSamples(p, s, samples).Success? <==> AllResolve(p, samples)
    decreases |samples|
  {
    if |samples| > 0 {
      var path := RootFirst(samples[0].stack);
      WalkSucceeds(p, s, path, 0, None);
      RootFirstResolves(p, samples[0].stack);
      AllResolveSplit(p, samples);
      var w := Walk(p, s, path, 0, None);
      if w.Success? {
        WalkKeeps(p, s, path, 0, None);
        AddSamplesSucceeds(p, w.value, samples[1..]);
      }
    }
  }

  lemma AllResolveSplit(p: Profile, samples: seq<Sample>)
    requires 0 < |samples|
    ensures AllResolve(p, samples) <==>
      (forall k :: 0 <= k < |samples[0].stack| ==> Resolves(p, samples[0].stack[k])) && AllResolve(p, samples[1..])
  {
    if (forall k :: 0 <= k < |samples[0].stack| ==> Resolves(p, samples[0].stack[k])) && AllResolve(p, samples[1..]) {
      forall i, k | 0 <= i < |samples| && 0 <= k < |samples[i].stack| ensures Resolves(p, samples[i].stack[k]) {
        if i > 0 {
          assert samples[i] == samples[1..][i - 1];
        }
      }
    }
  }

  /** The stack table succeeds exactly when every location of every
      sample resolves; then every prefix of every sample's root-first
      stack has its row, whose frame is the prefix's last function, whose
      prefix is the row of the prefix one shorter, and which no other path
      shares. */
  lemma StackTableSound(p: Profile)
    ensures StackTable(p).Success? <==> AllResolve(p, p.samples)
    ensures StackTable(p).Success? ==> var s := StackTable(p).value;
      && Valid(p, s)
      && forall i :: 0 <= i < |p.samples| ==> Registered(s, RootFirst(p.samples[i].stack), |p.samples[i].stack|)
  {
    var empty := Stacks(map[], []);
    AddSamplesSucceeds(p, empty, p.samples);
    if StackTable(p).Success? {
      AddSamplesKeeps(p, empty, p.samples);
    }
  }

  /* ----- Samples and the thread report ----- */

  datatype SampleTable = SampleTable(stack: seq<Option<nat>>, time: seq<int>, duration: seq<int>,
                                     eventDelay: seq<int>, length: nat)

  /** `@stack_tree.dig(*stack, :stack_id)`: the id of a registered path;
      `nil` for the empty stack (the root has no id) and for a path that
      is not there. */
  function Dig(s: Stacks, path: seq<nat>): Option<nat> {
    if path in s.ids then Some(s.ids[path]) else None
  }

  /** `build_samples`: each sample's stack row, its time in whole
      milliseconds (`elapsed_ns / 1_000_000`, rounded down), a duration of
      100 and no event delay. */
  function BuildSamples(s: Stacks, samples: seq<Sample>): (r: SampleTable)
    ensures |r.stack| == |samples| && |r.time| == |samples| && |r.duration| == |samples|
    ensures |r.eventDelay| == |samples| && r.length == |samples|
    ensures forall i :: 0 <= i < |samples| ==>
      r.time[i] * 1000000 <= samples[i].elapsedNs < (r.time[i] + 1) * 1000000
      && r.duration[i] == 100 && r.eventDelay[i] == 0
  {
    var stack := seq(|samples|, i requires 0 <= i < |samples| => Dig(s, RootFirst(samples[i].stack)));
    var time := seq(|samples|, i requires 0 <= i < |samples| => samples[i].elapsedNs / 1000000);
    SampleTable(stack, time, seq(|samples|, _ => 100), seq(|samples|, _ => 0), |samples|)
  }

  /** A thread's report, less the constant columns and the empty markers. */
  datatype ThreadReport = ThreadReport(
    threadId: ThreadId,
    funcTable: seq<FuncRow>,
    frameTable: seq<FrameRow>,
    stackTable: seq<StackRow>,
    samples: SampleTable,
    strings: seq<Key>)

  /** `ThreadReport#emit`: the function table (which does all the
      interning), the frame table, the stack table over the whole profile,
      the thread's samples, and the string array. */
  function EmitThread(p: Profile, tid: ThreadId, samples: seq<Sample>): Result<ThreadReport, ReportError> {
    var (funcs, table) := FuncTable([], p.functions);
    var stacks :- StackTable(p);
    Success(ThreadReport(tid, funcs, FrameTable(p.locations), stacks.rows,
                         BuildSamples(stacks, samples), StringTable.BuildStringTable(table)))
  }

  function EmitThreads(p: Profile, groups: seq<(ThreadId, seq<Sample>)>): (r: Result<seq<ThreadReport>, ReportError>)
    ensures r.Success? ==> |r.value| == |groups|
    decreases |groups|
  {
    if |groups| == 0 then Success([])
    else
      var first :- EmitThread(p, groups[0].0, groups[0].1);
      var rest :- EmitThreads(p, groups[1..]);
      Success([first] + rest)
  }

  /** `emit`, before the keys are camelized: one report per thread that has
      samples. */
  function Emit(p: Profile): Result<seq<ThreadReport>, ReportError> {
    EmitThreads(p, GroupByThread(p.samples))
  }

  lemma {:induction false} EmitThreadsAll(p: Profile, groups: seq<(ThreadId, seq<Sample>)>)
    ensures 0 < |groups| ==> (EmitThreads(p, groups).Success? <==> StackTable(p).Success?)
    ensures EmitThreads(p, groups).Success? ==> forall i :: 0 <= i < |groups| ==>
      EmitThread(p, groups[i].0, groups[i].1) == Success(EmitThreads(p, groups).value[i])
    decreases |groups|
  {
    if |groups| > 0 {
      EmitThreadsAll(p, groups[1..]);
      var r := EmitThreads(p, groups);
      if r.Success? {
        forall i | 0 <= i < |groups| ensures EmitThread(p, groups[i].0, groups[i].1) == Success(r.value[i]) {
          if i > 0 {
            assert groups[i] == groups[1..][i - 1];
          }
        }
      }
    }
  }

  /** Where a sample's stack column points: nowhere for an empty stack;
      otherwise at a row whose frame is the function of the sample's leaf
      location and whose prefix is the row of the caller stack (the stack
      without its leaf). */
  predicate LeafRow(p: Profile, s: Stacks, x: Sample, row: Option<nat>) {
    if |x.stack| == 0 then row == None
    else
      && row.Some? && row.value < |s.rows| && Resolves(p, x.stack[0])
      && s.rows[row.value].frame == p.locations[x.stack[0]].functionIndex
      && s.rows[row.value].prefix == Dig(s, RootFirst(x.stack[1..]))
  }

  /** A sample whose stack is registered finds its leaf row. */
  lemma SampleLeafRow(p: Profile, s: Stacks, x: Sample)
    requires Valid(p, s) && Registered(s, RootFirst(x.stack), |x.stack|)
    ensures LeafRow(p, s, x, Dig(s, RootFirst(x.stack)))
  {
    var path := RootFirst(x.stack);
    var n := |path|;
    var empty: seq<nat> := [];
    assert empty in s.ids ==> Entry(p, s, empty);
    if n > 0 {
      assert path[..n] == path;
      assert Entry(p, s, path);
      assert path[n - 1] == x.stack[0];
      if n > 1 {
        assert RootFirst(x.stack[1..]) == path[..n - 1];
      } else {
        assert RootFirst(x.stack[1..]) == empty;
      }
    }
  }

  /** A report succeeds exactly when every location of every sample of
      the profile resolves (none raises `NoMethodError`), whichever threads
      there are; a profile without samples gives no reports. */
  lemma EmitSucceeds(p: Profile)
    ensures Emit(p).Success? <==> AllResolve(p, p.samples)
    ensures |p.samples| == 0 ==> Emit(p) == Success([])
  {
    var groups := GroupByThread(p.samples);
    GroupByThreadPartitions(p.samples);
    StackTableSound(p);
    EmitThreadsAll(p, groups);
  }

  /** Every function row names its function and file through the string
      array built from the function table's interning. */
  lemma FuncTableNames(p: Profile)
    ensures var (funcs, table) := FuncTable([], p.functions); var strings := StringTable.BuildStringTable(table);
      forall f :: 0 <= f < |p.functions| ==>
        && funcs[f].name < |strings| && strings[funcs[f].name] == p.functions[f].name
        && funcs[f].fileName < |strings| && strings[funcs[f].fileName] == p.functions[f].filename
        && funcs[f].isJs == (p.functions[f].implementation == RubyImpl)
  {
    var r := FuncTable([], p.functions);
    FuncTableDescribes([], p.functions);
    DescribedRowsName(r.0, r.1, p.functions);
  }

  /** Rows that describe their functions through an interned table name
      them through its string array. */
  lemma DescribedRowsName(funcs: seq<FuncRow>, table: StringTable.Table<Key>, functions: seq<Function>)
    requires StringTable.Interned(table) && |funcs| == |functions|
    requires forall f :: 0 <= f < |functions| ==> Describes(funcs[f], functions[f], table)
    ensures var strings := StringTable.BuildStringTable(table);
      forall f :: 0 <= f < |functions| ==>
        && funcs[f].name < |strings| && strings[funcs[f].name] == functions[f].name
        && funcs[f].fileName < |strings| && strings[funcs[f].fileName] == functions[f].filename
        && funcs[f].isJs == (functions[f].implementation == RubyImpl)
  {
    StringTable.SortInterned(table);
  }

  /** Every sample of the profile finds its leaf row in the samples
      table. */
  lemma SamplesLeafRows(p: Profile, samples: seq<Sample>)
    requires StackTable(p).Success?
    requires forall x :: x in samples ==> x in p.samples
    ensures var stacks := StackTable(p).value; var table := BuildSamples(stacks, samples);
      forall j :: 0 <= j < |samples| ==> LeafRow(p, stacks, samples[j], table.stack[j])
  {
    StackTableSound(p);
    var stacks := StackTable(p).value;
    forall j | 0 <= j < |samples| ensures LeafRow(p, stacks, samples[j], BuildSamples(stacks, samples).stack[j]) {
      var x := samples[j];
      assert x in samples;
      var n :| 0 <= n < |p.samples| && p.samples[n] == x;
      SampleLeafRow(p, stacks, x);
    }
  }

  /** The report of a thread whose samples are samples of the profile,
      once the stack table succeeds. */
  lemma EmitThreadReport(p: Profile, tid: ThreadId, samples: seq<Sample>)
    requires StackTable(p).Success?
    requires forall x :: x in samples ==> x in p.samples
    ensures EmitThread(p, tid, samples).Success?
    ensures ReportOf(p, EmitThread(p, tid, samples).value, tid, samples)
  {
    var r := FuncTable([], p.functions);
    var stacks := StackTable(p).value;
    var report := ThreadReport(tid, r.0, FrameTable(p.locations), stacks.rows,
                               BuildSamples(stacks, samples), StringTable.BuildStringTable(r.1));
    assert EmitThread(p, tid, samples) == Success(report);
    FuncTableNames(p);
    SamplesLeafRows(p, samples);
    assert ReportOf(p, report, tid, samples);
  }

  /** In a successful report there is one thread report per thread, in
      first-appearance order, each with exactly that thread's samples and
      the stack table of the whole profile; every function row names its
      function and file through the string array; and every sample's stack
      column points at its leaf row. */
  lemma EmitReports(p: Profile)
    requires Emit(p).Success?
    ensures var reports := Emit(p).value; var groups := GroupByThread(p.samples);
      && StackTable(p).Success? && Grouped(groups, p.samples)
      && |reports| == |groups|
      && forall i :: 0 <= i < |reports| ==> ReportOf(p, reports[i], groups[i].0, groups[i].1)
  {
    var groups := GroupByThread(p.samples);
    var reports := Emit(p).value;
    GroupByThreadPartitions(p.samples);
    EmitSucceeds(p);
    StackTableSound(p);
    EmitThreadsAll(p, groups);
    forall i | 0 <= i < |reports| ensures ReportOf(p, reports[i], groups[i].0, groups[i].1) {
      assert groups[i].1 == SamplesOf(p.samples, groups[i].0);
      EmitThreadReport(p, groups[i].0, groups[i].1);
    }
  }

  /** `report` is the report of thread `tid` with samples `samples`. */
  predicate ReportOf(p: Profile, report: ThreadReport, tid: ThreadId, samples: seq<Sample>)
    requires StackTable(p).Success?
  {
    var stacks := StackTable(p).value;
    && report.threadId == tid
    && |report.funcTable| == |p.functions| && |report.frameTable| == |p.locations|
    && report.stackTable == stacks.rows
    && report.samples.length == |samples| && |report.samples.stack| == |samples|
    && (forall f :: 0 <= f < |p.functions| ==>
          && report.funcTable[f].name < |report.strings|
          && report.strings[report.funcTable[f].name] == p.functions[f].name
          && report.funcTable[f].fileName < |report.strings|
          && report.strings[report.funcTable[f].fileName] == p.functions[f].filename
          && report.funcTable[f].isJs == (p.functions[f].implementation == RubyImpl))
    && (forall j :: 0 <= j < |samples| ==> LeafRow(p, stacks, samples[j], report.samples.stack[j]))
  }
}
