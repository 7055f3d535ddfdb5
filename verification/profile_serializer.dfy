/** `ProfileSerializer` of the Rust extension
    (`ext/pf2/src/profile_serializer.rs`): each sample's native and Ruby
    frames are merged into one stack, which is inserted root first into a
    per-thread tree of stack nodes; the sample is recorded against the node
    of its leaf.

    A tree whose children are keyed by frame id is described exactly by the
    map from each node's root-first path of frame ids to its node id; that
    map is what this module keeps. Symbol lookup, the Ruby frames' labels
    and the hash of a C frame's name are parameters. The serializer panics
    on a symbol name or label that is not UTF-8 and, with overflow checks
    on, when its `i32` node counter overflows; a panic is a `Failure`. */
module ProfileSerializer {
  import opened Wrappers

  /** `i32::MAX`: node ids and the node counter are `i32`
      (`StackTreeNodeId`). */
  const I32Max := 0x7fff_ffff

  /** Why `serialize` panics: `to_str().unwrap()` on a symbol name or on a
      Ruby label that is not UTF-8, or `sequence += 1` past `i32::MAX`. */
  datatype Panic = SymbolNotUtf8 | LabelNotUtf8 | NodeIdOverflow

  /** What `backtrace_syminfo` hands its callback for a program counter:
      no call at all (the error callback ran instead), a null name, a name,
      or a name whose bytes are not UTF-8. */
  datatype Syminfo = NoCallback | NullName | Name(text: string) | NotUtf8Name

  /** `FrameTableEntryType`. */
  datatype EntryType = Ruby | Native

  /** `FrameTableEntry`. */
  datatype FrameEntry = FrameEntry(id: int, entryType: EntryType, fullLabel: string)

  /** `ProfileSample`: a leaf reached at some time. */
  datatype ProfileSample = ProfileSample(elapsedNs: nat, stackTreeId: int)

  /** `ThreadProfile`, its stack tree given as the path map. */
  datatype ThreadProfile = ThreadProfile(
    threadId: int,
    nodes: map<seq<int>, int>,
    frameTable: map<int, FrameEntry>,
    samples: seq<ProfileSample>)

  /** The fields of a Rust sample this serializer reads. `cBacktracePcs[0]`
      is the number of program counters that follow it. */
  datatype TrieSample = TrieSample(
    rubyThread: int,
    timestamp: int,
    cBacktracePcs: seq<nat>,
    lineCount: int,
    frames: seq<int>)

  /** The counts the loops read stay inside their arrays. */
  predicate WellFormed(s: TrieSample) {
    |s.cBacktracePcs| > 0 && s.cBacktracePcs[0] < |s.cBacktracePcs| && s.lineCount <= |s.frames|
  }

  /** `ThreadProfile::new`: only the root, with node id 0 (its frame id is
      0 too), no frames and no samples. */
  function NewThread(threadId: int): (t: ThreadProfile)
    ensures t.threadId == threadId && t.nodes == map[[] := 0]
    ensures t.frameTable == map[] && t.samples == []
  {
    ThreadProfile(threadId, map[[] := 0], map[], [])
  }

  /** `haystack.contains(needle)`. */
  function Contains(haystack: string, needle: string): bool
    decreases |haystack|
  {
    if |haystack| < |needle| then false
    else haystack[..|needle|] == needle || Contains(haystack[1..], needle)
  }

  /** `needle` occurs in `haystack` at `i`. */
  predicate OccursAt(haystack: string, needle: string, i: int) {
    0 <= i && i + |needle| <= |haystack| && haystack[i..i + |needle|] == needle
  }

  /** A slice of a string's tail is the slice one further along. */
  lemma SliceOfTail(s: string, i: int, n: nat)
    requires 0 < i && i + n <= |s|
    ensures s[1..][i - 1..i - 1 + n] == s[i..i + n]
  {
    var a, b := s[1..][i - 1..i - 1 + n], s[i..i + n];
    forall k | 0 <= k < n
      ensures a[k] == b[k]
    {
    }
  }

  /** `Contains` finds a substring exactly when it occurs somewhere. */
  lemma {:induction false} ContainsIffOccurs(haystack: string, needle: string)
    ensures Contains(haystack, needle) <==> exists i :: OccursAt(haystack, needle, i)
    decreases |haystack|
  {
    if |haystack| >= |needle| && haystack[..|needle|] == needle {
      assert OccursAt(haystack, needle, 0);
    } else if |haystack| >= |needle| {
      ContainsIffOccurs(haystack[1..], needle);
      if Contains(haystack[1..], needle) {
        var i :| OccursAt(haystack[1..], needle, i);
        SliceOfTail(haystack, i + 1, |needle|);
        assert OccursAt(haystack, needle, i + 1);
      } else {
        forall i | OccursAt(haystack, needle, i)
          ensures false
        {
          assert i > 0;
          SliceOfTail(haystack, i, |needle|);
          assert OccursAt(haystack[1..], needle, i - 1);
        }
      }
    } else {
      forall i | OccursAt(haystack, needle, i)
        ensures false
      {
      }
    }
  }

  /** A frame of the profiler itself. */
  predicate IsPf2Frame(frame: string) {
    Contains(frame, "pf2")
  }

  /** A frame where the C stack enters the Ruby VM. */
  predicate IsVmEntry(frame: string) {
    Contains(frame, "rb_vm_exec") || Contains(frame, "vm_call_cfunc_with_frame")
  }

  /** The `retain` pass over the C stack: the first frame that is not a
      profiler frame but is a VM entry cuts it there (itself included);
      profiler frames are dropped wherever they are. */
  function Strip(frames: seq<string>): (kept: seq<string>)
    ensures |kept| <= |frames|
    ensures forall i :: 0 <= i < |kept| ==> !IsPf2Frame(kept[i]) && !IsVmEntry(kept[i])
  {
    if |frames| == 0 then []
    else if IsPf2Frame(frames[0]) then Strip(frames[1..])
    else if IsVmEntry(frames[0]) then []
    else [frames[0]] + Strip(frames[1..])
  }

  /** Where the C stack is cut: the first frame that is a VM entry without
      being a profiler frame, or the end. */
  function Cut(frames: seq<string>): (k: nat)
    ensures k <= |frames|
    ensures k < |frames| ==> !IsPf2Frame(frames[k]) && IsVmEntry(frames[k])
    ensures forall i :: 0 <= i < k ==> IsPf2Frame(frames[i]) || !IsVmEntry(frames[i])
  {
    if |frames| == 0 then 0
    else if !IsPf2Frame(frames[0]) && IsVmEntry(frames[0]) then 0
    else 1 + Cut(frames[1..])
  }

  /** The frames of `frames` that are not profiler frames, in order. */
  function WithoutPf2(frames: seq<string>): (r: seq<string>)
    ensures forall i :: 0 <= i < |r| ==> !IsPf2Frame(r[i])
  {
    if |frames| == 0 then []
    else if IsPf2Frame(frames[0]) then WithoutPf2(frames[1..])
    else [frames[0]] + WithoutPf2(frames[1..])
  }

  /** Stripping keeps exactly the non-profiler frames before the cut, in
      their order. */
  lemma {:induction false} StripIsFilterBeforeCut(frames: seq<string>)
    ensures Strip(frames) == WithoutPf2(frames[..Cut(frames)])
  {
    if |frames| > 0 {
      StripIsFilterBeforeCut(frames[1..]);
      if IsPf2Frame(frames[0]) || !IsVmEntry(frames[0]) {
        assert frames[..Cut(frames)][1..] == frames[1..][..Cut(frames[1..])];
        assert frames[..Cut(frames)][0] == frames[0];
      }
    }
  }

  /** The C stack of a sample: for each of its program counters, the
      symbol name, or "(no symbol information)" when the lookup finds none;
      nothing when the lookup reports an error instead. A name that is not
      UTF-8 panics, whether or not stripping would later drop it. */
  function CStack(pcs: seq<nat>, count: nat, symbols: nat -> Syminfo): (stack: Result<seq<string>, Panic>)
    requires count < |pcs|
    ensures stack.Failure? <==> exists k :: 1 <= k <= count && symbols(pcs[k]).NotUtf8Name?
    ensures stack.Failure? ==> stack.error == SymbolNotUtf8
    ensures stack.Success? ==> |stack.value| <= count
    decreases count
  {
    if count == 0 then Success([])
    else
      var prefix :- CStack(pcs, count - 1, symbols);
      match symbols(pcs[count])
      case NoCallback => Success(prefix)
      case NullName => Success(prefix + ["(no symbol information)"])
      case Name(name) => Success(prefix + [name])
      case NotUtf8Name => Failure(SymbolNotUtf8)
  }

  /** The merged stack: the kept native frames (ids from hashing their
      names), then Ruby frames `0..line_count` (ids are the frame values).
      `labels(frame)` is `None` when the frame's full label is not UTF-8,
      which panics. */
  function MergedStack(native: seq<string>, sample: TrieSample, labels: int -> Option<string>, cFrameId: string -> int)
    : (merged: Result<seq<FrameEntry>, Panic>)
    requires WellFormed(sample)
    ensures merged.Failure? <==>
      exists i :: 0 <= i < sample.lineCount && labels(sample.frames[i]).None?
    ensures merged.Failure? ==> merged.error == LabelNotUtf8
    ensures merged.Success? ==>
      |merged.value| == |native| + (if sample.lineCount < 0 then 0 else sample.lineCount)
    ensures merged.Success? ==> forall i :: 0 <= i < |native| ==>
      merged.value[i] == FrameEntry(cFrameId(native[i]), Native, native[i])
    ensures merged.Success? ==> forall i :: |native| <= i < |merged.value| ==>
      Some(merged.value[i].fullLabel) == labels(sample.frames[i - |native|])
      && merged.value[i] == FrameEntry(sample.frames[i - |native|], Ruby, merged.value[i].fullLabel)
  {
    var depth := if sample.lineCount < 0 then 0 else sample.lineCount;
    if exists i :: 0 <= i < depth && labels(sample.frames[i]).None? then Failure(LabelNotUtf8)
    else
      Success(seq(|native|, i requires 0 <= i < |native| => FrameEntry(cFrameId(native[i]), Native, native[i]))
              + seq(depth, i requires 0 <= i < depth => FrameEntry(sample.frames[i], Ruby, labels(sample.frames[i]).value)))
  }

  /** `xs` back to front: the order `pop` consumes a stack in. */
  function Reverse<T>(xs: seq<T>): (r: seq<T>)
    ensures |r| == |xs| && forall i :: 0 <= i < |xs| ==> r[i] == xs[|xs| - 1 - i]
  {
    seq(|xs|, i requires 0 <= i < |xs| => xs[|xs| - 1 - i])
  }

  /** The frame ids of a walk. */
  function Ids(walk: seq<FrameEntry>): (ids: seq<int>)
    ensures |ids| == |walk| && forall i :: 0 <= i < |walk| ==> ids[i] == walk[i].id
  {
    seq(|walk|, i requires 0 <= i < |walk| => walk[i].id)
  }

  /** The first entry of `walk` with id `id`, if any. */
  function FirstWithId(walk: seq<FrameEntry>, id: int): (r: Option<FrameEntry>)
    ensures r.Some? ==> r.value in walk && r.value.id == id
    ensures r.None? ==> forall i :: 0 <= i < |walk| ==> walk[i].id != id
  {
    if |walk| == 0 then None
    else if walk[0].id == id then Some(walk[0])
    else FirstWithId(walk[1..], id)
  }

  /** The node map after the `pop` loop descends from the node at `path`
      along the frame ids `ids` (root first): a missing child is created
      with the counter's value, and every visit bumps the counter, whether
      or not it creates a node (the `or_insert` argument is built on every
      visit). The counter ends at `sequence + |ids|`. */
  function Descend(nodes: map<seq<int>, int>, path: seq<int>, ids: seq<int>, sequence: int): (r: map<seq<int>, int>)
    ensures forall q :: q in nodes ==> q in r && r[q] == nodes[q]
    decreases |ids|
  {
    if |ids| == 0 then nodes
    else
      var p := path + [ids[0]];
      Descend(if p in nodes then nodes else nodes[p := sequence], p, ids[1..], sequence + 1)
  }

  /** The nodes a descent adds are exactly the prefixes of its path that
      were missing: every prefix has a node afterwards, and nothing else is
      added. */
  lemma {:induction false} DescendAddsPrefixes(nodes: map<seq<int>, int>, path: seq<int>, ids: seq<int>, sequence: int)
    requires path in nodes
    ensures var r := Descend(nodes, path, ids, sequence);
      && (forall k :: 0 <= k <= |ids| ==> path + ids[..k] in r)
      && (forall q :: q in r ==> q in nodes || exists k :: 0 < k <= |ids| && q == path + ids[..k])
    decreases |ids|
  {
    assert path + ids[..0] == path;
    if |ids| > 0 {
      var p := path + [ids[0]];
      var n1 := if p in nodes then nodes else nodes[p := sequence];
      DescendAddsPrefixes(n1, p, ids[1..], sequence + 1);
      var r := Descend(nodes, path, ids, sequence);
      forall k | 0 < k <= |ids|
        ensures path + ids[..k] in r
      {
        assert path + ids[..k] == p + ids[1..][..k - 1];
      }
      forall q | q in r && q !in nodes
        ensures exists k :: 0 < k <= |ids| && q == path + ids[..k]
      {
        if q == p {
          assert q == path + ids[..1];
        } else {
          var k :| 0 < k <= |ids| - 1 && q == p + ids[1..][..k];
          assert q == path + ids[..k + 1];
        }
      }
    }
  }

  /** Descending along a path whose nodes all exist adds nothing: existing
      children are reused. */
  lemma {:induction false} DescendReuses(nodes: map<seq<int>, int>, path: seq<int>, ids: seq<int>, sequence: int)
    requires forall k :: 0 < k <= |ids| ==> path + ids[..k] in nodes
    ensures Descend(nodes, path, ids, sequence) == nodes
    decreases |ids|
  {
    if |ids| > 0 {
      var p := path + [ids[0]];
      assert p == path + ids[..1];
      forall k | 0 < k <= |ids| - 1
        ensures p + ids[1..][..k] in nodes
      {
        assert p + ids[1..][..k] == path + ids[..k + 1];
      }
      DescendReuses(nodes, p, ids[1..], sequence + 1);
    }
  }

  /** No two nodes share an id. */
  predicate Injective(nodes: map<seq<int>, int>) {
    forall p, q :: p in nodes && q in nodes && p != q ==> nodes[p] != nodes[q]
  }

  /** The root has id 0, every other node an id in `1..sequence`. */
  predicate IdsBelow(nodes: map<seq<int>, int>, sequence: int) {
    && [] in nodes && nodes[[]] == 0
    && forall p :: p in nodes && p != [] ==> 1 <= nodes[p] < sequence
  }

  /** Node ids stay unique and below the counter, and each added node has
      one of the counter values the descent passed. */
  lemma {:induction false} DescendKeepsIdsUnique(nodes: map<seq<int>, int>, path: seq<int>, ids: seq<int>, sequence: int)
    requires Injective(nodes) && IdsBelow(nodes, sequence) && sequence >= 1
    ensures var r := Descend(nodes, path, ids, sequence);
      && Injective(r) && IdsBelow(r, sequence + |ids|)
      && forall q :: q in r && q !in nodes ==> sequence <= r[q] < sequence + |ids|
    decreases |ids|
  {
    if |ids| > 0 {
      var p := path + [ids[0]];
      var n1 := if p in nodes then nodes else nodes[p := sequence];
      assert p != [];
      assert Injective(n1);
      assert IdsBelow(n1, sequence + 1);
      DescendKeepsIdsUnique(n1, p, ids[1..], sequence + 1);
    }
  }

  /** Every non-root path's parent path has a node: the map is a tree. */
  predicate PrefixClosed(nodes: map<seq<int>, int>) {
    forall p :: p in nodes && p != [] ==> p[..|p| - 1] in nodes
  }

  /** A descent from an existing node keeps the map a tree. */
  lemma {:induction false} DescendKeepsTree(nodes: map<seq<int>, int>, path: seq<int>, ids: seq<int>, sequence: int)
    requires PrefixClosed(nodes) && path in nodes
    ensures PrefixClosed(Descend(nodes, path, ids, sequence))
    decreases |ids|
  {
    if |ids| > 0 {
      var p := path + [ids[0]];
      assert p[..|p| - 1] == path;
      DescendKeepsTree(if p in nodes then nodes else nodes[p := sequence], p, ids[1..], sequence + 1);
    }
  }

  /** The frame table after `frame_table.entry(id).or_insert(entry)` for
      each popped entry: what it had stays, and each new id maps to the
      first entry of the walk with that id. */
  function AddFrames(frameTable: map<int, FrameEntry>, walk: seq<FrameEntry>): (r: map<int, FrameEntry>)
    ensures forall id :: id in frameTable ==> id in r && r[id] == frameTable[id]
    ensures forall id :: id !in frameTable && FirstWithId(walk, id).Some? ==>
      id in r && r[id] == FirstWithId(walk, id).value
    ensures forall id :: id in r ==> id in frameTable || FirstWithId(walk, id).Some?
    decreases |walk|
  {
    if |walk| == 0 then frameTable
    else AddFrames(if walk[0].id in frameTable then frameTable else frameTable[walk[0].id := walk[0]], walk[1..])
  }

  /** The `pop` loop for one sample on its thread's profile, with `walk`
      the merged stack root first: the tree grows along the walk's ids, the
      frame table gains its entries, and when the stack runs out the sample
      is recorded at the node reached last, its leaf. An empty stack
      records no sample. */
  function WalkThread(t: ThreadProfile, walk: seq<FrameEntry>, sequence: int, elapsedNs: nat): (r: ThreadProfile)
    requires [] in t.nodes
    ensures r.threadId == t.threadId && Ids(walk) in r.nodes
    ensures |walk| == 0 ==> r.samples == t.samples
    ensures |walk| > 0 ==> r.samples == t.samples + [ProfileSample(elapsedNs, r.nodes[Ids(walk)])]
  {
    var nodes := Descend(t.nodes, [], Ids(walk), sequence);
    DescendAddsPrefixes(t.nodes, [], Ids(walk), sequence);
    assert [] + Ids(walk)[..|walk|] == Ids(walk);
    var samples := if |walk| == 0 then t.samples else t.samples + [ProfileSample(elapsedNs, nodes[Ids(walk)])];
    ThreadProfile(t.threadId, nodes, AddFrames(t.frameTable, walk), samples)
  }

  /** The serializer's state: the thread profiles and the global node
      counter `sequence`, an `i32`. */
  datatype State = State(threads: map<int, ThreadProfile>, sequence: int)

  /** A thread profile filed under its thread, with a rooted tree whose
      ids are unique and below the counter. */
  predicate ThreadGood(tid: int, t: ThreadProfile, sequence: int) {
    t.threadId == tid && Injective(t.nodes) && IdsBelow(t.nodes, sequence) && PrefixClosed(t.nodes)
  }

  /** Two trees share no non-root node id. */
  predicate Disjoint(a: map<seq<int>, int>, b: map<seq<int>, int>) {
    forall p, q :: p in a && q in b && p != [] && q != [] ==> a[p] != b[q]
  }

  /** The counter is a positive `i32`, and node ids are unique across all
      threads. */
  predicate Good(s: State) {
    && 1 <= s.sequence <= I32Max
    && (forall tid :: tid in s.threads ==> ThreadGood(tid, s.threads[tid], s.sequence))
    && (forall a, b :: a in s.threads && b in s.threads && a != b ==> Disjoint(s.threads[a].nodes, s.threads[b].nodes))
  }

  /** A thread's profile, as the state holds it or freshly created, is
      filed under its thread with a rooted tree and unique ids. */
  lemma ThreadOfGood(s: State, tid: int)
    requires Good(s)
    ensures ThreadGood(tid, ThreadOf(s, tid), s.sequence)
  {
    if tid in s.threads {
      assert ThreadGood(tid, s.threads[tid], s.sequence);
    }
  }

  /** Walking a sample keeps its thread's tree rooted and closed with
      unique ids; it keeps every node it had, and each node it adds takes
      one of the counter values it passed. */
  lemma WalkThreadKeepsGood(tid: int, t: ThreadProfile, walk: seq<FrameEntry>, sequence: int, elapsedNs: nat)
    requires ThreadGood(tid, t, sequence) && sequence >= 1
    ensures var t' := WalkThread(t, walk, sequence, elapsedNs);
      && ThreadGood(tid, t', sequence + |walk|)
      && (forall q :: q in t.nodes ==> q in t'.nodes && t'.nodes[q] == t.nodes[q])
      && (forall q :: q in t'.nodes && q !in t.nodes ==> sequence <= t'.nodes[q] < sequence + |walk|)
  {
    DescendKeepsIdsUnique(t.nodes, [], Ids(walk), sequence);
    DescendKeepsTree(t.nodes, [], Ids(walk), sequence);
  }

  /** Replacing one thread's profile by one that keeps its old nodes and
      gives every new node an id from the counter's new range keeps ids
      unique across threads. */
  lemma UpdateKeepsGood(s: State, tid: int, t': ThreadProfile, sequence': int)
    requires Good(s) && s.sequence <= sequence' <= I32Max && ThreadGood(tid, t', sequence')
    requires forall q :: q in ThreadOf(s, tid).nodes ==> q in t'.nodes && t'.nodes[q] == ThreadOf(s, tid).nodes[q]
    requires forall q :: q in t'.nodes && q !in ThreadOf(s, tid).nodes ==> s.sequence <= t'.nodes[q]
    ensures Good(State(s.threads[tid := t'], sequence'))
  {
    var r := State(s.threads[tid := t'], sequence');
    var t := ThreadOf(s, tid);
    forall a | a in r.threads
      ensures ThreadGood(a, r.threads[a], sequence')
    {
      if a != tid {
        assert ThreadGood(a, s.threads[a], s.sequence);
      }
    }
    forall a, b | a in r.threads && b in r.threads && a != b
      ensures Disjoint(r.threads[a].nodes, r.threads[b].nodes)
    {
      if a == tid || b == tid {
        var other := if a == tid then b else a;
        assert ThreadGood(other, s.threads[other], s.sequence);
        forall p, q | p in t'.nodes && q in s.threads[other].nodes && p != [] && q != []
          ensures t'.nodes[p] != s.threads[other].nodes[q]
        {
          if p in t.nodes {
            assert tid in s.threads;
            assert Disjoint(s.threads[tid].nodes, s.threads[other].nodes);
          }
        }
      }
    }
  }

  /** `sample.timestamp - profile.start_timestamp` in nanoseconds;
      `Instant` subtraction saturates at zero. */
  function ElapsedNs(timestamp: int, start: int): (e: nat)
    ensures timestamp >= start ==> e == timestamp - start
    ensures timestamp < start ==> e == 0
  {
    if timestamp < start then 0 else timestamp - start
  }

  /** The root-first walk of one sample, or the panic building its merged
      stack: a symbol name is read before any label. */
  function SampleWalk(sample: TrieSample, symbols: nat -> Syminfo, labels: int -> Option<string>, cFrameId: string -> int)
    : (walk: Result<seq<FrameEntry>, Panic>)
    requires WellFormed(sample)
    ensures walk.Failure? ==> walk.error == SymbolNotUtf8 || walk.error == LabelNotUtf8
    ensures walk.Success? ==> |walk.value| >= (if sample.lineCount < 0 then 0 else sample.lineCount)
  {
    var cStack :- CStack(sample.cBacktracePcs, sample.cBacktracePcs[0], symbols);
    var merged :- MergedStack(Strip(cStack), sample, labels, cFrameId);
    Success(Reverse(merged))
  }

  /** The profile of a thread, created on first use. */
  function ThreadOf(s: State, tid: int): (t: ThreadProfile)
    ensures tid !in s.threads ==> t == NewThread(tid)
  {
    if tid in s.threads then s.threads[tid] else NewThread(tid)
  }

  /** `r` is `s` after a sample of thread `tid` with walk `walk` landed:
      the thread is filed, keeps its old nodes and gained the sample at its
      leaf when the walk is non-empty; other threads are as they were. */
  predicate SampleAdded(s: State, tid: int, walk: seq<FrameEntry>, elapsedNs: nat, r: State) {
    && r.threads.Keys == s.threads.Keys + {tid}
    && (forall other :: other in s.threads && other != tid ==> r.threads[other] == s.threads[other])
    && (forall q :: q in ThreadOf(s, tid).nodes ==>
          q in r.threads[tid].nodes && r.threads[tid].nodes[q] == ThreadOf(s, tid).nodes[q])
    && Ids(walk) in r.threads[tid].nodes
    && r.threads[tid].samples
         == ThreadOf(s, tid).samples + (if |walk| == 0 then [] else [ProfileSample(elapsedNs, r.threads[tid].nodes[Ids(walk)])])
  }

  /** The pop loop of `serialize` for one sample of thread `tid` whose
      merged stack, root first, is `walk`. Every frame visit bumps the
      `i32` counter, so the loop panics when that takes it past `i32::MAX`.
      Otherwise the sample lands in its own thread's profile (created on
      first use, even for an empty stack): one new `ProfileSample` at the
      node of its full root-first path, the leaf, when the stack is
      non-empty, none otherwise. The thread keeps its old nodes, other
      threads are untouched, the counter advances by one per frame, and
      node ids stay unique. */
  method AddSample(s: State, tid: int, walk: seq<FrameEntry>, elapsedNs: nat) returns (r: Result<State, Panic>)
    requires Good(s)
    ensures r.Failure? <==> s.sequence + |walk| > I32Max
    ensures r.Failure? ==> r.error == NodeIdOverflow
    ensures r.Success? ==> Good(r.value) && r.value.sequence == s.sequence + |walk|
    ensures r.Success? ==> SampleAdded(s, tid, walk, elapsedNs, r.value)
  {
    if s.sequence + |walk| > I32Max {
      return Failure(NodeIdOverflow);
    }
    ThreadOfGood(s, tid);
    var next := State(s.threads[tid := WalkThread(ThreadOf(s, tid), walk, s.sequence, elapsedNs)], s.sequence + |walk|);
    WalkLands(s, tid, walk, elapsedNs, next);
    r := Success(next);
  }

  /** The state after a walk that stays within the counter's range keeps
      its invariant and holds the sample as `SampleAdded` describes. */
  lemma WalkLands(s: State, tid: int, walk: seq<FrameEntry>, elapsedNs: nat, next: State)
    requires Good(s) && s.sequence + |walk| <= I32Max && [] in ThreadOf(s, tid).nodes
    requires next == State(s.threads[tid := WalkThread(ThreadOf(s, tid), walk, s.sequence, elapsedNs)], s.sequence + |walk|)
    ensures Good(next) && SampleAdded(s, tid, walk, elapsedNs, next)
  {
    ThreadOfGood(s, tid);
    var t := ThreadOf(s, tid);
    var t' := WalkThread(t, walk, s.sequence, elapsedNs);
    WalkThreadKeepsGood(tid, t, walk, s.sequence, elapsedNs);
    UpdateKeepsGood(s, tid, t', s.sequence + |walk|);
    assert next.threads[tid] == t';
  }

  /** A stack seen again on the same thread reuses its nodes: no node is
      added and the new sample points at the same leaf as before. */
  lemma {:induction false} RepeatedStackSharesLeaf(t: ThreadProfile, walk: seq<FrameEntry>, s1: int, s2: int, e1: nat, e2: nat)
    requires [] in t.nodes && |walk| > 0
    ensures var t1 := WalkThread(t, walk, s1, e1);
      var t2 := WalkThread(t1, walk, s2, e2);
      && t2.nodes == t1.nodes
      && t2.samples == t1.samples + [ProfileSample(e2, t1.samples[|t1.samples| - 1].stackTreeId)]
  {
    var t1 := WalkThread(t, walk, s1, e1);
    DescendAddsPrefixes(t.nodes, [], Ids(walk), s1);
    forall k | 0 < k <= |walk|
      ensures [] + Ids(walk)[..k] in t1.nodes
    {
    }
    DescendReuses(t1.nodes, [], Ids(walk), s2);
  }

  /** The threads of the first `n` samples. */
  function SampledThreads(samples: seq<TrieSample>, n: nat): (tids: set<int>)
    requires n <= |samples|
    ensures forall i :: 0 <= i < n ==> samples[i].rubyThread in tids
    ensures forall tid :: tid in tids ==> exists i :: 0 <= i < n && samples[i].rubyThread == tid
  {
    if n == 0 then {} else SampledThreads(samples, n - 1) + {samples[n - 1].rubyThread}
  }

  /** Each sample's root-first walk, or the panic building it, by the
      sample's index. */
  function SampleWalks(samples: seq<TrieSample>,
                       symbols: nat -> Syminfo, labels: int -> Option<string>, cFrameId: string -> int)
    : (results: nat -> Result<seq<FrameEntry>, Panic>)
    requires forall i :: 0 <= i < |samples| ==> WellFormed(samples[i])
    ensures forall i :: 0 <= i < |samples| ==> results(i) == SampleWalk(samples[i], symbols, labels, cFrameId)
  {
    (k: nat) => if k < |samples| && WellFormed(samples[k]) then SampleWalk(samples[k], symbols, labels, cFrameId) else Success([])
  }

  /** The first `n` walks of a run, or the first panic among them. */
  function Collect(results: nat -> Result<seq<FrameEntry>, Panic>, n: nat): (walks: Result<seq<seq<FrameEntry>>, Panic>)
    ensures walks.Success? ==> |walks.value| == n
  {
    if n == 0 then Success([])
    else
      var front :- Collect(results, n - 1);
      var walk :- results(n - 1);
      Success(front + [walk])
  }

  /** One more walk that succeeds extends the run by itself. */
  lemma CollectStep(results: nat -> Result<seq<FrameEntry>, Panic>, n: nat, walks: seq<seq<FrameEntry>>, walk: seq<FrameEntry>)
    requires Collect(results, n) == Success(walks) && results(n) == Success(walk)
    ensures Collect(results, n + 1) == Success(walks + [walk])
  {
  }

  /** A run succeeds exactly when each of its walks does, and then lists
      them in order. */
  lemma {:induction false} CollectSucceedsIff(results: nat -> Result<seq<FrameEntry>, Panic>, n: nat)
    ensures Collect(results, n).Success? <==> forall j :: 0 <= j < n ==> results(j).Success?
    ensures Collect(results, n).Success? ==> forall j :: 0 <= j < n ==> Collect(results, n).value[j] == results(j).value
  {
    if n > 0 {
      CollectSucceedsIff(results, n - 1);
    }
  }

  /** The walks of the first `n` results are the first `n` walks of a
      longer run. */
  lemma CollectPrefix(results: nat -> Result<seq<FrameEntry>, Panic>, n: nat, m: nat)
    requires n <= m && Collect(results, m).Success?
    ensures Collect(results, n) == Success(Collect(results, m).value[..n])
  {
    CollectSucceedsIff(results, n);
    CollectSucceedsIff(results, m);
    assert Collect(results, n).value == Collect(results, m).value[..n];
  }

  /** When the first `n` walks already take the counter past `i32::MAX`,
      so does every run that extends them. */
  lemma OverflowFailsRun(results: nat -> Result<seq<FrameEntry>, Panic>, n: nat, m: nat, walks: seq<seq<FrameEntry>>)
    requires n <= m && Collect(results, n) == Success(walks)
    requires 1 + TotalFrames(walks) > I32Max
    ensures Collect(results, m).Success? ==> 1 + TotalFrames(Collect(results, m).value) > I32Max
  {
    if Collect(results, m).Success? {
      CollectPrefix(results, n, m);
      TotalFramesPrefix(Collect(results, m).value, n);
    }
  }

  /** The number of frame visits of a list of walks. */
  function TotalFrames(walks: seq<seq<FrameEntry>>): nat {
    if |walks| == 0 then 0 else TotalFrames(walks[..|walks| - 1]) + |walks[|walks| - 1]|
  }

  /** A prefix of a list of walks has no more frame visits than the whole
      list. */
  lemma {:induction false} TotalFramesPrefix(walks: seq<seq<FrameEntry>>, n: nat)
    requires n <= |walks|
    ensures TotalFrames(walks[..n]) <= TotalFrames(walks)
    decreases |walks|
  {
    if n < |walks| {
      var front := walks[..|walks| - 1];
      assert front[..n] == walks[..n];
      TotalFramesPrefix(front, n);
    } else {
      assert walks[..n] == walks;
    }
  }

  /** Appending a walk adds its frames to the count. */
  lemma TotalFramesAppend(walks: seq<seq<FrameEntry>>, walk: seq<FrameEntry>)
    ensures TotalFrames(walks + [walk]) == TotalFrames(walks) + |walk|
  {
    assert (walks + [walk])[..|walks|] == walks;
  }

  /** Every sample of thread `tid` among the first `n` with a non-empty
      walk has a node at its full root-first path. */
  predicate LeavesKnown(nodes: map<seq<int>, int>, samples: seq<TrieSample>, walks: seq<seq<FrameEntry>>, n: nat, tid: int)
    requires n <= |samples| && n <= |walks|
  {
    forall j :: 0 <= j < n && samples[j].rubyThread == tid && |walks[j]| > 0 ==> Ids(walks[j]) in nodes
  }

  /** What thread `tid` should have recorded after the first `n` samples,
      in order: for each of its samples with a non-empty walk, the time
      since `start` and the node of the walk's full root-first path. */
  function ThreadSamples(samples: seq<TrieSample>, walks: seq<seq<FrameEntry>>, n: nat, tid: int, start: int,
                         nodes: map<seq<int>, int>): seq<ProfileSample>
    requires n <= |samples| && n <= |walks| && LeavesKnown(nodes, samples, walks, n, tid)
  {
    if n == 0 then []
    else
      var front := ThreadSamples(samples, walks, n - 1, tid, start, nodes);
      if samples[n - 1].rubyThread == tid && |walks[n - 1]| > 0 then
        front + [ProfileSample(ElapsedNs(samples[n - 1].timestamp, start), nodes[Ids(walks[n - 1])])]
      else front
  }

  /** A thread profile holds exactly the samples `ThreadSamples` lists. */
  predicate Recorded(t: ThreadProfile, samples: seq<TrieSample>, walks: seq<seq<FrameEntry>>, n: nat, tid: int, start: int)
    requires n <= |samples| && n <= |walks|
  {
    LeavesKnown(t.nodes, samples, walks, n, tid) && t.samples == ThreadSamples(samples, walks, n, tid, start, t.nodes)
  }

  /** The recorded samples depend only on the first `n` walks and on the
      leaves' nodes, which a tree that only grows keeps. */
  lemma {:induction false} ThreadSamplesFrame(samples: seq<TrieSample>, w1: seq<seq<FrameEntry>>, w2: seq<seq<FrameEntry>>,
                                              n: nat, tid: int, start: int, n1: map<seq<int>, int>, n2: map<seq<int>, int>)
    requires n <= |samples| && n <= |w1| && n <= |w2|
    requires forall j :: 0 <= j < n ==> w1[j] == w2[j]
    requires LeavesKnown(n1, samples, w1, n, tid)
    requires forall q :: q in n1 ==> q in n2 && n2[q] == n1[q]
    ensures LeavesKnown(n2, samples, w2, n, tid)
    ensures ThreadSamples(samples, w2, n, tid, start, n2) == ThreadSamples(samples, w1, n, tid, start, n1)
    decreases n
  {
    if n > 0 {
      ThreadSamplesFrame(samples, w1, w2, n - 1, tid, start, n1, n2);
    }
  }

  /** A thread with no sample among the first `n` records nothing. */
  lemma NewThreadRecorded(samples: seq<TrieSample>, walks: seq<seq<FrameEntry>>, n: nat, tid: int, start: int)
    requires n <= |samples| && n <= |walks|
    requires forall j :: 0 <= j < n ==> samples[j].rubyThread != tid
    ensures Recorded(NewThread(tid), samples, walks, n, tid, start)
  {
    var k := n;
    while k > 0
      invariant 0 <= k <= n
      invariant ThreadSamples(samples, walks, n, tid, start, NewThread(tid).nodes)
        == ThreadSamples(samples, walks, k, tid, start, NewThread(tid).nodes)
    {
      k := k - 1;
    }
  }

  /** Another thread's sample leaves a thread's record as it was. */
  lemma RecordedOther(t: ThreadProfile, samples: seq<TrieSample>, walks: seq<seq<FrameEntry>>, walk: seq<FrameEntry>,
                      tid: int, start: int)
    requires |walks| < |samples| && samples[|walks|].rubyThread != tid
    requires Recorded(t, samples, walks, |walks|, tid, start)
    ensures Recorded(t, samples, walks + [walk], |walks| + 1, tid, start)
  {
    ThreadSamplesFrame(samples, walks, walks + [walk], |walks|, tid, start, t.nodes, t.nodes);
  }

  /** A thread's own sample, recorded at the leaf of its walk by a tree that
      keeps its old nodes, extends the record by exactly that sample. */
  lemma RecordedOwn(t: ThreadProfile, t': ThreadProfile, samples: seq<TrieSample>, walks: seq<seq<FrameEntry>>,
                    walk: seq<FrameEntry>, start: int)
    requires |walks| < |samples|
    requires Recorded(t, samples, walks, |walks|, samples[|walks|].rubyThread, start)
    requires forall q :: q in t.nodes ==> q in t'.nodes && t'.nodes[q] == t.nodes[q]
    requires Ids(walk) in t'.nodes
    requires t'.samples
      == t.samples + (if |walk| == 0 then [] else [ProfileSample(ElapsedNs(samples[|walks|].timestamp, start), t'.nodes[Ids(walk)])])
    ensures Recorded(t', samples, walks + [walk], |walks| + 1, samples[|walks|].rubyThread, start)
  {
    var tid := samples[|walks|].rubyThread;
    ThreadSamplesFrame(samples, walks, walks + [walk], |walks|, tid, start, t.nodes, t'.nodes);
    assert (walks + [walk])[|walks|] == walk;
  }

  /** A walk that takes the counter past `i32::MAX` fails the whole run. */
  lemma OverflowStep(results: nat -> Result<seq<FrameEntry>, Panic>, i: nat, m: nat, walks: seq<seq<FrameEntry>>, walk: seq<FrameEntry>)
    requires i < m && results(i) == Success(walk) && Collect(results, i) == Success(walks)
    requires 1 + TotalFrames(walks) + |walk| > I32Max
    ensures Collect(results, m).Success? ==> 1 + TotalFrames(Collect(results, m).value) > I32Max
  {
    CollectStep(results, i, walks, walk);
    TotalFramesAppend(walks, walk);
    OverflowFailsRun(results, i + 1, m, walks + [walk]);
  }

  /** A sample added without overflow keeps the loop's account of
      threads, counter and samples, now over one more walk. */
  lemma StepRecorded(s: State, r: State, samples: seq<TrieSample>, start: int, walks: seq<seq<FrameEntry>>, walk: seq<FrameEntry>,
                     walks': seq<seq<FrameEntry>>, n: nat)
    requires |walks| < |samples| && walks' == walks + [walk] && n == |walks| + 1
    requires s.threads.Keys == SampledThreads(samples, |walks|) && s.sequence == 1 + TotalFrames(walks)
    requires forall tid :: tid in s.threads ==> Recorded(s.threads[tid], samples, walks, |walks|, tid, start)
    requires r.sequence == s.sequence + |walk|
    requires SampleAdded(s, samples[|walks|].rubyThread, walk, ElapsedNs(samples[|walks|].timestamp, start), r)
    ensures r.threads.Keys == SampledThreads(samples, n) && r.sequence == 1 + TotalFrames(walks')
    ensures forall tid :: tid in r.threads ==> Recorded(r.threads[tid], samples, walks', n, tid, start)
  {
    TotalFramesAppend(walks, walk);
    RecordStep(s, r, samples, walks, walk, walks', start);
  }

  /** One step of the sample loop keeps every thread's record: the sampled
      thread, found or created, gains the sample, the others keep theirs. */
  lemma RecordStep(s: State, r: State, samples: seq<TrieSample>, walks: seq<seq<FrameEntry>>, walk: seq<FrameEntry>,
                   walks': seq<seq<FrameEntry>>, start: int)
    requires |walks| < |samples| && walks' == walks + [walk]
    requires s.threads.Keys == SampledThreads(samples, |walks|)
    requires forall tid :: tid in s.threads ==> Recorded(s.threads[tid], samples, walks, |walks|, tid, start)
    requires SampleAdded(s, samples[|walks|].rubyThread, walk, ElapsedNs(samples[|walks|].timestamp, start), r)
    ensures r.threads.Keys == SampledThreads(samples, |walks| + 1)
    ensures forall tid :: tid in r.threads ==> Recorded(r.threads[tid], samples, walks', |walks| + 1, tid, start)
  {
    var tid := samples[|walks|].rubyThread;
    assert SampledThreads(samples, |walks| + 1) == SampledThreads(samples, |walks|) + {tid};
    if tid !in s.threads {
      NewThreadRecorded(samples, walks, |walks|, tid, start);
    }
    RecordedOwn(ThreadOf(s, tid), r.threads[tid], samples, walks, walk, start);
    forall other | other in r.threads && other != tid
      ensures Recorded(r.threads[other], samples, walks', |walks| + 1, other, start)
    {
      RecordedOther(s.threads[other], samples, walks, walk, other, start);
    }
  }

  /** One iteration of `serialize`'s sample loop, for sample `i`, whose
      walk is `walk`, after the first `i` have produced `walks` and state
      `s` (`results` holds every sample's walk): it panics exactly when this sample's names or labels
      are not UTF-8, or when its frame visits take the counter past
      `i32::MAX`, and then the whole run panics; otherwise every thread's
      record gains what `ThreadSamples` adds for this sample. */
  method SerializeSample(s: State, samples: seq<TrieSample>, i: nat, start: int, walk: Result<seq<FrameEntry>, Panic>,
                         ghost results: nat -> Result<seq<FrameEntry>, Panic>, ghost walks: seq<seq<FrameEntry>>)
    returns (r: Result<State, Panic>)
    requires i < |samples| && results(i) == walk
    requires Good(s) && s.threads.Keys == SampledThreads(samples, i)
    requires Collect(results, i) == Success(walks) && s.sequence == 1 + TotalFrames(walks)
    requires forall tid :: tid in s.threads ==> Recorded(s.threads[tid], samples, walks, i, tid, start)
    ensures r.Failure? ==>
      || Collect(results, |samples|).Failure?
      || 1 + TotalFrames(Collect(results, |samples|).value) > I32Max
    ensures r.Success? ==> Collect(results, i + 1).Success?
    ensures r.Success? ==> var walks' := Collect(results, i + 1).value;
      && Good(r.value) && r.value.threads.Keys == SampledThreads(samples, i + 1)
      && r.value.sequence == 1 + TotalFrames(walks')
      && forall tid :: tid in r.value.threads ==> Recorded(r.value.threads[tid], samples, walks', i + 1, tid, start)
  {
    if walk.Failure? {
      CollectSucceedsIff(results, |samples|);
      return Failure(walk.error);
    }
    var tid := samples[i].rubyThread;
    var next := AddSample(s, tid, walk.value, ElapsedNs(samples[i].timestamp, start));
    if next.Failure? {
      OverflowStep(results, i, |samples|, walks, walk.value);
      return Failure(next.error);
    }
    CollectStep(results, i, walks, walk.value);
    StepRecorded(s, next.value, samples, start, walks, walk.value, Collect(results, i + 1).value, i + 1);
    r := next;
  }

  /** `ProfileSerializer::serialize`, up to the JSON rendering: the sample
      loop over a fresh state with the counter at 1. It panics exactly when
      some sample's symbol names or labels are not UTF-8, or when the frame
      visits take the counter past `i32::MAX`. Otherwise every sampled
      thread gets a profile, and no other; node ids are unique across all
      of them; and each thread holds, in order, one sample per non-empty
      stack of its own, at the leaf of that stack with the time since the
      profile's start. */
  method Serialize(samples: seq<TrieSample>, start: int,
                   symbols: nat -> Syminfo, labels: int -> Option<string>, cFrameId: string -> int)
    returns (r: Result<State, Panic>)
    requires forall i :: 0 <= i < |samples| ==> WellFormed(samples[i])
    ensures var walks := Collect(SampleWalks(samples, symbols, labels, cFrameId), |samples|);
      r.Success? <==> walks.Success? && 1 + TotalFrames(walks.value) <= I32Max
    ensures r.Success? ==> Good(r.value)
    ensures r.Success? ==> r.value.threads.Keys == SampledThreads(samples, |samples|)
    ensures r.Success? ==> var walks := Collect(SampleWalks(samples, symbols, labels, cFrameId), |samples|).value;
      forall tid :: tid in r.value.threads ==> Recorded(r.value.threads[tid], samples, walks, |samples|, tid, start)
  {
    ghost var results := SampleWalks(samples, symbols, labels, cFrameId);
    var s := State(map[], 1);
    ghost var walks: seq<seq<FrameEntry>> := [];
    var i := 0;
    while i < |samples|
      invariant 0 <= i <= |samples| && |walks| == i
      invariant Good(s)
      invariant s.threads.Keys == SampledThreads(samples, i)
      invariant Collect(results, i) == Success(walks)
      invariant s.sequence == 1 + TotalFrames(walks)
      invariant forall tid :: tid in s.threads ==> Recorded(s.threads[tid], samples, walks, i, tid, start)
    {
      var walk := SampleWalk(samples[i], symbols, labels, cFrameId);
      var next := SerializeSample(s, samples, i, start, walk, results, walks);
      if next.Failure? {
        return Failure(next.error);
      }
      s := next.value;
      walks := Collect(results, i + 1).value;
      i := i + 1;
    }
    return Success(s);
  }
}
