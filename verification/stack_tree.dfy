/** The stack tree of the older Firefox Profiler reporters
    (`lib/pf2/reporter/firefox_profiler.rb` and `lib/pf2/reporter.rb`): a
    node per distinct call path, children keyed by frame id. This module
    holds the tree, its conversion to root-to-leaf paths and back
    (`tree_to_array_of_paths`, `array_of_paths_to_tree`), and the
    breadth-first walk of `build_stack_table` that numbers the rows of the
    stack table. */
module StackTree {
  import opened Wrappers

  /** A node `{ node_id:, frame_id:, children: { frame_id => node } }`; the
      children hash is kept as its values in insertion order. */
  datatype Tree = Node(nodeId: int, frameId: int, children: seq<Tree>)

  /** A path element `{ frame_id:, node_id: }`. */
  datatype Step = Step(frameId: int, nodeId: int)

  function StepOf(t: Tree): Step {
    Step(t.frameId, t.nodeId)
  }

  /** The number of nodes. */
  function Size(t: Tree): nat
    decreases t
  {
    1 + SizeAll(t.children)
  }

  function SizeAll(ts: seq<Tree>): nat
    decreases ts
  {
    if |ts| == 0 then 0 else Size(ts[0]) + SizeAll(ts[1..])
  }

  /** The number of leaves. */
  function Leaves(t: Tree): nat
    decreases t
  {
    if |t.children| == 0 then 1 else LeavesAll(t.children)
  }

  function LeavesAll(ts: seq<Tree>): nat
    decreases ts
  {
    if |ts| == 0 then 0 else Leaves(ts[0]) + LeavesAll(ts[1..])
  }

  /** No child has frame id `f`. */
  predicate NoFrame(cs: seq<Tree>, f: int) {
    forall j :: 0 <= j < |cs| ==> cs[j].frameId != f
  }

  /** Siblings have distinct frame ids (they are the values of a hash keyed
      by frame id), at every level. */
  predicate WellFormed(t: Tree)
    decreases t
  {
    && (forall i, j :: 0 <= i < j < |t.children| ==> t.children[i].frameId != t.children[j].frameId)
    && (forall i :: 0 <= i < |t.children| ==> WellFormed(t.children[i]))
  }

  /** `p` is a path from `t` down to one of its leaves. */
  predicate IsLeafPath(t: Tree, p: seq<Step>)
    decreases t
  {
    && |p| >= 1 && p[0] == StepOf(t)
    && if |t.children| == 0 then |p| == 1
       else exists i :: 0 <= i < |t.children| && IsLeafPath(t.children[i], p[1..])
  }

  /** `tree_to_array_of_paths`: the paths to the leaves, depth first,
      each behind `path`. */
  function TreeToPaths(t: Tree, path: seq<Step>): seq<seq<Step>>
    decreases t
  {
    var newPath := path + [StepOf(t)];
    if |t.children| == 0 then [newPath] else ChildrenToPaths(t.children, newPath)
  }

  function ChildrenToPaths(ts: seq<Tree>, path: seq<Step>): seq<seq<Step>>
    decreases ts
  {
    if |ts| == 0 then [] else TreeToPaths(ts[0], path) + ChildrenToPaths(ts[1..], path)
  }

  /** Every collected path is `path` followed by a path from the node to a
      leaf, and there are as many as there are leaves. */
  lemma {:induction false} TreeToPathsSound(t: Tree, path: seq<Step>)
    ensures |TreeToPaths(t, path)| == Leaves(t)
    ensures forall q :: q in TreeToPaths(t, path) ==>
      |q| > |path| && q[..|path|] == path && IsLeafPath(t, q[|path|..])
    decreases t, 1
  {
    var newPath := path + [StepOf(t)];
    if |t.children| == 0 {
      assert newPath[|path|..] == [StepOf(t)];
      assert newPath[..|path|] == path;
    } else {
      ChildrenToPathsSound(t.children, newPath);
      forall q | q in TreeToPaths(t, path)
        ensures |q| > |path| && q[..|path|] == path && IsLeafPath(t, q[|path|..])
      {
        var i :| 0 <= i < |t.children| && |q| > |newPath| && q[..|newPath|] == newPath && IsLeafPath(t.children[i], q[|newPath|..]);
        assert q[..|path|] == newPath[..|path|];
        assert q[|path|..][1..] == q[|newPath|..];
        assert q[|path|..][0] == newPath[|path|];
      }
    }
  }

  /** The paths collected below a list of siblings: as many as their leaves, each through one of them. */
  lemma {:induction false} ChildrenToPathsSound(ts: seq<Tree>, path: seq<Step>)
    ensures |ChildrenToPaths(ts, path)| == LeavesAll(ts)
    ensures forall q :: q in ChildrenToPaths(ts, path) ==> exists i ::
      0 <= i < |ts| && |q| > |path| && q[..|path|] == path && IsLeafPath(ts[i], q[|path|..])
    decreases ts, 0
  {
    if |ts| > 0 {
      TreeToPathsSound(ts[0], path);
      ChildrenToPathsSound(ts[1..], path);
      forall q | q in ChildrenToPaths(ts, path)
        ensures exists i :: 0 <= i < |ts| && |q| > |path| && q[..|path|] == path && IsLeafPath(ts[i], q[|path|..])
      {
        if q in TreeToPaths(ts[0], path) {
          assert IsLeafPath(ts[0], q[|path|..]);
        } else {
          var i :| 0 <= i < |ts[1..]| && |q| > |path| && q[..|path|] == path && IsLeafPath(ts[1..][i], q[|path|..]);
          assert IsLeafPath(ts[i + 1], q[|path|..]);
        }
      }
    }
  }

  /** Every path from the node to a leaf is collected. */
  lemma {:induction false} TreeToPathsComplete(t: Tree, path: seq<Step>, p: seq<Step>)
    requires IsLeafPath(t, p)
    ensures path + p in TreeToPaths(t, path)
    decreases t, 1
  {
    var newPath := path + [StepOf(t)];
    if |t.children| == 0 {
      assert p == [StepOf(t)];
    } else {
      var i :| 0 <= i < |t.children| && IsLeafPath(t.children[i], p[1..]);
      ChildrenToPathsComplete(t.children, newPath, i, p[1..]);
      assert newPath + p[1..] == path + p by { assert p == [p[0]] + p[1..]; }
    }
  }

  /** Every leaf path below one of the siblings is collected. */
  lemma {:induction false} ChildrenToPathsComplete(ts: seq<Tree>, path: seq<Step>, i: nat, p: seq<Step>)
    requires i < |ts| && IsLeafPath(ts[i], p)
    ensures path + p in ChildrenToPaths(ts, path)
    decreases ts, 0
  {
    if i == 0 {
      TreeToPathsComplete(ts[0], path, p);
    } else {
      assert ts[1..][i - 1] == ts[i];
      ChildrenToPathsComplete(ts[1..], path, i - 1, p);
    }
  }

  /** `tree_to_array_of_paths` yields one path per leaf, each a path from
      the root to a leaf, and every such path. */
  lemma OnePathPerLeaf(t: Tree)
    ensures |TreeToPaths(t, [])| == Leaves(t)
    ensures forall q :: q in TreeToPaths(t, []) <==> IsLeafPath(t, q)
  {
    TreeToPathsSound(t, []);
    forall q | IsLeafPath(t, q) ensures q in TreeToPaths(t, []) {
      TreeToPathsComplete(t, [], q);
      assert [] + q == q;
    }
    forall q | q in TreeToPaths(t, []) ensures IsLeafPath(t, q) {
      assert q[0..] == q;
    }
  }

  /** The first child with frame id `f` (`children[frame_id]`; the keys are
      distinct in a well-formed tree). */
  function ChildWithFrame(cs: seq<Tree>, f: int): (r: Option<nat>)
    ensures r.Some? ==> r.value < |cs| && cs[r.value].frameId == f && NoFrame(cs[..r.value], f)
    ensures r.None? <==> NoFrame(cs, f)
    decreases |cs|
  {
    if |cs| == 0 then None
    else if cs[0].frameId == f then Some(0)
    else
      match ChildWithFrame(cs[1..], f)
      case Some(i) =>
        assert cs[..i + 1] == [cs[0]] + cs[1..][..i];
        Some(i + 1)
      case None => None
  }

  /** The inner loop of `array_of_paths_to_tree`: walk down the steps,
      creating a node `{ node_id:, frame_id: }` where none has the frame id
      (`||=`, so an existing node keeps its own node id). */
  function InsertPath(t: Tree, steps: seq<Step>): (r: Tree)
    ensures r.nodeId == t.nodeId && r.frameId == t.frameId
    decreases |steps|
  {
    if |steps| == 0 then t
    else
      match ChildWithFrame(t.children, steps[0].frameId)
      case Some(i) => t.(children := t.children[i := InsertPath(t.children[i], steps[1..])])
      case None => t.(children := t.children + [InsertPath(Node(steps[0].nodeId, steps[0].frameId, []), steps[1..])])
  }

  /** The outer loop: every path inserted, in order. */
  function InsertSteps(t: Tree, paths: seq<seq<Step>>): Tree
    decreases |paths|
  {
    if |paths| == 0 then t else InsertSteps(InsertPath(t, paths[0]), paths[1..])
  }

  /** Each path without its first element (`path[1..]`). */
  function Tails(paths: seq<seq<Step>>): seq<seq<Step>>
    requires forall i :: 0 <= i < |paths| ==> |paths[i]| > 0
  {
    seq(|paths|, i requires 0 <= i < |paths| => paths[i][1..])
  }

  datatype TreeError = NoMethodError

  /** `array_of_paths_to_tree`: the paths below their first element merged
      into a newChild root `{ node_id: 0, frame_id: 0 }`. For an empty path
      `path[1..]` is `nil`, and iterating it raises. */
  function ArrayOfPathsToTree(paths: seq<seq<Step>>): (r: Result<Tree, TreeError>)
    ensures r.Success? <==> forall i :: 0 <= i < |paths| ==> |paths[i]| > 0
    ensures r.Success? ==> r.value.nodeId == 0 && r.value.frameId == 0
  {
    if exists i :: 0 <= i < |paths| && |paths[i]| == 0 then Failure(NoMethodError)
    else
      InsertStepsFrame(Node(0, 0, []), Tails(paths));
      Success(InsertSteps(Node(0, 0, []), Tails(paths)))
  }

  /** Inserting paths keeps the node's own ids. */
  lemma {:induction false} InsertStepsFrame(t: Tree, paths: seq<seq<Step>>)
    ensures InsertSteps(t, paths).nodeId == t.nodeId && InsertSteps(t, paths).frameId == t.frameId
    decreases |paths|
  {
    if |paths| > 0 {
      InsertStepsFrame(InsertPath(t, paths[0]), paths[1..]);
    }
  }

  /** Inserting two lists of paths is inserting one after the other. */
  lemma {:induction false} InsertStepsAppend(t: Tree, a: seq<seq<Step>>, b: seq<seq<Step>>)
    ensures InsertSteps(t, a + b) == InsertSteps(InsertSteps(t, a), b)
    decreases |a|
  {
    if |a| == 0 {
      assert a + b == b;
    } else {
      assert (a + b)[1..] == a[1..] + b;
      InsertStepsAppend(InsertPath(t, a[0]), a[1..], b);
    }
  }

  /** `pre` in front of every path. */
  function PrefixAll(pre: seq<Step>, qs: seq<seq<Step>>): (r: seq<seq<Step>>)
    ensures |r| == |qs| && forall i :: 0 <= i < |qs| ==> r[i] == pre + qs[i]
  {
    seq(|qs|, i requires 0 <= i < |qs| => pre + qs[i])
  }

  /** The collected paths of a node are its own paths behind the path
      passed in. */
  lemma {:induction false} TreeToPathsBehind(t: Tree, a: seq<Step>, b: seq<Step>)
    ensures TreeToPaths(t, a + b) == PrefixAll(a, TreeToPaths(t, b))
    decreases t, 1
  {
    assert a + b + [StepOf(t)] == a + (b + [StepOf(t)]);
    if |t.children| > 0 {
      ChildrenToPathsBehind(t.children, a, b + [StepOf(t)]);
    }
  }

  /** The collected paths of siblings are their own paths behind the path passed in. */
  lemma {:induction false} ChildrenToPathsBehind(ts: seq<Tree>, a: seq<Step>, b: seq<Step>)
    ensures ChildrenToPaths(ts, a + b) == PrefixAll(a, ChildrenToPaths(ts, b))
    decreases ts, 0
  {
    if |ts| > 0 {
      TreeToPathsBehind(ts[0], a, b);
      ChildrenToPathsBehind(ts[1..], a, b);
      assert PrefixAll(a, TreeToPaths(ts[0], b) + ChildrenToPaths(ts[1..], b))
          == PrefixAll(a, TreeToPaths(ts[0], b)) + PrefixAll(a, ChildrenToPaths(ts[1..], b));
    }
  }

  /** Every tree has a leaf. */
  lemma {:induction false} LeavesPositive(t: Tree)
    ensures Leaves(t) >= 1
    decreases t, 1
  {
    if |t.children| > 0 {
      LeavesAllPositive(t.children);
    }
  }

  /** A non-empty list of trees has a leaf. */
  lemma {:induction false} LeavesAllPositive(ts: seq<Tree>)
    ensures |ts| > 0 ==> LeavesAll(ts) >= 1
    decreases ts, 0
  {
    if |ts| > 0 {
      LeavesPositive(ts[0]);
    }
  }

  /** Inserting paths that all start with the frame of an existing child
      descends into that child. */
  lemma {:induction false} InsertIntoChild(t: Tree, i: nat, s: Step, qs: seq<seq<Step>>)
    requires ChildWithFrame(t.children, s.frameId) == Some(i)
    ensures InsertSteps(t, PrefixAll([s], qs)) == t.(children := t.children[i := InsertSteps(t.children[i], qs)])
    decreases |qs|
  {
    if |qs| == 0 {
      assert t.children[i := t.children[i]] == t.children;
    } else {
      var ps := PrefixAll([s], qs);
      assert ps[0][1..] == qs[0];
      var t1 := InsertPath(t, ps[0]);
      var c1 := InsertPath(t.children[i], qs[0]);
      assert t1 == t.(children := t.children[i := c1]);
      SameFramesSameChild(t.children, t1.children, s.frameId);
      assert ps[1..] == PrefixAll([s], qs[1..]);
      InsertIntoChild(t1, i, s, qs[1..]);
      assert t1.children[i := InsertSteps(c1, qs[1..])] == t.children[i := InsertSteps(t.children[i], qs)];
    }
  }

  /** The child lookup only looks at frame ids. */
  lemma {:induction false} SameFramesSameChild(a: seq<Tree>, b: seq<Tree>, f: int)
    requires |a| == |b| && forall j :: 0 <= j < |a| ==> a[j].frameId == b[j].frameId
    ensures ChildWithFrame(a, f) == ChildWithFrame(b, f)
    decreases |a|
  {
    if |a| > 0 {
      SameFramesSameChild(a[1..], b[1..], f);
    }
  }

  /** Inserting a non-empty list of paths that all start with a frame no
      child has adds one child, holding the paths below it. */
  lemma {:induction false} InsertNewChild(t: Tree, s: Step, qs: seq<seq<Step>>)
    requires NoFrame(t.children, s.frameId) && |qs| > 0
    ensures InsertSteps(t, PrefixAll([s], qs))
      == t.(children := t.children + [InsertSteps(Node(s.nodeId, s.frameId, []), qs)])
  {
    var ps := PrefixAll([s], qs);
    assert ps[0][1..] == qs[0] && ps[0][0] == s;
    var newChild := InsertPath(Node(s.nodeId, s.frameId, []), qs[0]);
    var t1 := InsertPath(t, ps[0]);
    assert t1 == t.(children := t.children + [newChild]);
    var n := |t.children|;
    assert ChildWithFrame(t1.children, s.frameId) == Some(n) by {
      assert t1.children[..n] == t.children;
      ChildWithFrameFirst(t1.children, s.frameId, n);
    }
    assert ps[1..] == PrefixAll([s], qs[1..]);
    InsertIntoChild(t1, n, s, qs[1..]);
    assert t1.children[n := InsertSteps(newChild, qs[1..])] == t.children + [InsertSteps(Node(s.nodeId, s.frameId, []), qs)];
  }

  /** The first child with the frame id is the one found. */
  lemma {:induction false} ChildWithFrameFirst(cs: seq<Tree>, f: int, n: nat)
    requires n < |cs| && cs[n].frameId == f && NoFrame(cs[..n], f)
    ensures ChildWithFrame(cs, f) == Some(n)
    decreases n
  {
    if n > 0 {
      assert cs[0] == cs[..n][0];
      assert cs[1..][..n - 1] == cs[1..n];
      ChildWithFrameFirst(cs[1..], f, n - 1);
    }
  }

  /** Inserting a single path is inserting that path. */
  lemma InsertStepsOne(t: Tree, path: seq<Step>)
    ensures InsertSteps(t, [path]) == InsertPath(t, path)
  {
    assert [path][1..] == [];
  }

  /** A leaf whose frame id no child has is inserted as a new last child. */
  lemma InsertLeaf(t: Tree, c: Tree)
    requires |c.children| == 0 && NoFrame(t.children, c.frameId)
    ensures InsertPath(t, [StepOf(c)]) == t.(children := t.children + [c])
  {
    var s := StepOf(c);
    assert ChildWithFrame(t.children, s.frameId).None?;
    assert [s][1..] == [];
    assert c == Node(s.nodeId, s.frameId, []);
  }

  /** The paths of a well-formed subtree, inserted under a node that has
      no child with its frame id, rebuild the subtree as a new last
      child. */
  lemma {:induction false} RebuildSubtree(t: Tree, c: Tree)
    requires WellFormed(c) && NoFrame(t.children, c.frameId)
    ensures InsertSteps(t, TreeToPaths(c, [])) == t.(children := t.children + [c])
    decreases c, 1
  {
    var s := StepOf(c);
    if |c.children| == 0 {
      assert [] + [s] == [s];
      assert TreeToPaths(c, []) == [[s]];
      InsertStepsOne(t, [s]);
      InsertLeaf(t, c);
    } else {
      var below := ChildrenToPaths(c.children, []);
      ChildrenToPathsBehind(c.children, [s], []);
      assert [] + [s] == [s] + [];
      assert TreeToPaths(c, []) == PrefixAll([s], below);
      LeavesAllPositive(c.children);
      ChildrenToPathsSound(c.children, []);
      InsertNewChild(t, s, below);
      RebuildChildren(Node(c.nodeId, c.frameId, []), c.children);
      assert [] + c.children == c.children;
    }
  }

  /** The paths of well-formed siblings with frame ids distinct from each
      other and from the node's children rebuild them, in order. */
  lemma {:induction false} RebuildChildren(t: Tree, cs: seq<Tree>)
    requires forall i :: 0 <= i < |cs| ==> WellFormed(cs[i]) && NoFrame(t.children, cs[i].frameId)
    requires forall i, j :: 0 <= i < j < |cs| ==> cs[i].frameId != cs[j].frameId
    ensures InsertSteps(t, ChildrenToPaths(cs, [])) == t.(children := t.children + cs)
    decreases cs, 0
  {
    if |cs| == 0 {
      assert t.children + cs == t.children;
    } else {
      InsertStepsAppend(t, TreeToPaths(cs[0], []), ChildrenToPaths(cs[1..], []));
      RebuildSubtree(t, cs[0]);
      var t1 := t.(children := t.children + [cs[0]]);
      forall i | 0 <= i < |cs[1..]| ensures NoFrame(t1.children, cs[1..][i].frameId) {
        assert cs[1..][i] == cs[i + 1];
      }
      RebuildChildren(t1, cs[1..]);
      assert t1.children + cs[1..] == t.children + cs;
    }
  }

  /** The paths of a node with children are its step in front of its
      children's paths; every path is non-empty. */
  lemma PathsOfInnerNode(t: Tree)
    ensures forall q :: q in TreeToPaths(t, []) ==> |q| > 0
    ensures |t.children| > 0 ==> TreeToPaths(t, []) == PrefixAll([StepOf(t)], ChildrenToPaths(t.children, []))
  {
    TreeToPathsSound(t, []);
    if |t.children| > 0 {
      ChildrenToPathsBehind(t.children, [StepOf(t)], []);
      assert [] + [StepOf(t)] == [StepOf(t)] + [];
    }
  }

  /** `array_of_paths_to_tree` undoes `tree_to_array_of_paths`: it
      rebuilds a well-formed tree below the root, under a fresh root with
      node id and frame id 0. */
  lemma PathsToTreeRoundTrip(t: Tree)
    requires WellFormed(t)
    ensures ArrayOfPathsToTree(TreeToPaths(t, [])) == Success(Node(0, 0, t.children))
  {
    var paths := TreeToPaths(t, []);
    PathsOfInnerNode(t);
    assert forall i :: 0 <= i < |paths| ==> |paths[i]| > 0 by {
      forall i | 0 <= i < |paths| ensures |paths[i]| > 0 { assert paths[i] in paths; }
    }
    var root := Node(0, 0, []);
    if |t.children| == 0 {
      assert [] + [StepOf(t)] == [StepOf(t)];
      assert paths == [[StepOf(t)]];
      assert Tails(paths) == [[]];
      assert InsertSteps(root, [[]]) == root;
    } else {
      assert Tails(paths) == ChildrenToPaths(t.children, []);
      RebuildChildren(root, t.children);
      assert [] + t.children == t.children;
    }
  }

  /** A queue entry `[prefix, node]`: the node and the row of its parent
      (`nil` for the root's children). */
  datatype Visit = Visit(prefix: Option<nat>, node: Tree)

  /** `node[:children].each {|_, c| queue << [prefix, c] }`. */
  function Enqueue(cs: seq<Tree>, prefix: Option<nat>): (q: seq<Visit>)
    ensures |q| == |cs| && forall i :: 0 <= i < |cs| ==> q[i] == Visit(prefix, cs[i])
  {
    seq(|cs|, i requires 0 <= i < |cs| => Visit(prefix, cs[i]))
  }

  /** The nodes in the queue's subtrees. */
  function QueueSize(q: seq<Visit>): nat
    decreases |q|
  {
    if |q| == 0 then 0 else Size(q[0].node) + QueueSize(q[1..])
  }

  /** The nodes of two queues add up. */
  lemma {:induction false} QueueSizeAppend(a: seq<Visit>, b: seq<Visit>)
    ensures QueueSize(a + b) == QueueSize(a) + QueueSize(b)
    decreases |a|
  {
    if |a| == 0 {
      assert a + b == b;
    } else {
      assert (a + b)[1..] == a[1..] + b;
      QueueSizeAppend(a[1..], b);
    }
  }

  /** Queuing children queues all their nodes. */
  lemma {:induction false} EnqueueSize(cs: seq<Tree>, prefix: Option<nat>)
    ensures QueueSize(Enqueue(cs, prefix)) == SizeAll(cs)
    decreases |cs|
  {
    if |cs| > 0 {
      assert Enqueue(cs, prefix)[1..] == Enqueue(cs[1..], prefix);
      EnqueueSize(cs[1..], prefix);
    }
  }

  /** The loop of `build_stack_table`: take the first queue entry, give it
      the next row, and queue its children with that row as their prefix.
      The rows are the visited entries in order. */
  function Bfs(queue: seq<Visit>, visited: seq<Visit>): (r: seq<Visit>)
    ensures |r| == |visited| + QueueSize(queue) && r[..|visited|] == visited
    decreases QueueSize(queue)
  {
    if |queue| == 0 then visited
    else
      var v := queue[0];
      var children := Enqueue(v.node.children, Some(|visited|));
      QueueSizeAppend(queue[1..], children);
      EnqueueSize(v.node.children, Some(|visited|));
      var r := Bfs(queue[1..] + children, visited + [v]);
      assert r[..|visited|] == r[..|visited| + 1][..|visited|];
      r
  }

  /** `build_stack_table`: the root's children queued with no prefix, then
      the breadth-first walk. Every node below the root gets one row. */
  function StackVisits(root: Tree): (r: seq<Visit>)
    ensures |r| == SizeAll(root.children)
  {
    EnqueueSize(root.children, None);
    Bfs(Enqueue(root.children, None), [])
  }

  /** Each row hangs where it belongs: a child of the root has no prefix,
      any other row's prefix is an earlier row holding its parent. */
  predicate Linked(visits: seq<Visit>, root: Tree) {
    forall i :: 0 <= i < |visits| ==>
      match visits[i].prefix
      case None => visits[i].node in root.children
      case Some(j) => j < i && visits[i].node in visits[j].node.children
  }

  /** The same for entries still queued, whose prefixes are rows already
      made. */
  predicate QueueLinked(queue: seq<Visit>, visited: seq<Visit>, root: Tree) {
    forall k :: 0 <= k < |queue| ==>
      match queue[k].prefix
      case None => queue[k].node in root.children
      case Some(j) => j < |visited| && queue[k].node in visited[j].node.children
  }

  /** The walk keeps every row linked to the row of its parent. */
  lemma {:induction false} BfsLinked(queue: seq<Visit>, visited: seq<Visit>, root: Tree)
    requires Linked(visited, root) && QueueLinked(queue, visited, root)
    ensures Linked(Bfs(queue, visited), root)
    decreases QueueSize(queue)
  {
    if |queue| > 0 {
      var v := queue[0];
      var children := Enqueue(v.node.children, Some(|visited|));
      QueueSizeAppend(queue[1..], children);
      EnqueueSize(v.node.children, Some(|visited|));
      var visited' := visited + [v];
      var next := queue[1..] + children;
      assert Linked(visited', root) by {
        forall i | 0 <= i < |visited'|
          ensures match visited'[i].prefix
            case None => visited'[i].node in root.children
            case Some(j) => j < i && visited'[i].node in visited'[j].node.children
        {
          if i < |visited| {
            assert visited'[i] == visited[i];
            if visited[i].prefix.Some? { assert visited'[visited[i].prefix.value] == visited[visited[i].prefix.value]; }
          } else {
            assert visited'[i] == queue[0];
            if v.prefix.Some? { assert visited'[v.prefix.value] == visited[v.prefix.value]; }
          }
        }
      }
      assert QueueLinked(next, visited', root) by {
        forall k | 0 <= k < |next|
          ensures match next[k].prefix
            case None => next[k].node in root.children
            case Some(j) => j < |visited'| && next[k].node in visited'[j].node.children
        {
          if k < |queue| - 1 {
            assert next[k] == queue[k + 1];
            if next[k].prefix.Some? { assert visited'[next[k].prefix.value] == visited[next[k].prefix.value]; }
          } else {
            assert next[k] == children[k - (|queue| - 1)];
            assert visited'[|visited|] == v;
          }
        }
      }
      BfsLinked(next, visited', root);
    }
  }

  /** Every row's prefix is the row of its parent node and comes before
      it; the root's children have no prefix. */
  lemma StackVisitsLinked(root: Tree)
    ensures Linked(StackVisits(root), root)
  {
    EnqueueSize(root.children, None);
    BfsLinked(Enqueue(root.children, None), [], root);
  }

  /** The node ids of a subtree, root first. */
  function Ids(t: Tree): seq<int>
    decreases t
  {
    [t.nodeId] + IdsAll(t.children)
  }

  function IdsAll(ts: seq<Tree>): seq<int>
    decreases ts
  {
    if |ts| == 0 then [] else Ids(ts[0]) + IdsAll(ts[1..])
  }

  function QueueIds(q: seq<Visit>): seq<int>
    decreases |q|
  {
    if |q| == 0 then [] else Ids(q[0].node) + QueueIds(q[1..])
  }

  /** The node id of each row. */
  function VisitIds(vs: seq<Visit>): (ids: seq<int>)
    ensures |ids| == |vs| && forall i :: 0 <= i < |vs| ==> ids[i] == vs[i].node.nodeId
  {
    seq(|vs|, i requires 0 <= i < |vs| => vs[i].node.nodeId)
  }

  /** The node ids of two queues concatenate. */
  lemma {:induction false} QueueIdsAppend(a: seq<Visit>, b: seq<Visit>)
    ensures QueueIds(a + b) == QueueIds(a) + QueueIds(b)
    decreases |a|
  {
    if |a| == 0 {
      assert a + b == b;
    } else {
      assert (a + b)[1..] == a[1..] + b;
      QueueIdsAppend(a[1..], b);
    }
  }

  /** Queuing children queues all their node ids. */
  lemma {:induction false} EnqueueIds(cs: seq<Tree>, prefix: Option<nat>)
    ensures QueueIds(Enqueue(cs, prefix)) == IdsAll(cs)
    decreases |cs|
  {
    if |cs| > 0 {
      assert Enqueue(cs, prefix)[1..] == Enqueue(cs[1..], prefix);
      EnqueueIds(cs[1..], prefix);
    }
  }

  /** The walk gives a row to every node id queued, once per occurrence. */
  lemma {:induction false} BfsIds(queue: seq<Visit>, visited: seq<Visit>)
    ensures multiset(VisitIds(Bfs(queue, visited))) == multiset(VisitIds(visited)) + multiset(QueueIds(queue))
    decreases QueueSize(queue)
  {
    if |queue| > 0 {
      var v := queue[0];
      var children := Enqueue(v.node.children, Some(|visited|));
      QueueSizeAppend(queue[1..], children);
      EnqueueSize(v.node.children, Some(|visited|));
      QueueIdsAppend(queue[1..], children);
      EnqueueIds(v.node.children, Some(|visited|));
      assert VisitIds(visited + [v]) == VisitIds(visited) + [v.node.nodeId];
      BfsIds(queue[1..] + children, visited + [v]);
    }
  }

  /** The rows are the nodes below the root: every node id occurs among the
      rows exactly as often as in the tree. */
  lemma StackVisitsCover(root: Tree)
    ensures multiset(VisitIds(StackVisits(root))) == multiset(IdsAll(root.children))
  {
    EnqueueSize(root.children, None);
    BfsIds(Enqueue(root.children, None), []);
    EnqueueIds(root.children, None);
    assert VisitIds([]) == [];
  }

  /** `map[key] = index` for every index in turn (`@frame_id_map`,
      `@stack_tree_id_map`): each key to the last index holding it. */
  function LastIndex(keys: seq<int>): (m: map<int, nat>)
    ensures forall i :: 0 <= i < |keys| ==> keys[i] in m && m[keys[i]] >= i
    ensures forall k :: k in m ==> m[k] < |keys| && keys[m[k]] == k
    decreases |keys|
  {
    if |keys| == 0 then map[]
    else LastIndex(keys[..|keys| - 1])[keys[|keys| - 1] := |keys| - 1]
  }

  /** `@stack_tree_id_map`: each row's node id to the row. */
  function RowOfNode(visits: seq<Visit>): map<int, nat> {
    LastIndex(VisitIds(visits))
  }

  predicate Distinct(s: seq<int>) {
    forall i, j :: 0 <= i < j < |s| ==> s[i] != s[j]
  }

  /** A sequence without repeats holds each value at most once. */
  lemma {:induction false} AtMostOnce(b: seq<int>, x: int)
    requires Distinct(b)
    ensures multiset(b)[x] <= 1
    decreases |b|
  {
    if |b| > 0 {
      assert b == [b[0]] + b[1..];
      AtMostOnce(b[1..], x);
      if b[0] == x {
        assert x !in b[1..];
      }
    }
  }

  /** A rearrangement of a sequence without repeats has none. */
  lemma DistinctByMultiset(a: seq<int>, b: seq<int>)
    requires multiset(a) == multiset(b) && Distinct(b)
    ensures Distinct(a)
  {
    forall i, j | 0 <= i < j < |a| ensures a[i] != a[j] {
      if a[i] == a[j] {
        var x := a[i];
        assert a == a[..j] + a[j..];
        assert a[..j][i] == x;
        assert a[j..][0] == x;
        AtMostOnce(b, x);
      }
    }
  }

  /** When the node ids below the root are distinct, every node id maps to
      the row of its own node. */
  lemma RowOfNodeIsOwnRow(root: Tree)
    requires Distinct(IdsAll(root.children))
    ensures var visits := StackVisits(root);
      forall i :: 0 <= i < |visits| ==> RowOfNode(visits)[visits[i].node.nodeId] == i
  {
    var visits := StackVisits(root);
    StackVisitsCover(root);
    DistinctByMultiset(VisitIds(visits), IdsAll(root.children));
    var m := RowOfNode(visits);
    forall i | 0 <= i < |visits| ensures m[visits[i].node.nodeId] == i {
      var k := m[visits[i].node.nodeId];
      assert VisitIds(visits)[k] == VisitIds(visits)[i];
    }
  }

  /** A sample as these reporters read it: the node id of its stack and
      its time in nanoseconds (`elapsed_ns`, or `timestamp` in
      `lib/pf2/reporter.rb`). */
  datatype TreeSample = TreeSample(stackTreeId: int, ns: int)

  /** The samples table: one entry per sample in every column. */
  datatype Samples = Samples(stack: seq<Option<nat>>, time: seq<int>, duration: seq<int>,
                             eventDelay: seq<int>, length: nat)

  /** `build_samples`: the row of each sample's node (`nil` when no row has
      that node id), its time in whole milliseconds, duration 1 and event
      delay 0. */
  function BuildSamples(samples: seq<TreeSample>, rows: map<int, nat>): (r: Samples)
    ensures r.length == |samples| == |r.stack| == |r.time| == |r.duration| == |r.eventDelay|
    ensures forall i :: 0 <= i < |samples| ==>
      && (r.stack[i].Some? <==> samples[i].stackTreeId in rows)
      && (r.stack[i].Some? ==> r.stack[i].value == rows[samples[i].stackTreeId])
      && r.time[i] * 1000000 <= samples[i].ns < (r.time[i] + 1) * 1000000
      && r.duration[i] == 1 && r.eventDelay[i] == 0
  {
    var stack := seq(|samples|, i requires 0 <= i < |samples| =>
      if samples[i].stackTreeId in rows then Some(rows[samples[i].stackTreeId]) else None);
    var time := seq(|samples|, i requires 0 <= i < |samples| => samples[i].ns / 1000000);
    Samples(stack, time, seq(|samples|, _ => 1), seq(|samples|, _ => 0), |stack|)
  }

  /** A sample whose node is below the root points at a row of that
      node. */
  lemma SampleFindsItsNode(root: Tree, samples: seq<TreeSample>, k: nat)
    requires k < |samples| && samples[k].stackTreeId in IdsAll(root.children)
    ensures var visits := StackVisits(root);
      var r := BuildSamples(samples, RowOfNode(visits));
      r.stack[k].Some? && r.stack[k].value < |visits| && visits[r.stack[k].value].node.nodeId == samples[k].stackTreeId
  {
    var visits := StackVisits(root);
    StackVisitsCover(root);
    assert samples[k].stackTreeId in multiset(VisitIds(visits));
  }
}
