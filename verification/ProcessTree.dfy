/**
 The process tree view of src/App/Panels/ProcessesPanel.cpp: the parent-to-children map built from
 arbitrary parent pids, and the drawing of that forest with an explicit stack and a depth cut-off.
 Drawing a row is modelled as appending (index, depth) to the output.
 */
module ProcessTree {
  import opened Wrappers

  const MAX_TREE_DEPTH := 1000

  type Key = nat

  datatype Process = Process(pid: int, parentPid: int, uniqueKey: Key)

  type Tree = map<Key, seq<nat>>

  /** A drawn row; also a frame of the drawing stack. */
  datatype Row = Row(index: nat, depth: int)

  // ---------------------------------------------------------------------------------------------
  // Building the parent-to-children map
  // ---------------------------------------------------------------------------------------------

  /** The process a parent pid resolves to: the last one listed with that pid. */
  function LastWithPid(snapshots: seq<Process>, pid: int): (r: Option<nat>)
    ensures r.Some? ==> r.value < |snapshots| && snapshots[r.value].pid == pid
    ensures r.Some? ==> forall i :: r.value < i < |snapshots| ==> snapshots[i].pid != pid
    ensures r.None? ==> forall i :: 0 <= i < |snapshots| ==> snapshots[i].pid != pid
  {
    if snapshots == [] then None
    else if snapshots[|snapshots| - 1].pid == pid then Some(|snapshots| - 1)
    else LastWithPid(snapshots[..|snapshots| - 1], pid)
  }

  function ParentIndex(snapshots: seq<Process>, i: nat): Option<nat>
    requires i < |snapshots|
  {
    if snapshots[i].parentPid > 0 then LastWithPid(snapshots, snapshots[i].parentPid) else None
  }

  ghost predicate HasParentKey(snapshots: seq<Process>, i: nat, key: Key)
  {
    && i < |snapshots|
    && ParentIndex(snapshots, i).Some?
    && snapshots[ParentIndex(snapshots, i).value].uniqueKey == key
  }

  ghost predicate Increasing(s: seq<nat>) {
    forall a, b :: 0 <= a < b < |s| ==> s[a] < s[b]
  }

  /** Every process among the first n hangs under its parent's key, once and in index order; nothing else does. */
  ghost predicate IsTreeOfFirst(snapshots: seq<Process>, n: nat, tree: Tree)
  {
    && (forall k :: k in tree ==> tree[k] != [] && Increasing(tree[k]))
    && (forall k, i: nat :: k in tree && i in tree[k] ==> i < n && HasParentKey(snapshots, i, k))
    && (forall i: nat, k: Key :: i < n && HasParentKey(snapshots, i, k) ==> k in tree && i in tree[k])
  }

  ghost predicate IsProcessTree(snapshots: seq<Process>, tree: Tree)
  {
    IsTreeOfFirst(snapshots, |snapshots|, tree)
  }

  /** The contract of buildProcessTree leaves no freedom: two such maps are the same map. */
  lemma ProcessTreeIsUnique(snapshots: seq<Process>, t: Tree, u: Tree)
    requires IsProcessTree(snapshots, t) && IsProcessTree(snapshots, u)
    ensures t == u
  {
    assert forall k :: k in t ==> t[k][0] in t[k];
    assert forall k :: k in u ==> u[k][0] in u[k];
    forall k | k in t
      ensures k in u && t[k] == u[k]
    {
      assert HasParentKey(snapshots, t[k][0], k);
      forall i ensures i in t[k] <==> i in u[k] {
        if i in t[k] { assert HasParentKey(snapshots, i, k); }
        if i in u[k] { assert HasParentKey(snapshots, i, k); }
      }
      IncreasingIsUnique(t[k], u[k]);
    }
    forall k | k in u
      ensures k in t
    {
      assert HasParentKey(snapshots, u[k][0], k);
    }
  }

  lemma {:induction false} IncreasingIsUnique(s: seq<nat>, t: seq<nat>)
    requires Increasing(s) && Increasing(t)
    requires forall i :: i in s <==> i in t
    ensures s == t
  {
    if s == [] {
      assert forall i :: 0 <= i < |t| ==> t[i] in t;
    } else {
      assert s[0] in t;
      var a, b := s[|s| - 1], t[|t| - 1];
      assert a in t && b in s;
      assert a == b;
      var s', t' := s[..|s| - 1], t[..|t| - 1];
      forall i ensures i in s' <==> i in t' {
        if i in s' { assert i in s && i != a; assert i in t; }
        if i in t' { assert i in t && i != a; assert i in s; }
      }
      IncreasingIsUnique(s', t');
      assert s == s' + [a] && t == t' + [a];
    }
  }

  /** First pass: pid to unique key; a later process with the same pid replaces an earlier one. */
  method KeysByPid(snapshots: seq<Process>) returns (pidToUniqueKey: map<int, Key>)
    ensures forall pid :: pid in pidToUniqueKey <==> LastWithPid(snapshots, pid).Some?
    ensures forall pid :: pid in pidToUniqueKey ==>
      pidToUniqueKey[pid] == snapshots[LastWithPid(snapshots, pid).value].uniqueKey
  {
    pidToUniqueKey := map[];
    for n := 0 to |snapshots|
      invariant forall pid :: pid in pidToUniqueKey <==> LastWithPid(snapshots[..n], pid).Some?
      invariant forall pid :: pid in pidToUniqueKey ==>
        pidToUniqueKey[pid] == snapshots[LastWithPid(snapshots[..n], pid).value].uniqueKey
    {
      assert snapshots[..n + 1][..n] == snapshots[..n];
      pidToUniqueKey := pidToUniqueKey[snapshots[n].pid := snapshots[n].uniqueKey];
    }
    assert snapshots[..|snapshots|] == snapshots;
  }

  method BuildProcessTree(snapshots: seq<Process>) returns (tree: Tree)
    ensures IsProcessTree(snapshots, tree)
  {
    hide LastWithPid, IsTreeOfFirst;
    tree := map[];
    EmptyTree(snapshots);
    var pidToUniqueKey := KeysByPid(snapshots);

    // Second pass: append each process to its parent's children.
    for i := 0 to |snapshots|
      invariant IsTreeOfFirst(snapshots, i, tree)
    {
      var proc := snapshots[i];
      if proc.parentPid > 0 && proc.parentPid in pidToUniqueKey {
        var parentKey := pidToUniqueKey[proc.parentPid];
        var siblings := if parentKey in tree then tree[parentKey] else [];
        ghost var before := tree;
        tree := tree[parentKey := siblings + [i]];
        TreeGrows(snapshots, i, before, parentKey, siblings, tree);
      } else {
        TreeStays(snapshots, i, tree);
      }
    }
  }

  lemma EmptyTree(snapshots: seq<Process>)
    ensures IsTreeOfFirst(snapshots, 0, map[])
  {
  }

  lemma TreeStays(snapshots: seq<Process>, i: nat, tree: Tree)
    requires i < |snapshots| && IsTreeOfFirst(snapshots, i, tree) && ParentIndex(snapshots, i).None?
    ensures IsTreeOfFirst(snapshots, i + 1, tree)
  {
    assert forall k: Key :: !HasParentKey(snapshots, i, k);
  }

  lemma TreeGrows(snapshots: seq<Process>, i: nat, before: Tree, key: Key, siblings: seq<nat>, tree: Tree)
    requires IsTreeOfFirst(snapshots, i, before)
    requires HasParentKey(snapshots, i, key)
    requires siblings == if key in before then before[key] else []
    requires tree == before[key := siblings + [i]]
    ensures IsTreeOfFirst(snapshots, i + 1, tree)
  {
    hide HasParentKey;
    forall a | 0 <= a < |siblings|
      ensures siblings[a] < i
    {
      assert siblings[a] in before[key];
    }
    IncreasingAppends(siblings, i);
    forall k: Key, j: nat | k in tree && j in tree[k]
      ensures j < i + 1 && HasParentKey(snapshots, j, k)
    {
      if k == key && j != i {
        assert j in before[key];
      }
    }
    forall k: Key, j: nat | j < i + 1 && HasParentKey(snapshots, j, k)
      ensures k in tree && j in tree[k]
    {
      if j < i {
        assert k in before && j in before[k];
      } else {
        ParentKeyIsUnique(snapshots, i, k, key);
        assert tree[key][|siblings|] == i;
      }
    }
  }

  lemma ParentKeyIsUnique(snapshots: seq<Process>, i: nat, k: Key, key: Key)
    requires HasParentKey(snapshots, i, k) && HasParentKey(snapshots, i, key)
    ensures k == key
  {
  }

  lemma IncreasingAppends(s: seq<nat>, i: nat)
    requires Increasing(s) && forall a :: 0 <= a < |s| ==> s[a] < i
    ensures Increasing(s + [i])
  {
  }

  // ---------------------------------------------------------------------------------------------
  // Drawing one subtree: the explicit stack against the recursive walk
  // ---------------------------------------------------------------------------------------------

  function Kept(s: seq<nat>, filter: set<nat>): (r: seq<nat>)
    ensures forall i :: i in r <==> i in s && i in filter
    ensures forall i :: i in r ==> i in filter
  {
    if s == [] then []
    else
      var rest := Kept(s[..|s| - 1], filter);
      assert s == s[..|s| - 1] + [s[|s| - 1]];
      if s[|s| - 1] in filter then rest + [s[|s| - 1]] else rest
  }

  /** What one draw reads. The map need not belong to these snapshots: the panel caches it. */
  datatype View = View(snapshots: seq<Process>, tree: Tree, filter: set<nat>, collapsed: set<Key>) {
    ghost predicate Valid() {
      forall i :: i in filter ==> i < |snapshots|
    }

    predicate Expanded(i: nat)
      requires i < |snapshots|
    {
      snapshots[i].uniqueKey !in collapsed
    }

    ghost predicate Indexes(nodes: seq<nat>) {
      forall k :: 0 <= k < |nodes| ==> nodes[k] < |snapshots|
    }

    /** The children drawn below process i. */
    ghost function Branch(i: nat): (r: seq<nat>)
      requires Valid() && i < |snapshots|
      ensures Indexes(r) && forall c :: c in r ==> c in filter
    {
      var key := snapshots[i].uniqueKey;
      if key in tree && Expanded(i) then
        var kept := Kept(tree[key], filter);
        assert forall k :: 0 <= k < |kept| ==> kept[k] in kept;
        kept
      else []
    }
  }

  function Room(depth: int): nat {
    if depth < MAX_TREE_DEPTH then MAX_TREE_DEPTH - depth else 0
  }

  /** The reference: a recursive, depth-limited preorder walk. */
  ghost function Walk(v: View, i: nat, depth: int): seq<Row>
    requires v.Valid() && i < |v.snapshots|
    decreases Room(depth), 0
  {
    if depth >= MAX_TREE_DEPTH then [] else [Row(i, depth)] + WalkAll(v, v.Branch(i), depth + 1)
  }

  ghost function WalkAll(v: View, nodes: seq<nat>, depth: int): seq<Row>
    requires v.Valid() && v.Indexes(nodes)
    decreases Room(depth), |nodes|
  {
    if nodes == [] then [] else Walk(v, nodes[0], depth) + WalkAll(v, nodes[1..], depth)
  }

  /** How many frames drawing process i at this depth pops, cut-off frames included. */
  ghost function Pops(v: View, i: nat, depth: int): nat
    requires v.Valid() && i < |v.snapshots|
    decreases Room(depth), 0
  {
    if depth >= MAX_TREE_DEPTH then 1 else 1 + PopsAll(v, v.Branch(i), depth + 1)
  }

  ghost function PopsAll(v: View, nodes: seq<nat>, depth: int): nat
    requires v.Valid() && v.Indexes(nodes)
    decreases Room(depth), |nodes|
  {
    if nodes == [] then 0 else Pops(v, nodes[0], depth) + PopsAll(v, nodes[1..], depth)
  }

  ghost predicate StackOk(v: View, stack: seq<Row>) {
    forall k :: 0 <= k < |stack| ==> stack[k].index < |v.snapshots|
  }

  /** What the frames still on the stack (top last) will draw. */
  ghost function StackRows(v: View, stack: seq<Row>): seq<Row>
    requires v.Valid() && StackOk(v, stack)
  {
    if stack == [] then []
    else
      var top := stack[|stack| - 1];
      Walk(v, top.index, top.depth) + StackRows(v, stack[..|stack| - 1])
  }

  /** The termination measure: the depth-bounded unfoldings of all frames on the stack. */
  ghost function StackPops(v: View, stack: seq<Row>): nat
    requires v.Valid() && StackOk(v, stack)
  {
    if stack == [] then 0
    else
      var top := stack[|stack| - 1];
      Pops(v, top.index, top.depth) + StackPops(v, stack[..|stack| - 1])
  }

  lemma StackPush(v: View, stack: seq<Row>, frame: Row)
    requires v.Valid() && StackOk(v, stack) && frame.index < |v.snapshots|
    ensures StackOk(v, stack + [frame])
    ensures StackRows(v, stack + [frame]) == Walk(v, frame.index, frame.depth) + StackRows(v, stack)
    ensures StackPops(v, stack + [frame]) == Pops(v, frame.index, frame.depth) + StackPops(v, stack)
  {
    assert (stack + [frame])[..|stack|] == stack;
  }

  lemma NextChild(v: View, children: seq<nat>, k: nat, depth: int)
    requires v.Valid() && v.Indexes(children) && k < |children|
    ensures WalkAll(v, children[k..], depth) == Walk(v, children[k], depth) + WalkAll(v, children[k + 1..], depth)
    ensures PopsAll(v, children[k..], depth) == Pops(v, children[k], depth) + PopsAll(v, children[k + 1..], depth)
  {
    assert children[k..][1..] == children[k + 1..];
  }

  /** Pushing the children in reverse puts their subtrees, in order, on top of what was there. */
  method PushReversed(v: View, base: seq<Row>, children: seq<nat>, depth: int) returns (stack: seq<Row>)
    requires v.Valid() && StackOk(v, base)
    requires v.Indexes(children)
    ensures StackOk(v, stack)
    ensures StackRows(v, stack) == WalkAll(v, children, depth) + StackRows(v, base)
    ensures StackPops(v, stack) == PopsAll(v, children, depth) + StackPops(v, base)
  {
    hide StackRows, StackPops, Walk, Pops;
    stack := base;
    var k := |children|;
    while k > 0
      invariant 0 <= k <= |children| && StackOk(v, stack)
      invariant StackRows(v, stack) == WalkAll(v, children[k..], depth) + StackRows(v, base)
      invariant StackPops(v, stack) == PopsAll(v, children[k..], depth) + StackPops(v, base)
    {
      k := k - 1;
      NextChild(v, children, k, depth);
      StackPush(v, stack, Row(children[k], depth));
      stack := stack + [Row(children[k], depth)];
    }
    assert children[0..] == children;
  }

  lemma StackPop(v: View, stack: seq<Row>, rest: seq<Row>, frame: Row)
    requires v.Valid() && StackOk(v, stack) && stack != [] && frame == stack[|stack| - 1] && rest == stack[..|stack| - 1]
    ensures StackOk(v, rest) && frame.index < |v.snapshots|
    ensures StackRows(v, stack) == Walk(v, frame.index, frame.depth) + StackRows(v, rest)
    ensures StackPops(v, stack) == Pops(v, frame.index, frame.depth) + StackPops(v, rest)
  {
  }

  /** A frame at the cut-off draws nothing but is still popped. */
  lemma CutOffFrame(v: View, frame: Row)
    requires v.Valid() && frame.index < |v.snapshots| && frame.depth >= MAX_TREE_DEPTH
    ensures Walk(v, frame.index, frame.depth) == [] && Pops(v, frame.index, frame.depth) == 1
  {
  }

  /** Drawing a frame above the cut-off moves its row to the output and leaves its branch to draw. */
  lemma DrawFrame(v: View, frame: Row, rows: seq<Row>, rest: seq<Row>)
    requires v.Valid() && frame.index < |v.snapshots| && frame.depth < MAX_TREE_DEPTH
    ensures rows + (Walk(v, frame.index, frame.depth) + rest)
         == rows + [frame] + (WalkAll(v, v.Branch(frame.index), frame.depth + 1) + rest)
    ensures Pops(v, frame.index, frame.depth) == 1 + PopsAll(v, v.Branch(frame.index), frame.depth + 1)
  {
    var below := WalkAll(v, v.Branch(frame.index), frame.depth + 1);
    assert Walk(v, frame.index, frame.depth) == [frame] + below;
    assert rows + (([frame] + below) + rest) == rows + [frame] + (below + rest);
  }

  /** For every map (cyclic or stale), filter and collapsed set, the stack loop ends and draws the walk. */
  method RenderProcessTreeNode(v: View, procIdx: nat, depth: int) returns (rows: seq<Row>)
    requires v.Valid() && procIdx < |v.snapshots|
    ensures rows == Walk(v, procIdx, depth)
  {
    rows := [];
    var stack := [];
    StackPush(v, stack, Row(procIdx, depth));
    stack := stack + [Row(procIdx, depth)];
    NothingLeft(v);
    hide Walk, WalkAll, Pops, PopsAll, StackRows, StackPops;
    while stack != []
      invariant StackOk(v, stack)
      invariant rows + StackRows(v, stack) == Walk(v, procIdx, depth)
      decreases StackPops(v, stack)
    {
      var frame := stack[|stack| - 1];
      ghost var before := stack;
      stack := stack[..|stack| - 1];
      StackPop(v, before, stack, frame);
      if frame.depth >= MAX_TREE_DEPTH {
        CutOffFrame(v, frame);
        assert [] + StackRows(v, stack) == StackRows(v, stack);
        continue;
      }
      var branch := ChildrenToDraw(v, frame.index);
      DrawFrame(v, frame, rows, StackRows(v, stack));
      rows := rows + [frame];
      stack := PushReversed(v, stack, branch, frame.depth + 1);
    }
    assert rows + [] == rows;
  }

  lemma NothingLeft(v: View)
    requires v.Valid()
    ensures StackRows(v, []) == []
  {
  }

  /** The filtered children of an expanded process, in order; none for a collapsed one. */
  method ChildrenToDraw(v: View, procIdx: nat) returns (branch: seq<nat>)
    requires v.Valid() && procIdx < |v.snapshots|
    ensures branch == v.Branch(procIdx)
  {
    var key := v.snapshots[procIdx].uniqueKey;
    var hasChildren := false;
    var filteredChildren := [];
    if key in v.tree {
      filteredChildren := FilterChildren(v.tree[key], v.filter);
      hasChildren := filteredChildren != [];
    }
    var isExpanded := key !in v.collapsed;
    branch := if hasChildren && isExpanded then filteredChildren else [];
  }

  method FilterChildren(children: seq<nat>, filter: set<nat>) returns (kept: seq<nat>)
    ensures kept == Kept(children, filter)
  {
    kept := [];
    for n := 0 to |children|
      invariant kept == Kept(children[..n], filter)
    {
      assert children[..n + 1][..n] == children[..n];
      if children[n] in filter {
        kept := kept + [children[n]];
      }
    }
    assert children[..|children|] == children;
  }
}
