/**
 The whole tree view: root selection under the filter, one subtree per root, and what the rows mean
 in terms of parent links alone. Parent links are arbitrary: self-parents and cycles are allowed.
 */
module ProcessTreeView {
  import opened Wrappers
  import opened ProcessTree

  // ---------------------------------------------------------------------------------------------
  // Parent links under the filter
  // ---------------------------------------------------------------------------------------------

  ghost predicate DistinctPids(snapshots: seq<Process>) {
    forall i, j :: 0 <= i < j < |snapshots| ==> snapshots[i].pid != snapshots[j].pid
  }

  ghost predicate DistinctKeys(snapshots: seq<Process>) {
    forall i, j :: 0 <= i < j < |snapshots| ==> snapshots[i].uniqueKey != snapshots[j].uniqueKey
  }

  /** The view the panel draws right after a rebuild of its cached map. */
  ghost predicate Fresh(v: View) {
    v.Valid() && DistinctPids(v.snapshots) && DistinctKeys(v.snapshots) && IsProcessTree(v.snapshots, v.tree)
  }

  /** The parent of process i, if the filter keeps it. */
  ghost function FilteredParent(v: View, i: nat): (r: Option<nat>)
    requires v.Valid() && i in v.filter
    ensures r.Some? ==> r.value in v.filter
  {
    var p := ParentIndex(v.snapshots, i);
    if p.Some? && p.value in v.filter then p else None
  }

  ghost predicate IsRoot(v: View, i: nat)
    requires v.Valid()
  {
    i in v.filter && FilteredParent(v, i).None?
  }

  /** The process n filtered parents above i, when every one of them is expanded. */
  ghost function Ancestor(v: View, i: nat, n: nat): (r: Option<nat>)
    requires v.Valid() && i in v.filter
    ensures r.Some? ==> r.value in v.filter
    decreases n
  {
    if n == 0 then Some(i)
    else
      var p := FilteredParent(v, i);
      if p.Some? && v.Expanded(p.value) then Ancestor(v, p.value, n - 1) else None
  }

  /** Process i hangs depth steps below a root, through filtered and expanded parents only. */
  ghost predicate RootAbove(v: View, i: nat, depth: int)
    requires v.Valid()
  {
    && i in v.filter && 0 <= depth
    && Ancestor(v, i, depth).Some?
    && IsRoot(v, Ancestor(v, i, depth).value)
  }

  lemma {:induction false} AncestorPlus(v: View, i: nat, m: nat, n: nat)
    requires v.Valid() && i in v.filter && Ancestor(v, i, m).Some?
    ensures Ancestor(v, i, m + n) == Ancestor(v, Ancestor(v, i, m).value, n)
    decreases m
  {
    if m > 0 {
      AncestorPlus(v, FilteredParent(v, i).value, m - 1, n);
    }
  }

  lemma {:induction false} AncestorPrefix(v: View, i: nat, m: nat, n: nat)
    requires v.Valid() && i in v.filter && m <= n && Ancestor(v, i, n).Some?
    ensures Ancestor(v, i, m).Some?
    decreases m
  {
    if m > 0 {
      AncestorPrefix(v, FilteredParent(v, i).value, m - 1, n - 1);
    }
  }

  /** Parent links are functional, so a process is below at most one root, at one depth. */
  lemma RootDepthIsUnique(v: View, i: nat, m: int, n: int)
    requires v.Valid() && RootAbove(v, i, m) && RootAbove(v, i, n)
    ensures m == n
  {
    if m < n {
      AncestorPlus(v, i, m, n - m);
    } else if n < m {
      AncestorPlus(v, i, n, m - n);
    }
  }

  // ---------------------------------------------------------------------------------------------
  // Children in the map are exactly the processes whose filtered parent this is
  // ---------------------------------------------------------------------------------------------

  lemma BranchMembers(v: View, i: nat, c: nat)
    requires Fresh(v) && i in v.filter
    ensures c in v.Branch(i) <==> c in v.filter && v.Expanded(i) && FilteredParent(v, c) == Some(i)
  {
    var key := v.snapshots[i].uniqueKey;
    if c in v.filter {
      assert HasParentKey(v.snapshots, c, key) <==> ParentIndex(v.snapshots, c) == Some(i);
      assert HasParentKey(v.snapshots, c, key) <==> key in v.tree && c in v.tree[key];
    }
  }

  ghost predicate Distinct<T>(s: seq<T>) {
    forall a, b :: 0 <= a < b < |s| ==> s[a] != s[b]
  }

  lemma {:induction false} KeptIncreasing(s: seq<nat>, filter: set<nat>)
    requires Increasing(s)
    ensures Increasing(Kept(s, filter))
  {
    if s != [] {
      var init := s[..|s| - 1];
      KeptIncreasing(init, filter);
      var kept := Kept(init, filter);
      assert forall a :: 0 <= a < |kept| ==> kept[a] in kept && kept[a] in init;
    }
  }

  lemma BranchDistinct(v: View, i: nat)
    requires Fresh(v) && i in v.filter
    ensures Distinct(v.Branch(i))
  {
    var key := v.snapshots[i].uniqueKey;
    if key in v.tree {
      KeptIncreasing(v.tree[key], v.filter);
    }
  }

  // ---------------------------------------------------------------------------------------------
  // Which rows a walk contains
  // ---------------------------------------------------------------------------------------------

  ghost predicate InWalk(v: View, i: nat, depth: int, row: Row)
    requires v.Valid()
  {
    && row.index in v.filter && depth <= row.depth < MAX_TREE_DEPTH
    && Ancestor(v, row.index, row.depth - depth) == Some(i)
  }

  ghost predicate InWalkAll(v: View, nodes: seq<nat>, depth: int, row: Row)
    requires v.Valid()
  {
    && row.index in v.filter && depth <= row.depth < MAX_TREE_DEPTH
    && Ancestor(v, row.index, row.depth - depth).Some?
    && Ancestor(v, row.index, row.depth - depth).value in nodes
  }

  lemma {:induction false} WalkMembers(v: View, i: nat, depth: int, row: Row)
    requires Fresh(v) && i in v.filter
    ensures row in Walk(v, i, depth) <==> InWalk(v, i, depth, row)
    decreases Room(depth), 0
  {
    hide IsProcessTree, DistinctKeys, DistinctPids;
    if depth < MAX_TREE_DEPTH {
      var branch := v.Branch(i);
      WalkAllMembers(v, branch, depth + 1, row);
      if row.index in v.filter && depth < row.depth {
        AncestorLastStep(v, row.index, row.depth - depth, i);
      }
    }
  }

  /** The last of n > 0 upward steps reaches i exactly when the n - 1 before it reach a child drawn below i. */
  lemma AncestorLastStep(v: View, j: nat, n: nat, i: nat)
    requires Fresh(v) && i in v.filter && j in v.filter && n > 0
    ensures Ancestor(v, j, n) == Some(i)
       <==> Ancestor(v, j, n - 1).Some? && Ancestor(v, j, n - 1).value in v.Branch(i)
  {
    if Ancestor(v, j, n).Some? {
      AncestorPrefix(v, j, n - 1, n);
    }
    var c := Ancestor(v, j, n - 1);
    if c.Some? {
      AncestorPlus(v, j, n - 1, 1);
      BranchMembers(v, i, c.value);
      assert Ancestor(v, c.value, 1) == Some(i) <==> v.Expanded(i) && FilteredParent(v, c.value) == Some(i) by {
        var p := FilteredParent(v, c.value);
        if p.Some? { assert Ancestor(v, p.value, 0) == p; }
      }
    }
  }

  lemma {:induction false} WalkAllMembers(v: View, nodes: seq<nat>, depth: int, row: Row)
    requires Fresh(v) && v.Indexes(nodes) && forall c :: c in nodes ==> c in v.filter
    ensures row in WalkAll(v, nodes, depth) <==> InWalkAll(v, nodes, depth, row)
    decreases Room(depth), |nodes|
  {
    if nodes != [] {
      assert nodes == [nodes[0]] + nodes[1..];
      WalkMembers(v, nodes[0], depth, row);
      WalkAllMembers(v, nodes[1..], depth, row);
    }
  }

  // ---------------------------------------------------------------------------------------------
  // No row is drawn twice
  // ---------------------------------------------------------------------------------------------

  lemma DistinctConcat<T>(a: seq<T>, b: seq<T>)
    requires Distinct(a) && Distinct(b)
    requires forall x :: x in a ==> x !in b
    ensures Distinct(a + b)
  {
    forall i, j | 0 <= i < j < |a + b|
      ensures (a + b)[i] != (a + b)[j]
    {
      if i < |a| <= j {
        assert a[i] in a && b[j - |a|] in b;
      }
    }
  }

  lemma {:induction false} WalkDistinct(v: View, i: nat, depth: int)
    requires Fresh(v) && i in v.filter
    ensures Distinct(Walk(v, i, depth))
    decreases Room(depth), 0
  {
    if depth < MAX_TREE_DEPTH {
      var branch := v.Branch(i);
      BranchDistinct(v, i);
      WalkAllDistinct(v, branch, depth + 1);
      WalkAllMembers(v, branch, depth + 1, Row(i, depth));
      DistinctConcat([Row(i, depth)], WalkAll(v, branch, depth + 1));
    }
  }

  lemma {:induction false} WalkAllDistinct(v: View, nodes: seq<nat>, depth: int)
    requires Fresh(v) && v.Indexes(nodes) && Distinct(nodes) && forall c :: c in nodes ==> c in v.filter
    ensures Distinct(WalkAll(v, nodes, depth))
    decreases Room(depth), |nodes|
  {
    if nodes != [] {
      var first, rest := nodes[0], nodes[1..];
      WalkDistinct(v, first, depth);
      WalkAllDistinct(v, rest, depth);
      var a, b := Walk(v, first, depth), WalkAll(v, rest, depth);
      forall row | row in a
        ensures row !in b
      {
        WalkMembers(v, first, depth, row);
        WalkAllMembers(v, rest, depth, row);
      }
      DistinctConcat(a, b);
    }
  }

  // ---------------------------------------------------------------------------------------------
  // renderTreeView
  // ---------------------------------------------------------------------------------------------

  /** renderTreeView's own test: some listed process with the parent's pid has a key the filter keeps. */
  ghost predicate ParentInFilter(v: View, i: nat)
    requires v.Valid() && i < |v.snapshots|
  {
    v.snapshots[i].parentPid > 0 && exists p ::
      && 0 <= p < |v.snapshots| && v.snapshots[p].pid == v.snapshots[i].parentPid
      && KeyKept(v, v.snapshots[p].uniqueKey)
  }

  ghost predicate KeyKept(v: View, key: Key)
    requires v.Valid()
  {
    exists j :: j in v.filter && v.snapshots[j].uniqueKey == key
  }

  ghost function Roots(v: View, order: seq<nat>): (r: seq<nat>)
    requires v.Valid() && v.Indexes(order)
    ensures v.Indexes(r)
    ensures forall i :: i in r <==> i in order && i < |v.snapshots| && !ParentInFilter(v, i)
  {
    if order == [] then []
    else
      var init, last := order[..|order| - 1], order[|order| - 1];
      assert order == init + [last];
      Roots(v, init) + (if ParentInFilter(v, last) then [] else [last])
  }

  lemma {:induction false} WalkAllAppend(v: View, a: seq<nat>, b: seq<nat>, depth: int)
    requires v.Valid() && v.Indexes(a) && v.Indexes(b)
    ensures WalkAll(v, a + b, depth) == WalkAll(v, a, depth) + WalkAll(v, b, depth)
    decreases |a|
  {
    if a == [] {
      assert a + b == b;
    } else {
      WalkAllAppend(v, a[1..], b, depth);
      assert (a + b)[1..] == a[1..] + b;
    }
  }

  lemma DrawNext(v: View, order: seq<nat>, n: nat)
    requires v.Valid() && v.Indexes(order) && n < |order|
    ensures WalkAll(v, Roots(v, order[..n + 1]), 0)
         == WalkAll(v, Roots(v, order[..n]), 0) + (if ParentInFilter(v, order[n]) then [] else Walk(v, order[n], 0))
  {
    var idx := order[n];
    assert order[..n + 1][..n] == order[..n];
    if ParentInFilter(v, idx) {
      assert Roots(v, order[..n + 1]) == Roots(v, order[..n]);
    } else {
      WalkAllAppend(v, Roots(v, order[..n]), [idx], 0);
      assert WalkAll(v, [idx], 0) == Walk(v, idx, 0) + WalkAll(v, [], 0);
    }
  }

  /** Draws the roots in the given order, each followed by its subtree; any snapshots, map and filter. */
  method RenderTreeView(snapshots: seq<Process>, filteredIndices: seq<nat>, tree: Tree, collapsed: set<Key>)
    returns (rows: seq<Row>)
    requires forall k :: 0 <= k < |filteredIndices| ==> filteredIndices[k] < |snapshots|
    ensures
      var v := View(snapshots, tree, (set i | i in filteredIndices), collapsed);
      rows == DrawnRows(v, filteredIndices)
  {
    var filteredSet := set i | i in filteredIndices;
    var v := View(snapshots, tree, filteredSet, collapsed);
    var keyToIndex := KeyToIndex(v, filteredIndices);

    rows := [];
    for n := 0 to |filteredIndices|
      invariant rows == WalkAll(v, Roots(v, filteredIndices[..n]), 0)
    {
      var idx := filteredIndices[n];
      var parentInFilteredSet := FindKeptParent(v, idx, keyToIndex);
      DrawNext(v, filteredIndices, n);
      if !parentInFilteredSet {
        var subtree := RenderProcessTreeNode(v, idx, 0);
        rows := rows + subtree;
      }
    }
    assert filteredIndices[..|filteredIndices|] == filteredIndices;
  }

  method KeyToIndex(v: View, filteredIndices: seq<nat>) returns (keyToIndex: map<Key, nat>)
    requires v.Valid() && v.Indexes(filteredIndices) && forall i :: i in v.filter <==> i in filteredIndices
    ensures forall key :: key in keyToIndex <==> KeyKept(v, key)
  {
    keyToIndex := map[];
    for n := 0 to |filteredIndices|
      invariant forall key :: key in keyToIndex ==> KeyKept(v, key)
      invariant forall m :: 0 <= m < n ==> v.snapshots[filteredIndices[m]].uniqueKey in keyToIndex
    {
      assert filteredIndices[n] in v.filter;
      keyToIndex := keyToIndex[v.snapshots[filteredIndices[n]].uniqueKey := filteredIndices[n]];
    }
  }

  method FindKeptParent(v: View, idx: nat, keyToIndex: map<Key, nat>) returns (found: bool)
    requires v.Valid() && idx < |v.snapshots|
    requires forall key :: key in keyToIndex <==> KeyKept(v, key)
    ensures found <==> ParentInFilter(v, idx)
  {
    found := false;
    var proc := v.snapshots[idx];
    if proc.parentPid > 0 {
      for n := 0 to |v.snapshots|
        invariant !found
        invariant forall p :: 0 <= p < n ==> !(v.snapshots[p].pid == proc.parentPid && KeyKept(v, v.snapshots[p].uniqueKey))
      {
        var p := v.snapshots[n];
        if p.pid == proc.parentPid && p.uniqueKey in keyToIndex {
          found := true;
          break;
        }
      }
    }
  }

  // ---------------------------------------------------------------------------------------------
  // Main results
  // ---------------------------------------------------------------------------------------------

  /** What renderTreeView draws for a freshly built map and an ordering of the filter without repeats. */
  ghost function DrawnRows(v: View, order: seq<nat>): seq<Row>
    requires v.Valid() && v.Indexes(order)
  {
    WalkAll(v, Roots(v, order), 0)
  }

  ghost predicate Orders(v: View, order: seq<nat>) {
    v.Indexes(order) && Distinct(order) && forall i :: i in order <==> i in v.filter
  }

  lemma KeptKeyIsKept(v: View, p: nat)
    requires v.Valid() && DistinctKeys(v.snapshots) && p < |v.snapshots|
    ensures KeyKept(v, v.snapshots[p].uniqueKey) <==> p in v.filter
  {
  }

  lemma FoundByPid(snapshots: seq<Process>, i: nat, p: nat)
    requires DistinctPids(snapshots) && i < |snapshots| && p < |snapshots|
    ensures ParentIndex(snapshots, i) == Some(p)
       <==> snapshots[i].parentPid > 0 && snapshots[p].pid == snapshots[i].parentPid
  {
    hide LastWithPid;
  }

  /** With distinct pids and keys, renderTreeView's test finds a parent exactly when the filter keeps the parent. */
  lemma ParentTestIsRight(v: View, i: nat)
    requires Fresh(v) && i in v.filter
    ensures ParentInFilter(v, i) <==> FilteredParent(v, i).Some?
  {
    hide LastWithPid, IsProcessTree, DistinctKeys, DistinctPids, KeyKept;
    if FilteredParent(v, i).Some? {
      var p := FilteredParent(v, i).value;
      FoundByPid(v.snapshots, i, p);
      KeptKeyIsKept(v, p);
    }
    if ParentInFilter(v, i) {
      var p :| 0 <= p < |v.snapshots| && v.snapshots[p].pid == v.snapshots[i].parentPid
            && KeyKept(v, v.snapshots[p].uniqueKey);
      FoundByPid(v.snapshots, i, p);
      KeptKeyIsKept(v, p);
    }
  }

  lemma RootsAreRoots(v: View, order: seq<nat>, i: nat)
    requires Fresh(v) && Orders(v, order)
    ensures i in Roots(v, order) <==> IsRoot(v, i)
  {
    hide ParentInFilter, FilteredParent, Fresh, Roots;
    assert v.Valid();
    if i in v.filter {
      ParentTestIsRight(v, i);
    }
  }

  lemma {:induction false} RootsDistinct(v: View, order: seq<nat>)
    requires v.Valid() && v.Indexes(order) && Distinct(order)
    ensures Distinct(Roots(v, order))
  {
    if order != [] {
      var init, last := order[..|order| - 1], order[|order| - 1];
      RootsDistinct(v, init);
      assert last !in init;
      DistinctConcat(Roots(v, init), if ParentInFilter(v, last) then [] else [last]);
    }
  }

  /** A row is drawn exactly for a process hanging that many steps (fewer than 1000) below a root. */
  lemma DrawnExactly(v: View, order: seq<nat>, row: Row)
    requires Fresh(v) && Orders(v, order)
    ensures row in DrawnRows(v, order) <==> row.depth < MAX_TREE_DEPTH && RootAbove(v, row.index, row.depth)
  {
    var roots := Roots(v, order);
    forall i ensures i in roots <==> IsRoot(v, i) { RootsAreRoots(v, order, i); }
    WalkAllMembers(v, roots, 0, row);
  }

  /** No process is drawn twice, not even at two depths: cycles and self-parents included. */
  lemma NeverDrawnTwice(v: View, order: seq<nat>)
    requires Fresh(v) && Orders(v, order)
    ensures
      var rows := DrawnRows(v, order);
      forall a, b :: 0 <= a < b < |rows| ==> rows[a].index != rows[b].index
  {
    var rows, roots := DrawnRows(v, order), Roots(v, order);
    forall i ensures i in roots <==> IsRoot(v, i) { RootsAreRoots(v, order, i); }
    RootsDistinct(v, order);
    WalkAllDistinct(v, roots, 0);
    forall a, b | 0 <= a < b < |rows|
      ensures rows[a].index != rows[b].index
    {
      if rows[a].index == rows[b].index {
        assert rows[a] in rows && rows[b] in rows;
        DrawnExactly(v, order, rows[a]);
        DrawnExactly(v, order, rows[b]);
        RootDepthIsUnique(v, rows[a].index, rows[a].depth, rows[b].depth);
      }
    }
  }

  ghost function Indices(rows: seq<Row>): seq<nat> {
    seq(|rows|, k requires 0 <= k < |rows| => rows[k].index)
  }

  ghost predicate ReachesRoot(v: View, i: nat)
    requires v.Valid()
  {
    exists depth :: 0 <= depth < MAX_TREE_DEPTH && RootAbove(v, i, depth)
  }

  /** The rows are a permutation of the filter exactly when every filtered process reaches a root in time. */
  lemma PermutationExactly(v: View, order: seq<nat>)
    requires Fresh(v) && Orders(v, order)
    ensures multiset(Indices(DrawnRows(v, order))) == multiset(order)
       <==> forall i :: i in v.filter ==> ReachesRoot(v, i)
  {
    var rows := DrawnRows(v, order);
    var drawn := Indices(rows);
    NeverDrawnTwice(v, order);
    assert Distinct(drawn);
    forall i
      ensures i in drawn <==> i in v.filter && ReachesRoot(v, i)
    {
      if i in drawn {
        var k :| 0 <= k < |drawn| && drawn[k] == i;
        assert rows[k] in rows;
        DrawnExactly(v, order, rows[k]);
      }
      if ReachesRoot(v, i) {
        var depth :| 0 <= depth < MAX_TREE_DEPTH && RootAbove(v, i, depth);
        DrawnExactly(v, order, Row(i, depth));
        var k :| 0 <= k < |rows| && rows[k] == Row(i, depth);
        assert drawn[k] == i;
      }
    }
    if forall i :: i in v.filter ==> ReachesRoot(v, i) {
      SameElements(drawn, order);
    }
    if multiset(drawn) == multiset(order) {
      forall i | i in v.filter
        ensures ReachesRoot(v, i)
      {
        assert i in multiset(order);
        assert i in drawn;
      }
    }
  }

  lemma {:induction false} DistinctCount<T>(s: seq<T>, x: T)
    requires Distinct(s)
    ensures multiset(s)[x] == if x in s then 1 else 0
  {
    if s != [] {
      assert s == s[..|s| - 1] + [s[|s| - 1]];
      DistinctCount(s[..|s| - 1], x);
    }
  }

  lemma SameElements<T>(s: seq<T>, t: seq<T>)
    requires Distinct(s) && Distinct(t)
    requires forall x :: x in s <==> x in t
    ensures multiset(s) == multiset(t)
  {
    forall x ensures multiset(s)[x] == multiset(t)[x] {
      DistinctCount(s, x);
      DistinctCount(t, x);
    }
  }

  /** Acyclic parent links with chains shorter than the cut-off, and nothing collapsed. */
  ghost predicate Graded(v: View, level: nat -> nat)
    requires v.Valid()
  {
    && (forall i :: i in v.filter ==> level(i) < MAX_TREE_DEPTH)
    && (forall i :: i in v.filter && FilteredParent(v, i).Some? ==> level(FilteredParent(v, i).value) < level(i))
  }

  lemma {:induction false} GradedReachesRoot(v: View, level: nat -> nat, i: nat) returns (depth: nat)
    requires v.Valid() && v.collapsed == {} && Graded(v, level) && i in v.filter
    ensures depth <= level(i) && RootAbove(v, i, depth)
    decreases level(i)
  {
    var p := FilteredParent(v, i);
    if p.None? {
      depth := 0;
    } else {
      depth := GradedReachesRoot(v, level, p.value);
      depth := depth + 1;
    }
  }

  lemma AcyclicDrawsEverything(v: View, order: seq<nat>, level: nat -> nat)
    requires Fresh(v) && Orders(v, order) && v.collapsed == {} && Graded(v, level)
    ensures multiset(Indices(DrawnRows(v, order))) == multiset(order)
  {
    forall i | i in v.filter
      ensures ReachesRoot(v, i)
    {
      var depth := GradedReachesRoot(v, level, i);
    }
    PermutationExactly(v, order);
  }

  /** The process n filtered parents above i, expanded or not. */
  ghost function Above(v: View, i: nat, n: nat): (r: Option<nat>)
    requires v.Valid() && i in v.filter
    ensures r.Some? ==> r.value in v.filter
    ensures Ancestor(v, i, n).Some? ==> r == Ancestor(v, i, n)
    decreases n
  {
    if n == 0 then Some(i)
    else
      var p := FilteredParent(v, i);
      if p.Some? then Above(v, p.value, n - 1) else None
  }

  lemma {:induction false} AbovePlus(v: View, i: nat, m: nat, n: nat)
    requires v.Valid() && i in v.filter && Above(v, i, m).Some?
    ensures Above(v, i, m + n) == Above(v, Above(v, i, m).value, n)
    decreases m
  {
    if m > 0 {
      AbovePlus(v, FilteredParent(v, i).value, m - 1, n);
    }
  }

  /** A process on a parent cycle, a self-parent included, is never drawn, whatever is collapsed. */
  lemma CyclesAreNeverDrawn(v: View, order: seq<nat>, i: nat, length: nat, row: Row)
    requires Fresh(v) && Orders(v, order) && i in v.filter
    requires length > 0 && Above(v, i, length) == Some(i)
    ensures row in DrawnRows(v, order) ==> row.index != i
  {
    if row in DrawnRows(v, order) && row.index == i {
      DrawnExactly(v, order, row);
      NoRootAboveCycle(v, i, length, row.depth);
    }
  }

  lemma {:induction false} NoRootAboveCycle(v: View, i: nat, length: nat, depth: nat)
    requires v.Valid() && i in v.filter && length > 0 && Above(v, i, length) == Some(i)
    ensures !(Above(v, i, depth).Some? && IsRoot(v, Above(v, i, depth).value))
    decreases depth
  {
    if depth >= length {
      AbovePlus(v, i, length, depth - length);
      NoRootAboveCycle(v, i, length, depth - length);
    } else if Above(v, i, depth).Some? {
      AbovePlus(v, i, depth, length - depth);
    }
  }

  /** One process that is its own parent: nothing is drawn. */
  lemma SelfParentWitness(tree: Tree)
    requires IsProcessTree([Process(1, 1, 7)], tree)
    ensures
      var v := View([Process(1, 1, 7)], tree, {0}, {});
      Fresh(v) && Orders(v, [0]) && DrawnRows(v, [0]) == []
  {
    var v := View([Process(1, 1, 7)], tree, {0}, {});
    assert LastWithPid(v.snapshots, 1) == Some(0);
    assert FilteredParent(v, 0) == Some(0);
    hide LastWithPid, IsProcessTree;
    ParentTestIsRight(v, 0);
    assert Roots(v, [0]) == [] by { assert [0][..0] == []; }
  }
}
