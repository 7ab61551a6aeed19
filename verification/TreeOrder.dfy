/**
 The order in which the tree view draws its rows (src/App/Panels/ProcessesPanel.cpp): children in the order of the map,
 each process right above its own subtree, siblings by index, roots in the order of the filter.
 */
module TreeOrder {
  import opened Wrappers
  import opened ProcessTree
  import opened ProcessTreeView

  /** s is what this set keeps of from, in the same order: its entries stand at these places, which are all of them. */
  ghost predicate PickedAt(s: seq<nat>, from: seq<nat>, keep: set<nat>, places: seq<nat>) {
    && Increasing(places) && |places| == |s|
    && (forall k :: 0 <= k < |s| ==> places[k] < |from| && s[k] == from[places[k]])
    && (forall p: nat :: p < |from| ==> (from[p] in keep <==> p in places))
  }

  ghost predicate PickedInOrder(s: seq<nat>, from: seq<nat>, keep: set<nat>) {
    exists places :: PickedAt(s, from, keep, places)
  }

  lemma PickedNext(s: seq<nat>, from: seq<nat>, keep: set<nat>, places: seq<nat>, x: nat)
    requires PickedAt(s, from, keep, places)
    ensures x in keep ==> PickedAt(s + [x], from + [x], keep, places + [|from|])
    ensures x !in keep ==> PickedAt(s, from + [x], keep, places)
  {
    var next := from + [x];
    var all := if x in keep then places + [|from|] else places;
    assert forall k :: 0 <= k < |places| ==> places[k] in places;
    forall p: nat | p < |next|
      ensures next[p] in keep <==> p in all
    {
      if p < |from| {
        assert next[p] == from[p];
      }
    }
  }

  lemma {:induction false} KeptPicked(s: seq<nat>, filter: set<nat>) returns (places: seq<nat>)
    ensures PickedAt(Kept(s, filter), s, filter, places)
  {
    if s == [] {
      places := [];
    } else {
      var init, last := s[..|s| - 1], s[|s| - 1];
      places := KeptPicked(init, filter);
      PickedNext(Kept(init, filter), init, filter, places, last);
      assert s == init + [last];
      if last in filter {
        places := places + [|init|];
      }
    }
  }

  // ---------------------------------------------------------------------------------------------
  // Rows of one depth
  // ---------------------------------------------------------------------------------------------

  /** The processes drawn at this depth, top to bottom. */
  ghost function AtDepth(rows: seq<Row>, depth: int): seq<nat> {
    if rows == [] then []
    else
      var last := rows[|rows| - 1];
      AtDepth(rows[..|rows| - 1], depth) + (if last.depth == depth then [last.index] else [])
  }

  lemma {:induction false} AtDepthConcat(a: seq<Row>, b: seq<Row>, depth: int)
    ensures AtDepth(a + b, depth) == AtDepth(a, depth) + AtDepth(b, depth)
    decreases |b|
  {
    if b == [] {
      assert a + b == a;
    } else {
      AtDepthConcat(a, b[..|b| - 1], depth);
      assert (a + b)[..|a + b| - 1] == a + b[..|b| - 1];
    }
  }

  ghost predicate Deeper(rows: seq<Row>, depth: int) {
    forall k :: 0 <= k < |rows| ==> rows[k].depth >= depth
  }

  lemma {:induction false} NoneAtDepth(rows: seq<Row>, depth: int)
    requires Deeper(rows, depth + 1)
    ensures AtDepth(rows, depth) == []
  {
    if rows != [] {
      NoneAtDepth(rows[..|rows| - 1], depth);
    }
  }

  lemma {:induction false} WalkDeeper(v: View, i: nat, depth: int)
    requires v.Valid() && i < |v.snapshots|
    ensures Deeper(Walk(v, i, depth), depth)
    decreases Room(depth), 0
  {
    if depth < MAX_TREE_DEPTH {
      WalkAllDeeper(v, v.Branch(i), depth + 1);
    }
  }

  lemma {:induction false} WalkAllDeeper(v: View, nodes: seq<nat>, depth: int)
    requires v.Valid() && v.Indexes(nodes)
    ensures Deeper(WalkAll(v, nodes, depth), depth)
    decreases Room(depth), |nodes|
  {
    if nodes != [] {
      WalkDeeper(v, nodes[0], depth);
      WalkAllDeeper(v, nodes[1..], depth);
    }
  }

  /** Drawing a list of subtrees puts their tops at its depth in the order of the list; past the cut-off nothing. */
  lemma {:induction false} TopsInOrder(v: View, nodes: seq<nat>, depth: int)
    requires v.Valid() && v.Indexes(nodes)
    ensures depth < MAX_TREE_DEPTH ==> AtDepth(WalkAll(v, nodes, depth), depth) == nodes
    ensures depth >= MAX_TREE_DEPTH ==> WalkAll(v, nodes, depth) == []
    decreases |nodes|
  {
    if nodes != [] {
      TopsInOrder(v, nodes[1..], depth);
      if depth < MAX_TREE_DEPTH {
        TopIsFirst(v, nodes[0], depth);
        AtDepthConcat(Walk(v, nodes[0], depth), WalkAll(v, nodes[1..], depth), depth);
        assert nodes == [nodes[0]] + nodes[1..];
      }
    }
  }

  lemma TopIsFirst(v: View, i: nat, depth: int)
    requires v.Valid() && i < |v.snapshots| && depth < MAX_TREE_DEPTH
    ensures AtDepth(Walk(v, i, depth), depth) == [i]
    ensures AtDepth(Walk(v, i, depth), depth + 1) == AtDepth(WalkAll(v, v.Branch(i), depth + 1), depth + 1)
  {
    var top, below := Row(i, depth), WalkAll(v, v.Branch(i), depth + 1);
    assert Walk(v, i, depth) == [top] + below;
    WalkAllDeeper(v, v.Branch(i), depth + 1);
    hide Walk, WalkAll, View.Branch, AtDepth, Deeper;
    NoneAtDepth(below, depth);
    AtDepthConcat([top], below, depth);
    AtDepthConcat([top], below, depth + 1);
    OneAtDepth(top, depth);
    OneAtDepth(top, depth + 1);
    assert [] + AtDepth(below, depth + 1) == AtDepth(below, depth + 1);
  }

  lemma OneAtDepth(row: Row, depth: int)
    ensures AtDepth([row], depth) == if row.depth == depth then [row.index] else []
  {
    assert [row][..0] == [];
  }

  lemma NothingDrawn(depth: int)
    ensures AtDepth([], depth) == []
  {
  }

  /** For every map, stale or cyclic: right below a drawn process come the filtered entries of its children list, in the
      order of that list, if it is expanded and above the cut-off; otherwise nothing. */
  lemma ChildrenInOrder(v: View, i: nat, depth: int)
    requires v.Valid() && i < |v.snapshots|
    ensures
      var key, children := v.snapshots[i].uniqueKey, AtDepth(Walk(v, i, depth), depth + 1);
      if key in v.tree && v.Expanded(i) && depth + 1 < MAX_TREE_DEPTH then PickedInOrder(children, v.tree[key], v.filter)
      else children == []
  {
    hide Kept, PickedAt, WalkAll, AtDepth;
    var key := v.snapshots[i].uniqueKey;
    if depth < MAX_TREE_DEPTH {
      TopIsFirst(v, i, depth);
      TopsInOrder(v, v.Branch(i), depth + 1);
      NothingDrawn(depth + 1);
      if key in v.tree {
        var places := KeptPicked(v.tree[key], v.filter);
        assert PickedInOrder(Kept(v.tree[key], v.filter), v.tree[key], v.filter);
      }
    } else {
      NothingDrawn(depth + 1);
    }
  }

  // ---------------------------------------------------------------------------------------------
  // Roots
  // ---------------------------------------------------------------------------------------------

  ghost function RootSet(v: View): set<nat>
    requires v.Valid()
  {
    set i | i in v.filter && FilteredParent(v, i).None?
  }

  lemma RootsStep(v: View, init: seq<nat>, last: nat)
    requires v.Valid() && v.Indexes(init + [last])
    ensures v.Indexes(init) && last < |v.snapshots|
    ensures Roots(v, init + [last]) == if ParentInFilter(v, last) then Roots(v, init) else Roots(v, init) + [last]
  {
    hide ParentInFilter;
    assert (init + [last])[..|init|] == init && (init + [last])[|init|] == last;
  }

  lemma {:induction false} RootsPicked(v: View, order: seq<nat>, roots: set<nat>) returns (places: seq<nat>)
    requires v.Valid() && v.Indexes(order)
    requires forall i :: i in order ==> (i in roots <==> !ParentInFilter(v, i))
    ensures PickedAt(Roots(v, order), order, roots, places)
    decreases |order|
  {
    hide ParentInFilter;
    if order == [] {
      places := [];
    } else {
      var init, last := order[..|order| - 1], order[|order| - 1];
      assert order == init + [last] && last in order;
      hide Roots, PickedAt, View.Valid;
      RootsStep(v, init, last);
      places := RootsPicked(v, init, roots);
      PickedNext(Roots(v, init), init, roots, places, last);
      if last in roots {
        places := places + [|init|];
      }
    }
  }

  /** The processes drawn at depth 0 are those without a kept parent, in the order of the filter. */
  lemma RootsInOrder(v: View, order: seq<nat>)
    requires Fresh(v) && Orders(v, order)
    ensures PickedInOrder(AtDepth(DrawnRows(v, order), 0), order, RootSet(v))
  {
    TopsInOrder(v, Roots(v, order), 0);
    forall i | i in order
      ensures i in RootSet(v) <==> !ParentInFilter(v, i)
    {
      ParentTestIsRight(v, i);
    }
    var places := RootsPicked(v, order, RootSet(v));
  }

  // ---------------------------------------------------------------------------------------------
  // Every row under its parent
  // ---------------------------------------------------------------------------------------------

  ghost predicate RowsKept(v: View, rows: seq<Row>) {
    forall k :: 0 <= k < |rows| ==> rows[k].index in v.filter
  }

  /** Row a is the parent of row b, one level up, and between them only rows as deep as b or deeper. */
  ghost predicate ParentRow(v: View, rows: seq<Row>, a: int, b: int)
    requires v.Valid() && RowsKept(v, rows)
  {
    && 0 <= a < b < |rows|
    && rows[a].depth == rows[b].depth - 1 && FilteredParent(v, rows[b].index) == Some(rows[a].index)
    && forall k :: a < k < b ==> rows[k].depth >= rows[b].depth
  }

  lemma WalkAllKept(v: View, nodes: seq<nat>, depth: int)
    requires Fresh(v) && v.Indexes(nodes) && forall c :: c in nodes ==> c in v.filter
    ensures RowsKept(v, WalkAll(v, nodes, depth))
  {
    var rows := WalkAll(v, nodes, depth);
    forall k | 0 <= k < |rows|
      ensures rows[k].index in v.filter
    {
      assert rows[k] in rows;
      WalkAllMembers(v, nodes, depth, rows[k]);
    }
  }

  lemma WalkKept(v: View, i: nat, depth: int)
    requires Fresh(v) && i in v.filter
    ensures RowsKept(v, Walk(v, i, depth))
  {
    var rows := Walk(v, i, depth);
    forall k | 0 <= k < |rows|
      ensures rows[k].index in v.filter
    {
      assert rows[k] in rows;
      WalkMembers(v, i, depth, rows[k]);
    }
  }

  lemma ParentRowShifts(v: View, before: seq<Row>, rows: seq<Row>, after: seq<Row>, a: int, b: int)
    requires v.Valid() && RowsKept(v, rows) && RowsKept(v, before + rows + after) && ParentRow(v, rows, a, b)
    ensures ParentRow(v, before + rows + after, |before| + a, |before| + b)
  {
    var all := before + rows + after;
    assert forall k :: 0 <= k < |rows| ==> all[|before| + k] == rows[k];
    forall k | |before| + a < k < |before| + b
      ensures all[k].depth >= rows[b].depth
    {
      assert all[k] == rows[k - |before|];
    }
  }

  lemma {:induction false} WalkHangs(v: View, i: nat, depth: int, b: nat) returns (a: nat)
    requires Fresh(v) && i in v.filter && 0 < b < |Walk(v, i, depth)|
    ensures RowsKept(v, Walk(v, i, depth)) && ParentRow(v, Walk(v, i, depth), a, b)
    decreases Room(depth), 0
  {
    hide Ancestor, IsProcessTree, DistinctKeys, DistinctPids, FilteredParent;
    WalkKept(v, i, depth);
    var rows, branch := Walk(v, i, depth), v.Branch(i);
    var below := WalkAll(v, branch, depth + 1);
    assert rows == [Row(i, depth)] + below + [];
    hide Walk, WalkAll, View.Branch;
    WalkAllKept(v, branch, depth + 1);
    WalkAllDeeper(v, branch, depth + 1);
    if below[b - 1].depth == depth + 1 {
      a := 0;
      TopHangs(v, i, branch, depth, below, b - 1);
      assert rows[b] == below[b - 1];
      assert forall k :: 0 < k < b ==> rows[k] == below[k - 1];
    } else {
      a := WalkAllHangs(v, branch, depth + 1, b - 1);
      ParentRowShifts(v, [Row(i, depth)], below, [], a, b - 1);
      a := a + 1;
    }
  }

  /** The top of a subtree drawn below process i has i for its parent. */
  lemma TopHangs(v: View, i: nat, branch: seq<nat>, depth: int, below: seq<Row>, b: nat)
    requires Fresh(v) && i in v.filter && branch == v.Branch(i) && below == WalkAll(v, branch, depth + 1)
    requires b < |below| && below[b].depth == depth + 1
    ensures below[b].index in v.filter && FilteredParent(v, below[b].index) == Some(i)
  {
    hide WalkAll, View.Branch;
    assert below[b] in below;
    WalkAllMembers(v, branch, depth + 1, below[b]);
    BranchMembers(v, i, below[b].index);
  }

  lemma {:induction false} WalkAllHangs(v: View, nodes: seq<nat>, depth: int, b: nat) returns (a: nat)
    requires Fresh(v) && v.Indexes(nodes) && forall c :: c in nodes ==> c in v.filter
    requires b < |WalkAll(v, nodes, depth)| && WalkAll(v, nodes, depth)[b].depth > depth
    ensures RowsKept(v, WalkAll(v, nodes, depth)) && ParentRow(v, WalkAll(v, nodes, depth), a, b)
    decreases Room(depth), |nodes|
  {
    WalkAllKept(v, nodes, depth);
    var first, rest := Walk(v, nodes[0], depth), WalkAll(v, nodes[1..], depth);
    WalkKept(v, nodes[0], depth);
    WalkAllKept(v, nodes[1..], depth);
    assert WalkAll(v, nodes, depth) == [] + first + rest == first + rest + [];
    if b < |first| {
      a := WalkHangs(v, nodes[0], depth, b);
      ParentRowShifts(v, [], first, rest, a, b);
    } else {
      a := WalkAllHangs(v, nodes[1..], depth, b - |first|);
      ParentRowShifts(v, first, rest, [], a, b - |first|);
      a := a + |first|;
    }
  }

  lemma RootsKept(v: View, order: seq<nat>)
    requires Fresh(v) && Orders(v, order)
    ensures forall c :: c in Roots(v, order) ==> c in v.filter
    ensures RowsKept(v, DrawnRows(v, order))
  {
    WalkAllKept(v, Roots(v, order), 0);
  }

  /** Every row deeper than 0 has its process's kept parent drawn above it, one level up, with only that parent's own
      subtree in between. */
  lemma EveryRowUnderItsParent(v: View, order: seq<nat>, b: nat) returns (a: nat)
    requires Fresh(v) && Orders(v, order) && b < |DrawnRows(v, order)| && DrawnRows(v, order)[b].depth > 0
    ensures RowsKept(v, DrawnRows(v, order)) && ParentRow(v, DrawnRows(v, order), a, b)
  {
    RootsKept(v, order);
    a := WalkAllHangs(v, Roots(v, order), 0, b);
  }

  // ---------------------------------------------------------------------------------------------
  // Siblings
  // ---------------------------------------------------------------------------------------------

  ghost predicate Siblings(v: View, i: nat, j: nat)
    requires v.Valid() && i in v.filter && j in v.filter
  {
    FilteredParent(v, i).Some? && FilteredParent(v, i) == FilteredParent(v, j)
  }

  /** Siblings at one depth stand in index order. */
  ghost predicate SiblingsOrdered(v: View, rows: seq<Row>)
    requires v.Valid() && RowsKept(v, rows)
  {
    forall a, b :: 0 <= a < b < |rows| && rows[a].depth == rows[b].depth && Siblings(v, rows[a].index, rows[b].index) ==>
      rows[a].index < rows[b].index
  }

  ghost predicate NodesOrdered(v: View, nodes: seq<nat>)
    requires v.Valid() && forall c :: c in nodes ==> c in v.filter
  {
    forall a, b :: 0 <= a < b < |nodes| && Siblings(v, nodes[a], nodes[b]) ==> nodes[a] < nodes[b]
  }

  /** Siblings have the same processes above them. */
  lemma SameAbove(v: View, i: nat, j: nat, n: nat)
    requires v.Valid() && i in v.filter && j in v.filter && Siblings(v, i, j) && n > 0
    ensures Ancestor(v, i, n) == Ancestor(v, j, n)
  {
  }

  lemma DifferentTops(v: View, i: nat, j: nat, n: nat)
    requires v.Valid() && i in v.filter && j in v.filter && Siblings(v, i, j)
    requires Ancestor(v, i, n) != Ancestor(v, j, n)
    ensures n == 0
  {
    if n > 0 {
      SameAbove(v, i, j, n);
    }
  }

  lemma BranchOrdered(v: View, i: nat)
    requires Fresh(v) && i in v.filter
    ensures Increasing(v.Branch(i))
  {
    var key := v.snapshots[i].uniqueKey;
    if key in v.tree {
      KeptIncreasing(v.tree[key], v.filter);
    }
  }

  lemma {:induction false} WalkSiblings(v: View, i: nat, depth: int)
    requires Fresh(v) && i in v.filter
    ensures RowsKept(v, Walk(v, i, depth)) && SiblingsOrdered(v, Walk(v, i, depth))
    decreases Room(depth), 0
  {
    WalkKept(v, i, depth);
    if depth < MAX_TREE_DEPTH {
      var branch := v.Branch(i);
      BranchOrdered(v, i);
      BranchDistinct(v, i);
      WalkAllSiblings(v, branch, depth + 1);
      WalkAllDeeper(v, branch, depth + 1);
    }
  }

  lemma {:induction false} WalkAllSiblings(v: View, nodes: seq<nat>, depth: int)
    requires Fresh(v) && v.Indexes(nodes) && Distinct(nodes) && (forall c :: c in nodes ==> c in v.filter)
    requires NodesOrdered(v, nodes)
    ensures RowsKept(v, WalkAll(v, nodes, depth)) && SiblingsOrdered(v, WalkAll(v, nodes, depth))
    decreases Room(depth), |nodes|
  {
    WalkAllKept(v, nodes, depth);
    if nodes != [] {
      var first, rest := Walk(v, nodes[0], depth), WalkAll(v, nodes[1..], depth);
      WalkSiblings(v, nodes[0], depth);
      WalkAllSiblings(v, nodes[1..], depth);
      forall a, b | 0 <= a < |first| && 0 <= b < |rest| && first[a].depth == rest[b].depth
        && Siblings(v, first[a].index, rest[b].index)
        ensures first[a].index < rest[b].index
      {
        AcrossSubtrees(v, nodes, depth, first[a], rest[b]);
      }
    }
  }

  /** Siblings of one depth in two different subtrees are the tops of these subtrees. */
  lemma AcrossSubtrees(v: View, nodes: seq<nat>, depth: int, x: Row, y: Row)
    requires Fresh(v) && v.Indexes(nodes) && Distinct(nodes) && (forall c :: c in nodes ==> c in v.filter)
    requires nodes != [] && NodesOrdered(v, nodes) && x.depth == y.depth
    requires x in Walk(v, nodes[0], depth) && y in WalkAll(v, nodes[1..], depth)
    requires x.index in v.filter && y.index in v.filter && Siblings(v, x.index, y.index)
    ensures x.index < y.index
  {
    hide Walk, WalkAll, IsProcessTree, DistinctKeys, DistinctPids, Ancestor, FilteredParent;
    WalkMembers(v, nodes[0], depth, x);
    WalkAllMembers(v, nodes[1..], depth, y);
    var n := x.depth - depth;
    var rest := nodes[1..];
    var top := Ancestor(v, y.index, n).value;
    var k :| 0 <= k < |rest| && rest[k] == top;
    assert top == nodes[k + 1] != nodes[0];
    DifferentTops(v, x.index, y.index, n);
    NoSteps(v, x.index);
    NoSteps(v, y.index);
  }

  lemma NoSteps(v: View, i: nat)
    requires v.Valid() && i in v.filter
    ensures Ancestor(v, i, 0) == Some(i)
  {
  }

  /** Two rows whose processes have the same kept parent are drawn in index order. */
  lemma SiblingsInOrder(v: View, order: seq<nat>, a: nat, b: nat)
    requires Fresh(v) && Orders(v, order) && a < b < |DrawnRows(v, order)|
    requires
      var rows := DrawnRows(v, order);
      rows[a].index in v.filter && rows[b].index in v.filter && Siblings(v, rows[a].index, rows[b].index)
    ensures DrawnRows(v, order)[a].index < DrawnRows(v, order)[b].index
  {
    var rows, roots := DrawnRows(v, order), Roots(v, order);
    RootsKept(v, order);
    RootsDistinct(v, order);
    forall k | 0 <= k < |roots|
      ensures FilteredParent(v, roots[k]).None?
    {
      RootsAreRoots(v, order, roots[k]);
    }
    WalkAllSiblings(v, roots, 0);
    assert rows[a] in rows && rows[b] in rows;
    DrawnExactly(v, order, rows[a]);
    DrawnExactly(v, order, rows[b]);
    SiblingsAtOneDepth(v, rows[a], rows[b]);
  }

  lemma SiblingsAtOneDepth(v: View, x: Row, y: Row)
    requires v.Valid() && RootAbove(v, x.index, x.depth) && RootAbove(v, y.index, y.depth)
    requires Siblings(v, x.index, y.index)
    ensures x.depth == y.depth
  {
    var p := FilteredParent(v, x.index).value;
    assert x.depth > 0 && y.depth > 0;
    assert RootAbove(v, p, x.depth - 1) && RootAbove(v, p, y.depth - 1);
    RootDepthIsUnique(v, p, x.depth - 1, y.depth - 1);
  }
}
