/** Columns, the children of a layout's root: bringing them into the order of
    their windows on screen (`src/actor/layout.rs`, `reorder_columns_by_position`;
    `src/model/layout_tree.rs`, `reorder_columns`), and adding windows to a
    scroll layout (`add_window_to_scroll_column_with_visible`). */
module LayoutColumns {
  import opened Options
  import opened Windows
  import opened LayoutForest
  import opened LayoutTrees
  import opened LayoutMoves
  import opened LayoutSync
  import opened LayoutVisibility

  // Forests that differ in the order of their topmost nodes.

  ghost predicate Rearranged(a: seq<Node>, b: seq<Node>)
  {
    Ids(a) == Ids(b) && Tops(a) == Tops(b) && (Distinct(a) <==> Distinct(b)) &&
    multiset(Leaves(a)) == multiset(Leaves(b)) && (a == [] <==> b == []) &&
    (Distinct(a) ==> forall id <- Ids(a) :: Find(a, id) == Find(b, id))
  }

  lemma ConsRearranged(n: Node, a: seq<Node>, b: seq<Node>)
    requires Rearranged(a, b)
    ensures Rearranged([n] + a, [n] + b)
  {
    ConsFacts(n, a);
    ConsFacts(n, b);
    if Distinct([n] + a) {
      forall id <- Ids([n] + a) ensures Find([n] + a, id) == Find([n] + b, id) {
        FindCons(n, a, id);
        FindCons(n, b, id);
      }
    }
  }

  lemma SwapLeaves(a: seq<Leaf>, b: seq<Leaf>, c: seq<Leaf>)
    ensures multiset(a + (b + c)) == multiset(b + (a + c))
  {
    assert multiset(a + (b + c)) == multiset(a) + multiset(b + c);
    assert multiset(b + (a + c)) == multiset(b) + multiset(a + c);
  }

  lemma SwapFind(m: Node, n: Node, ts: seq<Node>, id: NodeId)
    requires id in Ids([m] + ([n] + ts)) && id in Ids([n] + ([m] + ts))
    requires IdsOf(m) !! IdsOf(n)
    ensures Find([m] + ([n] + ts), id) == Find([n] + ([m] + ts), id)
  {
    FindCons(m, [n] + ts, id);
    FindCons(n, [m] + ts, id);
    if id in Ids([n] + ts) {
      FindCons(n, ts, id);
    }
    if id in Ids([m] + ts) {
      FindCons(m, ts, id);
    }
  }

  lemma SwapIds(m: Node, n: Node, ts: seq<Node>)
    ensures var a, b := [m] + ([n] + ts), [n] + ([m] + ts);
            Ids(a) == Ids(b) && Tops(a) == Tops(b) && (Distinct(a) <==> Distinct(b)) &&
            (Distinct(a) ==> IdsOf(m) !! IdsOf(n)) && multiset(Leaves(a)) == multiset(Leaves(b))
  {
    ConsFacts(n, ts);
    ConsFacts(m, ts);
    ConsFacts(m, [n] + ts);
    ConsFacts(n, [m] + ts);
    SwapLeaves(LeavesOf(m), LeavesOf(n), Leaves(ts));
  }

  lemma SwapRearranged(m: Node, n: Node, ts: seq<Node>)
    ensures Rearranged([m] + ([n] + ts), [n] + ([m] + ts))
  {
    var a, b := [m] + ([n] + ts), [n] + ([m] + ts);
    SwapIds(m, n, ts);
    if Distinct(a) {
      forall id <- Ids(a) ensures Find(a, id) == Find(b, id) {
        SwapFind(m, n, ts, id);
      }
    }
  }

  lemma RearrangedTwice(a: seq<Node>, b: seq<Node>, c: seq<Node>)
    requires Rearranged(a, b) && Rearranged(b, c)
    ensures Rearranged(a, c)
  {
  }

  lemma {:induction false} InsertRearranged(x: Node, s: seq<Node>, le: (Node, Node) -> bool)
    ensures Rearranged([x] + s, InsertSorted(x, s, le))
  {
    if s != [] && !le(x, s[0]) {
      var rest := s[1..];
      InsertRearranged(x, rest, le);
      ConsRearranged(s[0], [x] + rest, InsertSorted(x, rest, le));
      SwapRearranged(x, s[0], rest);
      assert s == [s[0]] + rest;
      RearrangedTwice([x] + s, [s[0]] + ([x] + rest), InsertSorted(x, s, le));
    }
  }

  lemma {:induction false} SortRearranged(s: seq<Node>, le: (Node, Node) -> bool)
    ensures Rearranged(s, Sort(s, le))
  {
    if s != [] {
      SortRearranged(s[1..], le);
      ConsRearranged(s[0], s[1..], Sort(s[1..], le));
      InsertRearranged(s[0], Sort(s[1..], le), le);
      assert s == [s[0]] + s[1..];
      RearrangedTwice(s, [s[0]] + Sort(s[1..], le), Sort(s, le));
    }
  }

  lemma {:induction false} ProperEach(ts: seq<Node>, holes: set<NodeId>)
    ensures Proper(ts, holes) <==> forall n <- ts :: Proper([n], holes)
  {
    if ts != [] {
      ProperEach(ts[1..], holes);
      assert ts == [ts[0]] + ts[1..];
      assert [ts[0]][1..] == [];
    }
  }

  // The order on screen.

  type Frames = map<WindowId, real>

  /** Where a column's first window is, if that is known. */
  function ColumnX(n: Node, frames: Frames): Option<real>
  {
    if LeavesOf(n) == [] || LeavesOf(n)[0].1 !in frames then None else Some(frames[LeavesOf(n)[0].1])
  }

  function SortKey(n: Node, frames: Frames): real
  {
    if ColumnX(n, frames).Some? then ColumnX(n, frames).value else 0.0
  }

  predicate AllKnown(ts: seq<Node>, frames: Frames)
  {
    forall n <- ts :: ColumnX(n, frames).Some?
  }

  function InOrder(frames: Frames): (Node, Node) -> bool
  {
    (a: Node, b: Node) => SortKey(a, frames) <= SortKey(b, frames)
  }

  /** The layout with its columns in the order of their first windows, if all of those are known. */
  function ByPosition(t: Tree, frames: Frames): Tree
    requires Rooted(t)
  {
    var columns := t.nodes[0].children;
    if |columns| <= 1 || !AllKnown(columns, frames) then t
    else WithColumns(t, Sort(columns, InOrder(frames)))
  }

  /** The layout with other columns under its root. */
  function WithColumns(t: Tree, columns: seq<Node>): Tree
    requires Rooted(t)
  {
    t.(nodes := [t.nodes[0].(children := columns)])
  }

  lemma WithColumnsPoints(t: Tree, columns: seq<Node>, p: NodeId)
    requires Formed(t) && Rearranged(t.nodes[0].children, columns) && p in t.selection
    ensures var t' := WithColumns(t, columns);
            p in Ids(t'.nodes) && t'.selection[p].child in Tops(Find(t'.nodes, p).children)
  {
    var root, t' := t.nodes[0], WithColumns(t, columns);
    assert t.nodes[1..] == [] && t'.nodes[1..] == [];
    if p != t.root {
      assert Find(t.nodes, p) == Find(root.children, p);
      assert Find(t'.nodes, p) == Find(columns, p);
    }
  }

  lemma WithColumnsFormed(t: Tree, columns: seq<Node>)
    requires Formed(t) && Rearranged(t.nodes[0].children, columns)
    ensures Formed(WithColumns(t, columns))
  {
    var t' := WithColumns(t, columns);
    assert t.nodes == [t.nodes[0]];
    RootFacts(t.nodes[0], {});
    RootFacts(t'.nodes[0], {});
    forall p <- t'.selection ensures p in Ids(t'.nodes) && t'.selection[p].child in Tops(Find(t'.nodes, p).children) {
      WithColumnsPoints(t, columns, p);
    }
  }

  lemma WithColumnsSound(t: Tree, columns: seq<Node>)
    requires Sound(t) && Rearranged(t.nodes[0].children, columns)
    requires Proper(columns, {t.root})
    ensures Sound(WithColumns(t, columns)) && Ids(WithColumns(t, columns).nodes) == Ids(t.nodes)
    ensures multiset(Leaves(WithColumns(t, columns).nodes)) == multiset(Leaves(t.nodes))
  {
    var root, t' := t.nodes[0], WithColumns(t, columns);
    WithColumnsFormed(t, columns);
    assert t.nodes == [root];
    RootFacts(root, {t.root});
    RootFacts(t'.nodes[0], {t.root});
    assert LeavesOf(root) == Leaves(root.children) && LeavesOf(t'.nodes[0]) == Leaves(columns);
  }

  lemma SortProper(columns: seq<Node>, le: (Node, Node) -> bool, holes: set<NodeId>)
    requires IsOrder(le) && Proper(columns, holes)
    ensures Proper(Sort(columns, le), holes)
  {
    var now := Sort(columns, le);
    SortSorts(columns, le);
    ProperEach(columns, holes);
    ProperEach(now, holes);
    forall n <- now ensures Proper([n], holes) {
      assert n in multiset(now);
    }
  }

  lemma InOrderIsOrder(frames: Frames)
    ensures IsOrder(InOrder(frames))
  {
  }

  lemma SortedColumnsSound(t: Tree, frames: Frames)
    requires Sound(t)
    ensures var t' := WithColumns(t, Sort(t.nodes[0].children, InOrder(frames)));
            Sound(t') && Ids(t'.nodes) == Ids(t.nodes) && multiset(Leaves(t'.nodes)) == multiset(Leaves(t.nodes))
  {
    var columns, le := t.nodes[0].children, InOrder(frames);
    SortRearranged(columns, le);
    InOrderIsOrder(frames);
    assert t.nodes == [t.nodes[0]];
    RootFacts(t.nodes[0], {t.root});
    SortProper(columns, le, {t.root});
    WithColumnsSound(t, Sort(columns, le));
  }

  lemma ByPositionSound(t: Tree, frames: Frames)
    requires Sound(t)
    ensures Sound(ByPosition(t, frames)) && Ids(ByPosition(t, frames).nodes) == Ids(t.nodes)
    ensures multiset(Leaves(ByPosition(t, frames).nodes)) == multiset(Leaves(t.nodes))
  {
    SortedColumnsSound(t, frames);
  }

  /** Afterwards the known columns go from left to right, and they are the same columns. */
  lemma ColumnsInOrder(t: Tree, frames: Frames)
    requires Sound(t) && AllKnown(t.nodes[0].children, frames)
    ensures var now := ByPosition(t, frames).nodes[0].children;
            multiset(now) == multiset(t.nodes[0].children) &&
            forall i, j :: 0 <= i < j < |now| ==> SortKey(now[i], frames) <= SortKey(now[j], frames)
  {
    var columns := t.nodes[0].children;
    assert IsOrder(InOrder(frames));
    SortSorts(columns, InOrder(frames));
  }

  // Putting the columns in order one by one.

  /** The nodes that are not among some ids. */
  function Rest(ts: seq<Node>, ids: set<NodeId>): seq<Node>
  {
    if ts == [] then [] else if ts[0].id in ids then Rest(ts[1..], ids) else [ts[0]] + Rest(ts[1..], ids)
  }

  lemma WithoutPast(n: Node, ts: seq<Node>, id: NodeId)
    requires id !in IdsOf(n)
    ensures Without([n] + ts, id) == [n] + Without(ts, id)
  {
    assert ([n] + ts)[1..] == ts;
  }

  lemma WithoutFirst(n: Node, ts: seq<Node>)
    ensures Without([n] + ts, n.id) == ts
  {
  }

  lemma {:induction false} RestWithout(ts: seq<Node>, ids: set<NodeId>, id: NodeId, more: seq<Node>)
    requires Distinct(ts) && id in Tops(ts) && id !in ids
    ensures Without(Rest(ts, ids) + more, id) == Rest(ts, ids + {id}) + more
  {
    var first, rest := ts[0], ts[1..];
    TopsInside(rest);
    if first.id == id {
      Associate([first], Rest(rest, ids), more);
      WithoutFirst(first, Rest(rest, ids) + more);
      RestSame(rest, ids, id);
    } else {
      RestWithout(rest, ids, id, more);
      if first.id !in ids {
        Associate([first], Rest(rest, ids), more);
        WithoutPast(first, Rest(rest, ids) + more, id);
        Associate([first], Rest(rest, ids + {id}), more);
      }
    }
  }

  lemma {:induction false} RestSame(ts: seq<Node>, ids: set<NodeId>, id: NodeId)
    requires id !in Tops(ts)
    ensures Rest(ts, ids) == Rest(ts, ids + {id})
  {
    if ts != [] {
      RestSame(ts[1..], ids, id);
    }
  }

  lemma {:induction false} RestAll(ts: seq<Node>, ids: set<NodeId>)
    ensures Tops(ts) <= ids ==> Rest(ts, ids) == []
    ensures ids == {} ==> Rest(ts, ids) == ts
  {
    if ts != [] {
      RestAll(ts[1..], ids);
    }
  }

  lemma {:induction false} TopsAre(ts: seq<Node>)
    ensures Tops(ts) == set n <- ts :: n.id
  {
    if ts != [] {
      TopsAre(ts[1..]);
      assert ts == [ts[0]] + ts[1..];
    }
  }

  lemma {:induction false} TopOnce(ts: seq<Node>, i: nat, j: nat)
    requires Distinct(ts) && i < j < |ts|
    ensures ts[i].id != ts[j].id
  {
    var rest := ts[1..];
    TopsAre(rest);
    TopsInside(rest);
    if i == 0 {
      assert ts[j] == rest[j - 1] && rest[j - 1] in rest;
    } else {
      TopOnce(rest, i - 1, j - 1);
    }
  }

  /** The ids of the first nodes. */
  function FirstIds(ts: seq<Node>, i: nat): set<NodeId>
    requires i <= |ts|
  {
    if i == 0 then {} else FirstIds(ts, i - 1) + {ts[i - 1].id}
  }

  lemma {:induction false} NotAmongFirst(sorted: seq<Node>, i: nat, j: nat)
    requires Distinct(sorted) && i <= j < |sorted|
    ensures sorted[j].id !in FirstIds(sorted, i)
  {
    if i > 0 {
      TopOnce(sorted, i - 1, j);
      NotAmongFirst(sorted, i - 1, j);
    }
  }

  lemma {:induction false} AmongFirst(sorted: seq<Node>, i: nat)
    requires i <= |sorted|
    ensures forall k :: 0 <= k < i ==> sorted[k].id in FirstIds(sorted, i)
  {
    if i > 0 {
      AmongFirst(sorted, i - 1);
    }
  }

  lemma OneColumn(columns: seq<Node>, sorted: seq<Node>, i: nat)
    requires Distinct(columns) && Distinct(sorted) && Tops(sorted) == Tops(columns) && i < |sorted|
    ensures Without(Rest(columns, FirstIds(sorted, i)) + sorted[..i], sorted[i].id) + [sorted[i]] ==
            Rest(columns, FirstIds(sorted, i + 1)) + (sorted[..i] + [sorted[i]])
  {
    var ids, id, first := FirstIds(sorted, i), sorted[i].id, sorted[..i];
    TopsAre(sorted);
    assert sorted[i] in sorted;
    NotAmongFirst(sorted, i, i);
    RestWithout(columns, ids, id, first);
    Associate(Rest(columns, ids + {id}), first, [sorted[i]]);
  }

  lemma SameTops(columns: seq<Node>, sorted: seq<Node>)
    requires multiset(sorted) == multiset(columns)
    ensures Tops(sorted) == Tops(columns)
  {
    TopsAre(columns);
    TopsAre(sorted);
    assert forall n :: n in sorted <==> n in multiset(sorted);
    assert forall n :: n in columns <==> n in multiset(columns);
  }

  /** Detaching every column in turn and putting it last leaves them in that order. */
  method ReorderColumns(columns: seq<Node>, sorted: seq<Node>) returns (now: seq<Node>)
    requires Distinct(columns) && Distinct(sorted) && multiset(sorted) == multiset(columns)
    ensures now == sorted
  {
    now := columns;
    RestAll(columns, {});
    SameTops(columns, sorted);
    assert FirstIds(sorted, 0) == {} && columns + sorted[..0] == columns;
    var i := 0;
    while i < |sorted|
      invariant 0 <= i <= |sorted|
      invariant now == Rest(columns, FirstIds(sorted, i)) + sorted[..i]
    {
      OneColumn(columns, sorted, i);
      assert sorted[..i + 1] == sorted[..i] + [sorted[i]];
      now := Without(now, sorted[i].id) + [sorted[i]];
      i := i + 1;
    }
    TopsAre(sorted);
    assert sorted[..i] == sorted;
    AmongFirst(sorted, i);
    assert Tops(columns) <= FirstIds(sorted, i);
    RestAll(columns, FirstIds(sorted, i));
  }

  // New windows in a scroll layout.

  /** The node that is selected, from a node down. */
  function SelectionUnder(t: Tree, id: NodeId): NodeId
    requires Formed(t) && id in Ids(t.nodes)
    decreases CountOf(Find(t.nodes, id))
  {
    match LocalSelection(t.selection, id)
    case None => id
    case Some(child) =>
      TopsInside(Find(t.nodes, id).children);
      Bigger(t.nodes, id, child);
      SelectionUnder(t, child)
  }

  lemma {:induction false} SelectionUnderInside(t: Tree, id: NodeId)
    requires Formed(t) && id in Ids(t.nodes)
    ensures SelectionUnder(t, id) in Ids(t.nodes)
    decreases CountOf(Find(t.nodes, id))
  {
    if LocalSelection(t.selection, id).Some? {
      var child := LocalSelection(t.selection, id).value;
      TopsInside(Find(t.nodes, id).children);
      Bigger(t.nodes, id, child);
      SelectionUnderInside(t, child);
    }
  }

  /** The column a node is in; none for the root. */
  function ColumnOf(t: Tree, id: NodeId): Option<NodeId>
    requires Formed(t) && id in Ids(t.nodes)
    decreases Count(t.nodes) - CountOf(Find(t.nodes, id))
  {
    if id == t.root then None
    else
      Upward(t, id);
      if Parent(t, id) == t.root then Some(id) else ColumnOf(t, Parent(t, id))
  }

  lemma {:induction false} ColumnOfIs(t: Tree, id: NodeId)
    requires Formed(t) && id in Ids(t.nodes)
    ensures ColumnOf(t, id).None? <==> id == t.root
    ensures ColumnOf(t, id).Some? ==> ColumnOf(t, id).value in Ids(t.nodes) && ColumnOf(t, id).value != t.root
    decreases Count(t.nodes) - CountOf(Find(t.nodes, id))
  {
    if id != t.root {
      Upward(t, id);
      ColumnOfIs(t, Parent(t, id));
    }
  }

  /** With a new node behind another. */
  function Inserted(t: Tree, sibling: NodeId, x: Node): Tree
    requires sibling in Ids(t.nodes)
  {
    t.(nodes := Beside(t.nodes, sibling, x, true))
  }

  /** One more window than before, somewhere. */
  ghost predicate Gains(t: Tree, t': Tree, leaf: Leaf)
  {
    multiset(Leaves(t'.nodes)) == multiset(Leaves(t.nodes)) + multiset{leaf}
  }

  lemma InsertedLeaves(t: Tree, sibling: NodeId, x: Node, leaf: Leaf)
    requires sibling in Ids(t.nodes) && LeavesOf(x) == [leaf]
    ensures Gains(t, Inserted(t, sibling, x), leaf)
  {
    BesideLeaves(t.nodes, sibling, x, true);
    LeavesSplit(t.nodes, sibling);
    OneMoreLeaf(Before(t.nodes, sibling), LeavesOf(Find(t.nodes, sibling)), leaf, After(t.nodes, sibling));
  }

  lemma OneMoreLeaf(a: seq<Leaf>, b: seq<Leaf>, leaf: Leaf, c: seq<Leaf>)
    ensures multiset(a + (b + [leaf]) + c) == multiset(a + b + c) + multiset{leaf}
  {
  }

  lemma InsertedSound(t: Tree, sibling: NodeId, x: Node)
    requires Sound(t) && sibling in Ids(t.nodes) && sibling != t.root
    requires DistinctIn(x) && IdsOf(x) !! Ids(t.nodes) && Proper([x], {t.root})
    ensures Sound(Inserted(t, sibling, x)) && Ids(Inserted(t, sibling, x).nodes) == Ids(t.nodes) + IdsOf(x)
  {
    var t' := Inserted(t, sibling, x);
    BesideIds(t.nodes, sibling, x, true);
    ProperBeside(t.nodes, {t.root}, sibling, x, true);
    assert t.nodes[1..] == [];
    forall p <- t'.selection ensures p in Ids(t'.nodes) && t'.selection[p].child in Tops(Find(t'.nodes, p).children) {
      InsertedPoints(t, sibling, x, p);
    }
  }

  lemma InsertedPoints(t: Tree, sibling: NodeId, x: Node, p: NodeId)
    requires Formed(t) && sibling in Ids(t.nodes) && DistinctIn(x) && IdsOf(x) !! Ids(t.nodes) && p in t.selection
    ensures var t' := Inserted(t, sibling, x);
            p in Ids(t'.nodes) && t'.selection[p].child in Tops(Find(t'.nodes, p).children)
  {
    FindBeside(t.nodes, sibling, x, true, p);
    FindInside(t.nodes, p);
    if sibling in Ids(Find(t.nodes, p).children) {
      TopsBeside(Find(t.nodes, p).children, sibling, x, true);
    }
  }

  function NewColumn(w: WindowId, spare: NodeId): Node
  {
    Node(spare, Vertical, None, [WindowLeaf(spare + 1, w)])
  }

  /** With a new node behind another, or at the end. */
  function Put(t: Tree, sibling: Option<NodeId>, x: Node): Tree
    requires Rooted(t) && (sibling.Some? ==> sibling.value in Ids(t.nodes))
  {
    match sibling
    case None => Appended(t, x)
    case Some(node) => Inserted(t, node, x)
  }

  lemma PutSound(t: Tree, sibling: Option<NodeId>, x: Node, leaf: Leaf, spare: NodeId)
    requires Sound(t) && Unused(t, spare) && (sibling.Some? ==> sibling.value in Ids(t.nodes) && sibling.value != t.root)
    requires DistinctIn(x) && IdsOf(x) <= {spare, spare + 1} && Proper([x], {t.root}) && LeavesOf(x) == [leaf]
    ensures Sound(Put(t, sibling, x)) && Unused(Put(t, sibling, x), spare + 2) && Gains(t, Put(t, sibling, x), leaf)
  {
    match sibling
    case None =>
      AppendedSound(t, x);
    case Some(node) =>
      InsertedSound(t, node, x);
      InsertedLeaves(t, node, x, leaf);
  }

  /** Where a new window goes: in a column of its own behind the selected one,
      or behind the selected node; at the end when no column is selected. */
  function ScrollPlace(t: Tree, newColumn: bool): (sibling: Option<NodeId>)
    requires Formed(t)
    ensures sibling.Some? ==> sibling.value in Ids(t.nodes) && sibling.value != t.root
  {
    UnderRoot(t, t.nodes[0].id);
    SelectionUnderInside(t, t.root);
    var selected := SelectionUnder(t, t.root);
    ColumnOfIs(t, selected);
    if ColumnOf(t, selected).None? || newColumn then ColumnOf(t, selected) else Some(selected)
  }

  /** Adds a window to a scroll layout. */
  function AddScrolling(t: Tree, w: WindowId, newColumn: bool, spare: NodeId): Tree
    requires Formed(t)
  {
    var sibling := ScrollPlace(t, newColumn);
    Put(t, sibling, if sibling.None? || newColumn then NewColumn(w, spare) else WindowLeaf(spare, w))
  }

  /** The leaf the window is added with. */
  function ScrollLeaf(t: Tree, w: WindowId, newColumn: bool, spare: NodeId): Leaf
    requires Formed(t)
  {
    (if ScrollPlace(t, newColumn).None? || newColumn then spare + 1 else spare, w)
  }

  lemma NewColumnIs(w: WindowId, spare: NodeId, holes: set<NodeId>)
    ensures var x := NewColumn(w, spare);
            DistinctIn(x) && IdsOf(x) == {spare, spare + 1} && Proper([x], holes) && LeavesOf(x) == [(spare + 1, w)]
  {
    var x := NewColumn(w, spare);
    WindowLeafIs(spare + 1, w, holes);
    RootFacts(WindowLeaf(spare + 1, w), {});
    assert x.children == [WindowLeaf(spare + 1, w)];
    assert [x][1..] == [];
  }

  lemma AddColumnSound(t: Tree, w: WindowId, newColumn: bool, spare: NodeId)
    requires Sound(t) && Unused(t, spare) && (ScrollPlace(t, newColumn).None? || newColumn)
    ensures var t' := Put(t, ScrollPlace(t, newColumn), NewColumn(w, spare));
            Sound(t') && Unused(t', spare + 2) && Gains(t, t', (spare + 1, w))
  {
    NewColumnIs(w, spare, {t.root});
    PutSound(t, ScrollPlace(t, newColumn), NewColumn(w, spare), (spare + 1, w), spare);
  }

  lemma AddBehindSound(t: Tree, w: WindowId, spare: NodeId)
    requires Sound(t) && Unused(t, spare)
    ensures var t' := Put(t, ScrollPlace(t, false), WindowLeaf(spare, w));
            Sound(t') && Unused(t', spare + 2) && Gains(t, t', (spare, w))
  {
    WindowLeafIs(spare, w, {t.root});
    PutSound(t, ScrollPlace(t, false), WindowLeaf(spare, w), (spare, w), spare);
  }

  lemma AddScrollingSound(t: Tree, w: WindowId, newColumn: bool, spare: NodeId)
    requires Sound(t) && Unused(t, spare)
    ensures var t' := AddScrolling(t, w, newColumn, spare);
            Sound(t') && Unused(t', spare + 2) && Gains(t, t', ScrollLeaf(t, w, newColumn, spare))
  {
    if ScrollPlace(t, newColumn).None? || newColumn {
      AddColumnSound(t, w, newColumn, spare);
    } else {
      AddBehindSound(t, w, spare);
    }
  }

  /** Adds some windows one after the other. */
  function AddAllScrolling(t: Tree, ws: seq<WindowId>, newColumn: bool, spare: NodeId): Tree
    requires Sound(t) && Unused(t, spare)
    decreases |ws|
  {
    if ws == [] then t
    else
      AddScrollingSound(t, ws[0], newColumn, spare);
      AddAllScrolling(AddScrolling(t, ws[0], newColumn, spare), ws[1..], newColumn, spare + 2)
  }
}
