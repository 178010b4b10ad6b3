/** Where windows come to be in a layout's columns: a new window of a scroll
    layout (`src/model/layout_tree.rs`), and columns that are put in order
    (`src/actor/layout.rs`). */
module LayoutPlaces {
  import opened Options
  import opened Windows
  import opened LayoutForest
  import opened LayoutTrees
  import opened LayoutMoves
  import opened LayoutVisibility
  import opened LayoutSync
  import opened LayoutColumns
  import opened LayoutGoals

  // The selected node.

  /** From the root down over selected children, to a node that is selected itself
      or selects none. */
  ghost predicate WaySelected(t: Tree, path: seq<NodeId>)
  {
    var last := |path| - 1;
    path != [] && path[0] == t.root && (forall i :: 0 <= i <= last ==> path[i] in Ids(t.nodes)) &&
    (forall i :: 0 <= i < last ==> path[i] in t.selection && !t.selection[path[i]].stopHere && path[i + 1] == t.selection[path[i]].child) &&
    (path[last] in t.selection ==> t.selection[path[last]].stopHere)
  }

  lemma {:induction false} SelectionDown(t: Tree, from: NodeId) returns (path: seq<NodeId>)
    requires Formed(t) && from in Ids(t.nodes)
    ensures path != [] && path[0] == from && path[|path| - 1] == SelectionUnder(t, from)
    ensures WaySelected(t.(root := from), path)
    decreases CountOf(Find(t.nodes, from))
  {
    match LocalSelection(t.selection, from)
    case None => path := [from];
    case Some(child) =>
      TopsInside(Find(t.nodes, from).children);
      Bigger(t.nodes, from, child);
      var rest := SelectionDown(t, child);
      path := [from] + rest;
      assert forall i :: 0 < i < |path| ==> path[i] == rest[i - 1];
  }

  lemma {:induction false} ColumnOnWay(t: Tree, path: seq<NodeId>, i: nat)
    requires Formed(t) && WaySelected(t, path) && 1 <= i < |path|
    ensures ColumnOf(t, path[i]) == Some(path[1]) && path[i] != t.root && Parent(t, path[i]) == path[i - 1]
    decreases i
  {
    var j := TopAt(Find(t.nodes, path[i - 1]).children, path[i]);
    ChildParent(t, path[i - 1], j, path[i]);
    Upward(t, path[i]);
    if i > 1 {
      ColumnOnWay(t, path, i - 1);
    }
  }

  // Where a new window goes.

  lemma {:induction false} BesideTop(ts: seq<Node>, j: nat, x: Node)
    requires Distinct(ts) && j < |ts|
    ensures ts[j].id in Ids(ts) && Beside(ts, ts[j].id, x, true) == ts[..j + 1] + [x] + ts[j + 1..]
  {
    if j > 0 {
      BesideTop(ts[1..], j - 1, x);
      assert ts == [ts[0]] + ts[1..];
    }
  }

  /** The children of a node after another one was put right behind the `j`th. */
  lemma InsertedAt(t: Tree, p: NodeId, j: nat, sibling: NodeId, x: Node)
    requires Formed(t) && ChildAt(t, p, j, sibling) && DistinctIn(x) && IdsOf(x) !! Ids(t.nodes) && sibling in Ids(t.nodes)
    ensures var t', kids := Inserted(t, sibling, x), Find(t.nodes, p).children;
            p in Ids(t'.nodes) && Find(t'.nodes, p).children == kids[..j + 1] + [x] + kids[j + 1..]
  {
    var kids := Find(t.nodes, p).children;
    FindBeside(t.nodes, sibling, x, true, p);
    FindInside(t.nodes, p);
    BesideTop(kids, j, x);
  }

  /** A column with one window. */
  predicate IsColumn(n: Node, id: NodeId, w: WindowId)
  {
    n.id == id && n.kind == Vertical && n.window == None && |n.children| == 1 &&
    n.children[0].id == id + 1 && n.children[0].window == Some(w) && n.children[0].children == []
  }

  /** One more child than before, right behind the `j`th. */
  ghost predicate GrewAfter(t: Tree, t': Tree, p: NodeId, j: nat, x: Node)
  {
    p in Ids(t.nodes) && p in Ids(t'.nodes) && j < |Find(t.nodes, p).children| &&
    var kids := Find(t.nodes, p).children; Find(t'.nodes, p).children == kids[..j + 1] + [x] + kids[j + 1..]
  }

  /** A new window goes into a column of its own, at the end if no column is
      selected, or right behind the column the selected node is in; or else right
      behind the selected node. */
  lemma NewWindowPlace(t: Tree, w: WindowId, newColumn: bool, spare: NodeId)
    requires Sound(t) && Unused(t, spare)
    ensures var t' := AddScrolling(t, w, newColumn, spare);
            t'.root == t.root && t'.selection == t.selection && |t'.nodes| == 1 && t'.nodes[0].kind == t.nodes[0].kind &&
            exists path, x :: WaySelected(t, path) &&
              var n := path[|path| - 1];
              if |path| == 1 then IsColumn(x, spare, w) && t'.nodes[0].children == t.nodes[0].children + [x]
              else if newColumn then IsColumn(x, spare, w) && exists j: nat :: ChildAt(t, t.root, j, path[1]) && GrewAfter(t, t', t.root, j, x)
              else x.id == spare && x.window == Some(w) && x.children == [] && exists p, j: nat :: ChildAt(t, p, j, n) && GrewAfter(t, t', p, j, x)
  {
    UnderRoot(t, t.nodes[0].id);
    SelectionUnderInside(t, t.root);
    var path := SelectionDown(t, t.root);
    assert t.(root := t.root) == t;
    var n := path[|path| - 1];
    if |path| == 1 {
      assert IsColumn(NewColumn(w, spare), spare, w);
    } else {
      ColumnOnWay(t, path, |path| - 1);
      ColumnOnWay(t, path, 1);
      if newColumn {
        NewColumnIs(w, spare, {});
        var j := ChildPlace(t, path[1]);
        InsertedAt(t, t.root, j, path[1], NewColumn(w, spare));
        assert IsColumn(NewColumn(w, spare), spare, w);
        assert ChildAt(t, t.root, j, path[1]);
      } else {
        WindowLeafIs(spare, w, {});
        var j := ChildPlace(t, n);
        InsertedAt(t, Parent(t, n), j, n, WindowLeaf(spare, w));
        assert ChildAt(t, Parent(t, n), j, n);
      }
    }
  }

  // Columns in order.

  /** It is known where the first window of a column is. */
  predicate FirstKnown(n: Node, frames: Frames)
  {
    LeavesOf(n) != [] && LeavesOf(n)[0].1 in frames
  }

  /** Where the first window of a column is. */
  function FirstAt(n: Node, frames: Frames): real
    requires FirstKnown(n, frames)
  {
    frames[LeavesOf(n)[0].1]
  }

  /** The columns with their first window at one place, in order. */
  function ColumnsAt(columns: seq<Node>, frames: Frames, x: real): seq<Node>
  {
    if columns == [] then []
    else (if FirstKnown(columns[0], frames) && FirstAt(columns[0], frames) == x then [columns[0]] else []) +
         ColumnsAt(columns[1..], frames, x)
  }

  /** The columns go from left to right, unless it is not known where they all are. */
  predicate LeftToRight(t: Tree, frames: Frames)
    requires Rooted(t)
  {
    var columns := t.nodes[0].children;
    (forall n <- columns :: FirstKnown(n, frames)) ==>
      forall i, j :: 0 <= i < j < |columns| ==> FirstAt(columns[i], frames) <= FirstAt(columns[j], frames)
  }

  lemma {:induction false} InsertStable(n: Node, s: seq<Node>, frames: Frames, x: real)
    requires FirstKnown(n, frames) && (forall m <- s :: FirstKnown(m, frames))
    ensures ColumnsAt(InsertSorted(n, s, InOrder(frames)), frames, x) == ColumnsAt([n] + s, frames, x)
  {
    assert ([n] + s)[1..] == s;
    if s != [] && !InOrder(frames)(n, s[0]) {
      var rest := InsertSorted(n, s[1..], InOrder(frames));
      InsertStable(n, s[1..], frames, x);
      assert ([s[0]] + rest)[1..] == rest && ([n] + s[1..])[1..] == s[1..];
    }
  }

  lemma {:induction false} SortStable(s: seq<Node>, frames: Frames, x: real)
    requires forall m <- s :: FirstKnown(m, frames)
    ensures ColumnsAt(Sort(s, InOrder(frames)), frames, x) == ColumnsAt(s, frames, x)
  {
    if s != [] {
      var rest := Sort(s[1..], InOrder(frames));
      SortStable(s[1..], frames, x);
      SortSame(s[1..], frames);
      InsertStable(s[0], rest, frames, x);
      assert ([s[0]] + rest)[1..] == rest;
    }
  }

  lemma SortSame(s: seq<Node>, frames: Frames)
    requires forall m <- s :: FirstKnown(m, frames)
    ensures forall m <- Sort(s, InOrder(frames)) :: FirstKnown(m, frames)
  {
    InOrderIsOrder(frames);
    SortSorts(s, InOrder(frames));
    forall m <- Sort(s, InOrder(frames)) ensures m in s {
      assert m in multiset(Sort(s, InOrder(frames)));
    }
  }

  lemma KnownIs(n: Node, frames: Frames)
    ensures ColumnX(n, frames).Some? <==> FirstKnown(n, frames)
    ensures FirstKnown(n, frames) ==> SortKey(n, frames) == FirstAt(n, frames)
  {
  }

  /** Where it is known of all columns where their first window is, they go from
      left to right, those at one place in the order they were in; otherwise
      nothing changes. They are the same columns, and all else stays as it is. */
  lemma ColumnsGoLeftToRight(t: Tree, frames: Frames)
    requires Sound(t)
    ensures var t', columns := ByPosition(t, frames), t.nodes[0].children;
            Rooted(t') && LeftToRight(t', frames) && t' == t.(nodes := [t.nodes[0].(children := t'.nodes[0].children)]) &&
            multiset(t'.nodes[0].children) == multiset(columns) &&
            ((exists n <- columns :: !FirstKnown(n, frames)) ==> t' == t) &&
            forall x :: ColumnsAt(t'.nodes[0].children, frames, x) == ColumnsAt(columns, frames, x)
  {
    var t', columns := ByPosition(t, frames), t.nodes[0].children;
    assert t.nodes == [t.nodes[0]];
    ByPositionSound(t, frames);
    forall n ensures ColumnX(n, frames).Some? <==> FirstKnown(n, frames) {
      KnownIs(n, frames);
    }
    if AllKnown(columns, frames) {
      if |columns| > 1 {
        SortedLeftToRight(columns, frames);
        forall x ensures ColumnsAt(Sort(columns, InOrder(frames)), frames, x) == ColumnsAt(columns, frames, x) {
          SortStable(columns, frames, x);
        }
      }
    } else {
      assert exists n <- columns :: !FirstKnown(n, frames);
    }
  }

  lemma SortedLeftToRight(columns: seq<Node>, frames: Frames)
    requires forall n <- columns :: FirstKnown(n, frames)
    ensures var now := Sort(columns, InOrder(frames));
            multiset(now) == multiset(columns) && (forall n <- now :: FirstKnown(n, frames)) &&
            forall i, j :: 0 <= i < j < |now| ==> FirstAt(now[i], frames) <= FirstAt(now[j], frames)
  {
    var now := Sort(columns, InOrder(frames));
    InOrderIsOrder(frames);
    SortSorts(columns, InOrder(frames));
    SortSame(columns, frames);
    forall i, j | 0 <= i < j < |now| ensures FirstAt(now[i], frames) <= FirstAt(now[j], frames) {
      KnownIs(now[i], frames);
      KnownIs(now[j], frames);
      assert InOrder(frames)(now[i], now[j]);
    }
  }

  // What removing a window leaves.

  /** Removing a window leaves no container above it with fewer than two children:
      neither the one it was in, nor, if that goes too, the one above. */
  lemma RemovedTrims(t: Tree, id: NodeId)
    requires Sound(t) && id in Ids(t.nodes) && id != t.root && Find(t.nodes, id).children == []
    ensures Trimmed(WindowRemoved(t, id), Parent(t, id))
  {
    RemovedForms(t, id);
    CullTrims(Removed(t, id), Parent(t, id));
    CullForms(Removed(t, id), Parent(t, id));
  }

  // Where windows that are merged into a layout go.

  /** By app first, and by number within an app. */
  predicate InWindowOrder(ws: seq<WindowId>)
  {
    forall i, j :: 0 <= i < j < |ws| ==> ws[i].pid < ws[j].pid || (ws[i].pid == ws[j].pid && ws[i].idx <= ws[j].idx)
  }

  lemma {:induction false} AddsInOrder(desired: seq<WindowId>, current: seq<Leaf>)
    requires InWindowOrder(desired)
    ensures InWindowOrder(Adds(desired, current))
    decreases |desired| + |current|
  {
    if desired != [] && current != [] {
      if desired[0] == current[0].1 {
        AddsInOrder(desired[1..], current[1..]);
      } else if Earlier(desired[0], current[0].1) {
        AddsInOrder(desired[1..], current);
        FirstInOrder(desired, Adds(desired[1..], current), current);
      } else {
        AddsInOrder(desired, current[1..]);
      }
    }
  }

  lemma FirstInOrder(desired: seq<WindowId>, rest: seq<WindowId>, current: seq<Leaf>)
    requires desired != [] && InWindowOrder(desired) && InWindowOrder(rest) && rest == Adds(desired[1..], current)
    ensures InWindowOrder([desired[0]] + rest)
  {
    AddsAmong(desired[1..], current);
    forall i | 0 <= i < |rest| ensures desired[0].pid < rest[i].pid || (desired[0].pid == rest[i].pid && desired[0].idx <= rest[i].idx) {
      assert rest[i] in rest;
      var j :| 0 <= j < |desired[1..]| && desired[1..][j] == rest[i];
      assert desired[j + 1] == rest[i];
    }
  }

  lemma {:induction false} NewIsTop(ts: seq<Node>, x: Node)
    ensures x.id in Tops(ts + [x]) && forall id <- Tops(ts) :: id in Tops(ts + [x])
  {
    if ts != [] {
      NewIsTop(ts[1..], x);
      assert (ts + [x])[1..] == ts[1..] + [x];
    } else {
      assert ts + [x] == [x];
    }
  }

  /** A leaf under the root. */
  ghost predicate LeafAtRoot(t: Tree, id: NodeId)
  {
    Sound(t) && id in Ids(t.nodes) && id in Tops(t.nodes[0].children) && Find(t.nodes, id).children == []
  }

  lemma RemovalKeepsRootLeaf(t: Tree, x: NodeId, id: NodeId)
    requires Sound(t) && x in Ids(t.nodes) && x != t.root && Find(t.nodes, x).children == [] && LeafAtRoot(t, id) && x != id
    ensures Sound(WindowRemoved(t, x)) ==> LeafAtRoot(WindowRemoved(t, x), id)
  {
    RootIsFirst(t);
    RemovedForms(t, x);
    ParentInTree(t, x);
    RemovedKeepsChild(t, x, t.root, id);
    RemovedOutside(t, x, id);
    var t1, p := Removed(t, x), Parent(t, x);
    CullKeepsChild(t1, p, t.root, id);
    CullSpares(t1, p, id);
    CullForms(t1, p);
    RootIsFirst(Cull(t1, p));
  }

  lemma AddedKeepsRootLeaf(t: Tree, spare: NodeId, w: WindowId, id: NodeId)
    requires Sound(t) && spare !in Ids(t.nodes)
    ensures LeafAtRoot(Added(t, spare, w), spare)
    ensures LeafAtRoot(t, id) ==> LeafAtRoot(Added(t, spare, w), id)
  {
    AddedSound(t, spare, w);
    var kids, x, t' := t.nodes[0].children, WindowLeaf(spare, w), Added(t, spare, w);
    NewIsTop(kids, x);
    RootIsFirst(t');
    TopsInside(t'.nodes[0].children);
    FindInside(t'.nodes, t'.root);
    FindTop(kids + [x], x);
    FindDown(t'.nodes, t'.root, spare);
    if LeafAtRoot(t, id) {
      var j := TopAt(kids, id);
      RootIsFirst(t);
      FindTop(kids, kids[j]);
      FindTop(kids + [x], kids[j]);
      NotUnder(t.nodes, t.root, id);
      FindDown(t.nodes, t.root, id);
      FindDown(t'.nodes, t'.root, id);
    }
  }

  /** A leaf under the root that the merge does not go through stays there. */
  lemma {:induction false} SyncKeepsRootLeaf(t: Tree, desired: seq<WindowId>, current: seq<Leaf>, spare: NodeId, id: NodeId)
    requires Sound(t) && Current(t, current) && Unused(t, spare) && LeafAtRoot(t, id) && id !in Nodes(current)
    ensures LeafAtRoot(Sync(t, desired, current, spare), id)
    decreases |desired| + |current|
  {
    if desired != [] && current != [] && desired[0] == current[0].1 {
      SyncKeepsRootLeaf(t, desired[1..], current[1..], spare, id);
    } else if desired != [] && (current == [] || Earlier(desired[0], current[0].1)) {
      AddedSound(t, spare, desired[0]);
      AddedKeepsRootLeaf(t, spare, desired[0], id);
      SyncKeepsRootLeaf(Added(t, spare, desired[0]), desired[1..], current, spare + 1, id);
    } else if current != [] {
      CurrentAfterRemoval(t, current);
      WindowRemovedSound(t, current[0].0);
      assert current[0].0 in Nodes(current);
      RemovalKeepsRootLeaf(t, current[0].0, id);
      SyncKeepsRootLeaf(WindowRemoved(t, current[0].0), desired, current[1..], spare, id);
    }
  }

  /** Every window that is added is under the root. */
  lemma {:induction false} SyncAddsAtRoot(t: Tree, desired: seq<WindowId>, current: seq<Leaf>, spare: NodeId, i: nat)
    requires Sound(t) && Current(t, current) && Unused(t, spare) && i < |Adds(desired, current)|
    ensures LeafAtRoot(Sync(t, desired, current, spare), spare + i)
    decreases |desired| + |current|
  {
    if desired != [] && current != [] && desired[0] == current[0].1 {
      SyncAddsAtRoot(t, desired[1..], current[1..], spare, i);
    } else if desired != [] && (current == [] || Earlier(desired[0], current[0].1)) {
      AddedSound(t, spare, desired[0]);
      AddedKeepsRootLeaf(t, spare, desired[0], spare);
      if i == 0 {
        NotCurrent(t, current, spare);
        SyncKeepsRootLeaf(Added(t, spare, desired[0]), desired[1..], current, spare + 1, spare);
      } else {
        SyncAddsAtRoot(Added(t, spare, desired[0]), desired[1..], current, spare + 1, i - 1);
      }
    } else if current != [] {
      CurrentAfterRemoval(t, current);
      WindowRemovedSound(t, current[0].0);
      SyncAddsAtRoot(WindowRemoved(t, current[0].0), desired, current[1..], spare, i);
    }
  }

  lemma NotCurrent(t: Tree, current: seq<Leaf>, spare: NodeId)
    requires Current(t, current) && Unused(t, spare)
    ensures spare !in Nodes(current)
  {
    LeavesInside(t.nodes);
  }

  lemma SortedInOrder(ws: seq<WindowId>)
    ensures InWindowOrder(Sort(ws, AtMost))
  {
    OrdersAreOrders();
    SortSorts(ws, AtMost);
    var sorted := Sort(ws, AtMost);
    forall i, j | 0 <= i < j < |sorted| ensures sorted[i].pid < sorted[j].pid || (sorted[i].pid == sorted[j].pid && sorted[i].idx <= sorted[j].idx) {
      assert AtMost(sorted[i], sorted[j]);
    }
  }

  /** Of the windows some stay, and the new ones come last, in the order of
      windows, each under the root. */
  ghost predicate AddsLast(t: Tree, t': Tree, stays: seq<Leaf>, news: seq<WindowId>, spare: NodeId)
  {
    Leaves(t'.nodes) == stays + NewLeaves(news, spare) && InWindowOrder(news) && (forall leaf <- stays :: leaf in Leaves(t.nodes)) &&
    forall id: NodeId :: spare <= id < spare + |news| ==> LeafAtRoot(t', id)
  }

  /** The windows an app has more than before are added under the root, in the
      order of windows, and last of all. */
  lemma NewWindowsAtRoot(t: Tree, app: int, desired: seq<WindowId>, spare: NodeId)
    requires Sound(t) && Unused(t, spare)
    ensures exists stays: seq<Leaf>, news: seq<WindowId> :: AddsLast(t, SetWindowsForApp(t, app, desired, spare), stays, news, spare)
  {
    var current, sorted := CurrentOf(t, app), Sort(desired, AtMost);
    CurrentOfIsCurrent(t, app);
    SyncLeaves(t, sorted, current, spare);
    SortedInOrder(desired);
    AddsInOrder(sorted, current);
    var stays, news, t' := Kept(Leaves(t.nodes), Nodes(Drops(sorted, current))), Adds(sorted, current), SetWindowsForApp(t, app, desired, spare);
    KeptAmong(Leaves(t.nodes), Nodes(Drops(sorted, current)));
    forall id: NodeId | spare <= id < spare + |news| ensures LeafAtRoot(t', id) {
      SyncAddsAtRoot(t, sorted, current, spare, id - spare);
    }
    assert AddsLast(t, t', stays, news, spare);
  }

  lemma {:induction false} KeptAmong(ls: seq<Leaf>, ids: set<NodeId>)
    ensures forall leaf <- Kept(ls, ids) :: leaf in ls
  {
    if ls != [] {
      KeptAmong(ls[1..], ids);
    }
  }
}
