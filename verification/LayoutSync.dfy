/** Making an app's windows in a layout exactly the desired ones
    (`src/model/layout_tree.rs`, `set_windows_for_app`): two sorted lists are
    merged, and the tree changes along the way. */
module LayoutSync {
  import opened Options
  import opened Windows
  import opened LayoutForest
  import opened LayoutTrees
  import opened LayoutMoves

  // The order of windows, and of windows with their nodes.

  predicate Earlier(a: WindowId, b: WindowId)
  {
    a.pid < b.pid || (a.pid == b.pid && a.idx < b.idx)
  }

  predicate AtMost(a: WindowId, b: WindowId) { a == b || Earlier(a, b) }

  predicate LeafAtMost(a: Leaf, b: Leaf)
  {
    Earlier(a.1, b.1) || (a.1 == b.1 && a.0 <= b.0)
  }

  function InsertSorted<T(==)>(x: T, s: seq<T>, le: (T, T) -> bool): seq<T>
  {
    if s == [] then [x] else if le(x, s[0]) then [x] + s else [s[0]] + InsertSorted(x, s[1..], le)
  }

  function Sort<T(==)>(s: seq<T>, le: (T, T) -> bool): seq<T>
  {
    if s == [] then [] else InsertSorted(s[0], Sort(s[1..], le), le)
  }

  predicate IsSorted<T>(s: seq<T>, le: (T, T) -> bool)
  {
    forall i, j :: 0 <= i < j < |s| ==> le(s[i], s[j])
  }

  ghost predicate IsOrder<T(!new)>(le: (T, T) -> bool)
  {
    (forall a, b :: le(a, b) || le(b, a)) && (forall a, b, c :: le(a, b) && le(b, c) ==> le(a, c))
  }

  lemma {:induction false} InsertKeeps<T>(x: T, s: seq<T>, le: (T, T) -> bool)
    ensures multiset(InsertSorted(x, s, le)) == multiset(s) + multiset{x}
  {
    if s != [] {
      assert s == [s[0]] + s[1..];
      InsertKeeps(x, s[1..], le);
    }
  }

  lemma SortedCons<T>(x: T, s: seq<T>, le: (T, T) -> bool)
    requires IsSorted(s, le) && forall y <- s :: le(x, y)
    ensures IsSorted([x] + s, le)
  {
  }

  lemma {:induction false} InsertSorts<T(!new)>(x: T, s: seq<T>, le: (T, T) -> bool)
    requires IsOrder(le) && IsSorted(s, le)
    ensures IsSorted(InsertSorted(x, s, le), le)
  {
    if s != [] {
      if le(x, s[0]) {
        SortedCons(x, s, le);
      } else {
        var rest := InsertSorted(x, s[1..], le);
        InsertSorts(x, s[1..], le);
        InsertKeeps(x, s[1..], le);
        forall y <- rest ensures le(s[0], y) {
          assert y in multiset(rest);
        }
        SortedCons(s[0], rest, le);
      }
    }
  }

  lemma {:induction false} SortSorts<T(!new)>(s: seq<T>, le: (T, T) -> bool)
    requires IsOrder(le)
    ensures IsSorted(Sort(s, le), le) && multiset(Sort(s, le)) == multiset(s)
  {
    if s != [] {
      SortSorts(s[1..], le);
      InsertSorts(s[0], Sort(s[1..], le), le);
      InsertKeeps(s[0], Sort(s[1..], le), le);
      assert s == [s[0]] + s[1..];
    }
  }

  lemma OrdersAreOrders()
    ensures IsOrder(AtMost) && IsOrder(LeafAtMost)
  {
  }

  // What the merge decides.

  function WindowsIn(ls: seq<Leaf>): seq<WindowId>
  {
    if ls == [] then [] else [ls[0].1] + WindowsIn(ls[1..])
  }

  /** The desired windows that are added. */
  function Adds(desired: seq<WindowId>, current: seq<Leaf>): seq<WindowId>
    decreases |desired| + |current|
  {
    if desired == [] then []
    else if current == [] then desired
    else if desired[0] == current[0].1 then Adds(desired[1..], current[1..])
    else if Earlier(desired[0], current[0].1) then [desired[0]] + Adds(desired[1..], current)
    else Adds(desired, current[1..])
  }

  /** The current leaves that are removed. */
  function Drops(desired: seq<WindowId>, current: seq<Leaf>): seq<Leaf>
    decreases |desired| + |current|
  {
    if current == [] then []
    else if desired == [] then current
    else if desired[0] == current[0].1 then Drops(desired[1..], current[1..])
    else if Earlier(desired[0], current[0].1) then Drops(desired[1..], current)
    else [current[0]] + Drops(desired, current[1..])
  }

  lemma {:induction false} AddsAmong(desired: seq<WindowId>, current: seq<Leaf>)
    ensures forall w <- Adds(desired, current) :: w in desired
    decreases |desired| + |current|
  {
    if desired != [] && current != [] {
      if desired[0] == current[0].1 {
        AddsAmong(desired[1..], current[1..]);
      } else if Earlier(desired[0], current[0].1) {
        AddsAmong(desired[1..], current);
      } else {
        AddsAmong(desired, current[1..]);
      }
    }
  }

  lemma {:induction false} DropsAmong(desired: seq<WindowId>, current: seq<Leaf>)
    ensures forall leaf <- Drops(desired, current) :: leaf in current
    decreases |desired| + |current|
  {
    if desired != [] && current != [] {
      if desired[0] == current[0].1 {
        DropsAmong(desired[1..], current[1..]);
      } else if Earlier(desired[0], current[0].1) {
        DropsAmong(desired[1..], current);
      } else {
        DropsAmong(desired, current[1..]);
      }
    }
  }

  function Times(ws: seq<WindowId>, w: WindowId): nat
  {
    multiset(ws)[w]
  }

  lemma TimesFirst(ws: seq<WindowId>, w: WindowId)
    requires ws != []
    ensures Times(ws, w) == (if ws[0] == w then 1 else 0) + Times(ws[1..], w)
  {
    assert ws == [ws[0]] + ws[1..];
  }

  /** What is added and what is kept is what is desired. */
  lemma {:induction false} MergeBalance(desired: seq<WindowId>, current: seq<Leaf>, w: WindowId)
    ensures Times(WindowsIn(current), w) + Times(Adds(desired, current), w) ==
            Times(desired, w) + Times(WindowsIn(Drops(desired, current)), w)
    decreases |desired| + |current|
  {
    if desired != [] && current != [] {
      TimesFirst(desired, w);
      TimesFirst(WindowsIn(current), w);
      if desired[0] == current[0].1 {
        MergeBalance(desired[1..], current[1..], w);
      } else if Earlier(desired[0], current[0].1) {
        MergeBalance(desired[1..], current, w);
        TimesFirst(Adds(desired, current), w);
      } else {
        MergeBalance(desired, current[1..], w);
        TimesFirst(WindowsIn(Drops(desired, current)), w);
      }
    }
  }

  lemma {:induction false} WindowsInThese(ls: seq<Leaf>, w: WindowId)
    ensures w in WindowsIn(ls) <==> exists leaf <- ls :: leaf.1 == w
  {
    if ls != [] {
      WindowsInThese(ls[1..], w);
      assert ls == [ls[0]] + ls[1..];
    }
  }

  /** No window is both added and removed, so as many nodes as possible stay. */
  lemma {:induction false} MergeKeepsMost(desired: seq<WindowId>, current: seq<Leaf>, w: WindowId)
    requires IsSorted(desired, AtMost) && IsSorted(current, LeafAtMost)
    ensures !(w in Adds(desired, current) && w in WindowsIn(Drops(desired, current)))
    decreases |desired| + |current|
  {
    if desired != [] && current != [] {
      if desired[0] == current[0].1 {
        MergeKeepsMost(desired[1..], current[1..], w);
      } else if Earlier(desired[0], current[0].1) {
        MergeKeepsMost(desired[1..], current, w);
        DropsAmong(desired[1..], current);
        WindowsInThese(Drops(desired[1..], current), w);
      } else {
        MergeKeepsMost(desired, current[1..], w);
        AddsAmong(desired, current[1..]);
      }
    }
  }

  // The changes to the tree.

  /** With a new node as the last child of the root. */
  function Appended(t: Tree, x: Node): Tree
    requires Rooted(t)
  {
    var root := t.nodes[0];
    t.(nodes := [root.(children := root.children + [x])])
  }

  lemma AppendedPoints(t: Tree, x: Node, p: NodeId)
    requires Formed(t) && DistinctIn(x) && IdsOf(x) !! Ids(t.nodes) && p in t.selection
    ensures var t' := Appended(t, x);
            p in Ids(t'.nodes) && t'.selection[p].child in Tops(Find(t'.nodes, p).children)
  {
    var root, t' := t.nodes[0], Appended(t, x);
    assert t.nodes[1..] == [] && t'.nodes[1..] == [];
    AppendIds(root.children, x);
    if p != t.root {
      assert Find(t.nodes, p) == Find(root.children, p);
      AppendFind(root.children, x, p);
    }
  }

  lemma AppendedSound(t: Tree, x: Node)
    requires Sound(t) && DistinctIn(x) && IdsOf(x) !! Ids(t.nodes) && Proper([x], {t.root})
    ensures Sound(Appended(t, x)) && Ids(Appended(t, x).nodes) == Ids(t.nodes) + IdsOf(x)
    ensures Leaves(Appended(t, x).nodes) == Leaves(t.nodes) + LeavesOf(x)
  {
    var root, t' := t.nodes[0], Appended(t, x);
    assert t.nodes == [root];
    RootFacts(root, {t.root});
    RootFacts(t'.nodes[0], {t.root});
    AppendIds(root.children, x);
    AppendLeaves(root.children, x);
    AppendProper(root.children, x, {t.root});
    assert LeavesOf(root) == Leaves(root.children) && LeavesOf(t'.nodes[0]) == Leaves(root.children + [x]);
    forall p <- t'.selection ensures p in Ids(t'.nodes) && t'.selection[p].child in Tops(Find(t'.nodes, p).children) {
      AppendedPoints(t, x, p);
    }
  }

  /** A leaf for a window. */
  function WindowLeaf(id: NodeId, w: WindowId): Node
  {
    Node(id, Horizontal, Some(w), [])
  }

  lemma WindowLeafIs(id: NodeId, w: WindowId, holes: set<NodeId>)
    ensures DistinctIn(WindowLeaf(id, w)) && IdsOf(WindowLeaf(id, w)) == {id}
    ensures Proper([WindowLeaf(id, w)], holes) && LeavesOf(WindowLeaf(id, w)) == [(id, w)]
  {
    assert [WindowLeaf(id, w)][1..] == [];
  }

  /** With a new window as the last child of the root. */
  function Added(t: Tree, id: NodeId, w: WindowId): Tree
    requires Rooted(t)
  {
    Appended(t, WindowLeaf(id, w))
  }

  lemma AddedSound(t: Tree, id: NodeId, w: WindowId)
    requires Sound(t) && id !in Ids(t.nodes)
    ensures Sound(Added(t, id, w)) && Ids(Added(t, id, w).nodes) == Ids(t.nodes) + {id}
    ensures Leaves(Added(t, id, w).nodes) == Leaves(t.nodes) + [(id, w)]
  {
    WindowLeafIs(id, w, {t.root});
    AppendedSound(t, WindowLeaf(id, w));
  }

  /** Without a window, and without the containers that this leaves empty or with one child. */
  function WindowRemoved(t: Tree, id: NodeId): Tree
    requires Formed(t) && id in Ids(t.nodes) && id != t.root && Find(t.nodes, id).children == []
  {
    RemovedForms(t, id);
    Cull(Removed(t, id), Parent(t, id))
  }

  lemma WindowRemovedSound(t: Tree, id: NodeId)
    requires Sound(t) && id in Ids(t.nodes) && id != t.root && Find(t.nodes, id).children == []
    ensures Sound(WindowRemoved(t, id)) && Ids(WindowRemoved(t, id).nodes) <= Ids(t.nodes)
    ensures WindowRemoved(t, id).root == t.root
    ensures Leaves(WindowRemoved(t, id).nodes) == Before(t.nodes, id) + After(t.nodes, id)
  {
    RemovedForms(t, id);
    ProperMore(t.nodes, {t.root}, {t.root, id});
    RemovedProper(t, id);
    CullForms(Removed(t, id), Parent(t, id));
    CullKeeps(Removed(t, id), Parent(t, id));
    WithoutLeaves(t.nodes, id);
  }

  /** The leaves that are still to be compared are in the tree. */
  predicate Current(t: Tree, current: seq<Leaf>)
  {
    NoNodeTwice(current) && forall leaf <- current :: leaf in Leaves(t.nodes)
  }

  lemma CurrentLeaf(t: Tree, leaf: Leaf)
    requires Sound(t) && leaf in Leaves(t.nodes)
    ensures leaf.0 in Ids(t.nodes) && leaf.0 != t.root && Find(t.nodes, leaf.0).children == []
    ensures Leaves(t.nodes) == Before(t.nodes, leaf.0) + [leaf] + After(t.nodes, leaf.0)
  {
    LeafFound(t.nodes, leaf);
    ProperFound(t.nodes, {t.root}, leaf.0);
    LeavesSplit(t.nodes, leaf.0);
  }

  lemma CurrentAfterRemoval(t: Tree, current: seq<Leaf>)
    requires Sound(t) && Current(t, current) && current != []
    ensures var id := current[0].0;
            id in Ids(t.nodes) && id != t.root && Find(t.nodes, id).children == [] &&
            Current(WindowRemoved(t, id), current[1..])
  {
    CurrentLeaf(t, current[0]);
    var id := current[0].0;
    WindowRemovedSound(t, id);
    forall leaf <- current[1..] ensures leaf in Leaves(WindowRemoved(t, id).nodes) {
      assert leaf in current && leaf != current[0];
      assert leaf in Before(t.nodes, id) + [current[0]] + After(t.nodes, id);
    }
  }

  ghost predicate Unused(t: Tree, spare: NodeId)
  {
    forall id <- Ids(t.nodes) :: id < spare
  }

  /** The merge, with `spare` the id of the first new node. */
  function Sync(t: Tree, desired: seq<WindowId>, current: seq<Leaf>, spare: NodeId): Tree
    requires Sound(t) && Current(t, current) && Unused(t, spare)
    decreases |desired| + |current|
  {
    if desired != [] && current != [] && desired[0] == current[0].1 then
      Sync(t, desired[1..], current[1..], spare)
    else if desired != [] && (current == [] || Earlier(desired[0], current[0].1)) then
      AddedSound(t, spare, desired[0]);
      Sync(Added(t, spare, desired[0]), desired[1..], current, spare + 1)
    else if current != [] then
      CurrentAfterRemoval(t, current);
      WindowRemovedSound(t, current[0].0);
      Sync(WindowRemoved(t, current[0].0), desired, current[1..], spare)
    else t
  }

  // What the merge does to the windows.

  function Kept(ls: seq<Leaf>, ids: set<NodeId>): seq<Leaf>
  {
    if ls == [] then [] else if ls[0].0 in ids then Kept(ls[1..], ids) else [ls[0]] + Kept(ls[1..], ids)
  }

  function Nodes(ls: seq<Leaf>): set<NodeId>
  {
    set leaf <- ls :: leaf.0
  }

  /** Leaves for new windows. */
  function NewLeaves(ws: seq<WindowId>, spare: NodeId): seq<Leaf>
    decreases |ws|
  {
    if ws == [] then [] else [(spare, ws[0])] + NewLeaves(ws[1..], spare + 1)
  }

  lemma KeptOne(leaf: Leaf, b: seq<Leaf>, ids: set<NodeId>)
    ensures Kept([leaf] + b, ids) == if leaf.0 in ids then Kept(b, ids) else [leaf] + Kept(b, ids)
  {
    assert ([leaf] + b)[1..] == b;
  }

  lemma {:induction false} KeptJoined(a: seq<Leaf>, b: seq<Leaf>, ids: set<NodeId>)
    ensures Kept(a + b, ids) == Kept(a, ids) + Kept(b, ids)
  {
    if a == [] {
      assert a + b == b;
    } else {
      var first, rest := a[0], a[1..];
      KeptJoined(rest, b, ids);
      assert a == [first] + rest && a + b == [first] + (rest + b);
      KeptOne(first, rest, ids);
      KeptOne(first, rest + b, ids);
      Associate([first], Kept(rest, ids), Kept(b, ids));
    }
  }

  lemma {:induction false} KeptAll(a: seq<Leaf>, ids: set<NodeId>)
    requires forall leaf <- a :: leaf.0 !in ids
    ensures Kept(a, ids) == a
  {
    if a != [] {
      KeptAll(a[1..], ids);
    }
  }

  lemma {:induction false} KeptTwice(a: seq<Leaf>, ids: set<NodeId>, more: set<NodeId>)
    ensures Kept(Kept(a, ids), more) == Kept(a, ids + more)
  {
    if a != [] {
      KeptTwice(a[1..], ids, more);
      if a[0].0 !in ids {
        assert Kept(a, ids)[1..] == Kept(a[1..], ids);
      }
    }
  }

  lemma OthersDiffer(a: seq<Leaf>, leaf: Leaf, b: seq<Leaf>)
    requires NoNodeTwice(a + [leaf] + b)
    ensures (forall x <- a :: x.0 != leaf.0) && (forall x <- b :: x.0 != leaf.0)
  {
    var all := a + [leaf] + b;
    assert all[|a|] == leaf;
    assert forall i :: 0 <= i < |a| ==> all[i] == a[i];
    assert forall i :: 0 <= i < |b| ==> all[|a| + 1 + i] == b[i];
  }

  lemma KeptAround(a: seq<Leaf>, leaf: Leaf, b: seq<Leaf>)
    requires NoNodeTwice(a + [leaf] + b)
    ensures Kept(a + [leaf] + b, {leaf.0}) == a + b
  {
    OthersDiffer(a, leaf, b);
    KeptAll(a, {leaf.0});
    KeptAll(b, {leaf.0});
    Associate(a, [leaf], b);
    KeptJoined(a, [leaf] + b, {leaf.0});
    KeptOne(leaf, b, {leaf.0});
  }

  lemma KeptLast(a: seq<Leaf>, leaf: Leaf, b: seq<Leaf>, ids: set<NodeId>)
    requires leaf.0 !in ids
    ensures Kept(a + [leaf], ids) + b == Kept(a, ids) + ([leaf] + b)
  {
    KeptJoined(a, [leaf], ids);
    KeptOne(leaf, [], ids);
    assert [leaf] + [] == [leaf];
    Associate(Kept(a, ids), [leaf], b);
  }

  lemma RemovalKeeps(t: Tree, leaf: Leaf)
    requires Sound(t) && leaf in Leaves(t.nodes)
    ensures leaf.0 in Ids(t.nodes) && leaf.0 != t.root && Find(t.nodes, leaf.0).children == []
    ensures Leaves(WindowRemoved(t, leaf.0).nodes) == Kept(Leaves(t.nodes), {leaf.0})
  {
    CurrentLeaf(t, leaf);
    WindowRemovedSound(t, leaf.0);
    LeavesOnce(t.nodes);
    KeptAround(Before(t.nodes, leaf.0), leaf, After(t.nodes, leaf.0));
  }

  /** The merge keeps the tree sound, takes out just the leaves it drops, and puts the new ones last. */
  lemma {:induction false} SyncLeaves(t: Tree, desired: seq<WindowId>, current: seq<Leaf>, spare: NodeId)
    requires Sound(t) && Current(t, current) && Unused(t, spare)
    ensures Sound(Sync(t, desired, current, spare))
    ensures Leaves(Sync(t, desired, current, spare).nodes) ==
            Kept(Leaves(t.nodes), Nodes(Drops(desired, current))) + NewLeaves(Adds(desired, current), spare)
    decreases |desired| + |current|
  {
    if desired != [] && current != [] && desired[0] == current[0].1 {
      SyncLeaves(t, desired[1..], current[1..], spare);
    } else if desired != [] && (current == [] || Earlier(desired[0], current[0].1)) {
      SyncAdds(t, desired, current, spare);
    } else if current != [] {
      SyncDrops(t, desired, current, spare);
    } else {
      assert Nodes(Drops(desired, current)) == {};
      KeptAll(Leaves(t.nodes), {});
    }
  }

  lemma {:induction false} SyncAdds(t: Tree, desired: seq<WindowId>, current: seq<Leaf>, spare: NodeId)
    requires Sound(t) && Current(t, current) && Unused(t, spare)
    requires desired != [] && (current == [] || Earlier(desired[0], current[0].1))
    ensures Sound(Sync(t, desired, current, spare))
    ensures Leaves(Sync(t, desired, current, spare).nodes) ==
            Kept(Leaves(t.nodes), Nodes(Drops(desired, current))) + NewLeaves(Adds(desired, current), spare)
    decreases |desired| + |current|, 0
  {
    var t' := Added(t, spare, desired[0]);
    AddedSound(t, spare, desired[0]);
    SyncLeaves(t', desired[1..], current, spare + 1);
    var drops, adds := Drops(desired, current), Adds(desired, current);
    assert drops == Drops(desired[1..], current);
    assert adds == [desired[0]] + Adds(desired[1..], current);
    DropsAmong(desired, current);
    LeavesInside(t.nodes);
    KeptLast(Leaves(t.nodes), (spare, desired[0]), NewLeaves(adds[1..], spare + 1), Nodes(drops));
  }

  lemma {:induction false} SyncDrops(t: Tree, desired: seq<WindowId>, current: seq<Leaf>, spare: NodeId)
    requires Sound(t) && Current(t, current) && Unused(t, spare)
    requires current != [] && (desired == [] || (desired[0] != current[0].1 && !Earlier(desired[0], current[0].1)))
    ensures Sound(Sync(t, desired, current, spare))
    ensures Leaves(Sync(t, desired, current, spare).nodes) ==
            Kept(Leaves(t.nodes), Nodes(Drops(desired, current))) + NewLeaves(Adds(desired, current), spare)
    decreases |desired| + |current|, 0
  {
    CurrentAfterRemoval(t, current);
    WindowRemovedSound(t, current[0].0);
    SyncLeaves(WindowRemoved(t, current[0].0), desired, current[1..], spare);
    RemovalKeeps(t, current[0]);
    FirstDropped(desired, current);
    KeptTwice(Leaves(t.nodes), {current[0].0}, Nodes(Drops(desired, current[1..])));
  }

  lemma {:induction false} FirstDropped(desired: seq<WindowId>, current: seq<Leaf>)
    requires current != [] && (desired == [] || (desired[0] != current[0].1 && !Earlier(desired[0], current[0].1)))
    ensures Nodes(Drops(desired, current)) == {current[0].0} + Nodes(Drops(desired, current[1..]))
    ensures Adds(desired, current) == Adds(desired, current[1..])
  {
    var rest := Drops(desired, current[1..]);
    assert desired == [] ==> current == [current[0]] + current[1..];
    assert Drops(desired, current) == [current[0]] + rest;
  }

  // The whole operation.

  /** The leaves of one app, or of all the others. */
  function Of(ls: seq<Leaf>, app: int, its: bool): seq<Leaf>
  {
    if ls == [] then []
    else if (ls[0].1.pid == app) == its then [ls[0]] + Of(ls[1..], app, its)
    else Of(ls[1..], app, its)
  }

  lemma {:induction false} OfThese(ls: seq<Leaf>, app: int, its: bool)
    ensures forall leaf :: leaf in Of(ls, app, its) <==> leaf in ls && (leaf.1.pid == app) == its
    ensures NoNodeTwice(ls) ==> NoNodeTwice(Of(ls, app, its))
  {
    if ls != [] {
      OfThese(ls[1..], app, its);
      assert ls == [ls[0]] + ls[1..];
      assert NoNodeTwice(ls) ==> forall leaf <- ls[1..] :: leaf.0 != ls[0].0;
      NoNodeTwiceCons(ls[0], Of(ls[1..], app, its));
    }
  }

  lemma NoNodeTwiceCons(leaf: Leaf, ls: seq<Leaf>)
    ensures NoNodeTwice(ls) && (forall x <- ls :: x.0 != leaf.0) ==> NoNodeTwice([leaf] + ls)
  {
  }

  /** The app's leaves in the layout, sorted. */
  function CurrentOf(t: Tree, app: int): seq<Leaf>
  {
    Sort(Of(Leaves(t.nodes), app, true), LeafAtMost)
  }

  /** Sorting doubles no leaf and loses none. */
  lemma {:induction false} SortedOnce(s: seq<Leaf>)
    requires NoNodeTwice(s)
    ensures NoNodeTwice(Sort(s, LeafAtMost)) && forall x :: x in Sort(s, LeafAtMost) <==> x in s
  {
    if s != [] {
      SortedOnce(s[1..]);
      InsertedOnce(s[0], Sort(s[1..], LeafAtMost));
      assert s == [s[0]] + s[1..];
    }
  }

  lemma {:induction false} InsertedOnce(x: Leaf, s: seq<Leaf>)
    requires NoNodeTwice(s) && forall y <- s :: y.0 != x.0
    ensures NoNodeTwice(InsertSorted(x, s, LeafAtMost))
    ensures forall y :: y in InsertSorted(x, s, LeafAtMost) <==> y == x || y in s
  {
    if s != [] {
      assert s == [s[0]] + s[1..];
      if LeafAtMost(x, s[0]) {
        NoNodeTwiceCons(x, s);
      } else {
        InsertedOnce(x, s[1..]);
        NoNodeTwiceCons(s[0], InsertSorted(x, s[1..], LeafAtMost));
      }
    }
  }

  lemma CurrentOfIsCurrent(t: Tree, app: int)
    requires Sound(t)
    ensures Current(t, CurrentOf(t, app))
    ensures forall leaf <- CurrentOf(t, app) :: leaf.1.pid == app
  {
    LeavesOnce(t.nodes);
    OfThese(Leaves(t.nodes), app, true);
    SortedOnce(Of(Leaves(t.nodes), app, true));
  }

  function SetWindowsForApp(t: Tree, app: int, desired: seq<WindowId>, spare: NodeId): Tree
    requires Sound(t) && Unused(t, spare)
  {
    CurrentOfIsCurrent(t, app);
    Sync(t, Sort(desired, AtMost), CurrentOf(t, app), spare)
  }

  // How often a window occurs.

  function Occurs(ls: seq<Leaf>, w: WindowId): nat
  {
    Times(WindowsIn(ls), w)
  }

  lemma OccursOne(leaf: Leaf, ls: seq<Leaf>, w: WindowId)
    ensures Occurs([leaf] + ls, w) == (if leaf.1 == w then 1 else 0) + Occurs(ls, w)
  {
    assert ([leaf] + ls)[1..] == ls;
    TimesFirst(WindowsIn([leaf] + ls), w);
  }

  lemma {:induction false} OccursJoined(a: seq<Leaf>, b: seq<Leaf>, w: WindowId)
    ensures Occurs(a + b, w) == Occurs(a, w) + Occurs(b, w)
  {
    if a == [] {
      assert a + b == b;
    } else {
      var rest := a[1..];
      OccursJoined(rest, b, w);
      assert a == [a[0]] + rest;
      Associate([a[0]], rest, b);
      OccursOne(a[0], rest, w);
      OccursOne(a[0], rest + b, w);
    }
  }

  lemma {:induction false} OccursSorted(s: seq<Leaf>, w: WindowId)
    ensures Occurs(Sort(s, LeafAtMost), w) == Occurs(s, w)
  {
    if s != [] {
      OccursSorted(s[1..], w);
      OccursInserted(s[0], Sort(s[1..], LeafAtMost), w);
      assert s == [s[0]] + s[1..];
      OccursOne(s[0], s[1..], w);
    }
  }

  lemma {:induction false} OccursInserted(x: Leaf, s: seq<Leaf>, w: WindowId)
    ensures Occurs(InsertSorted(x, s, LeafAtMost), w) == (if x.1 == w then 1 else 0) + Occurs(s, w)
  {
    if s == [] || LeafAtMost(x, s[0]) {
      OccursOne(x, s, w);
      assert s == [] ==> [x] + s == [x];
    } else {
      OccursInserted(x, s[1..], w);
      assert s == [s[0]] + s[1..];
      OccursOne(s[0], s[1..], w);
      OccursOne(s[0], InsertSorted(x, s[1..], LeafAtMost), w);
    }
  }

  lemma {:induction false} OccursOf(ls: seq<Leaf>, app: int, w: WindowId)
    ensures w.pid == app ==> Occurs(Of(ls, app, true), w) == Occurs(ls, w)
  {
    if ls != [] {
      OccursOf(ls[1..], app, w);
      assert ls == [ls[0]] + ls[1..];
      OccursOne(ls[0], ls[1..], w);
      OccursOne(ls[0], Of(ls[1..], app, true), w);
    }
  }

  lemma AddingCounts(t: Tree, id: NodeId, v: WindowId, w: WindowId)
    requires Sound(t) && id !in Ids(t.nodes)
    ensures Occurs(Leaves(Added(t, id, v).nodes), w) == Occurs(Leaves(t.nodes), w) + if v == w then 1 else 0
  {
    AddedSound(t, id, v);
    OccursJoined(Leaves(t.nodes), [(id, v)], w);
    OccursOne((id, v), [], w);
    assert [(id, v)] + [] == [(id, v)];
  }

  /** Each step of the merge changes how often a window occurs as it says. */
  lemma {:induction false} SyncCounts(t: Tree, desired: seq<WindowId>, current: seq<Leaf>, spare: NodeId, w: WindowId)
    requires Sound(t) && Current(t, current) && Unused(t, spare)
    ensures Occurs(Leaves(Sync(t, desired, current, spare).nodes), w) + Occurs(Drops(desired, current), w) ==
            Occurs(Leaves(t.nodes), w) + Times(Adds(desired, current), w)
    decreases |desired| + |current|
  {
    if desired != [] && current != [] && desired[0] == current[0].1 {
      SyncCounts(t, desired[1..], current[1..], spare, w);
    } else if desired != [] && (current == [] || Earlier(desired[0], current[0].1)) {
      AddedSound(t, spare, desired[0]);
      var t' := Added(t, spare, desired[0]);
      SyncCounts(t', desired[1..], current, spare + 1, w);
      AddingCounts(t, spare, desired[0], w);
      AddsOne(desired, current, w);
    } else if current != [] {
      CurrentAfterRemoval(t, current);
      WindowRemovedSound(t, current[0].0);
      SyncCounts(WindowRemoved(t, current[0].0), desired, current[1..], spare, w);
      RemovalCounts(t, current[0], w);
      DropsOne(desired, current, w);
    }
  }

  lemma {:induction false} AddsOne(desired: seq<WindowId>, current: seq<Leaf>, w: WindowId)
    requires desired != [] && (current == [] || Earlier(desired[0], current[0].1))
    ensures Drops(desired, current) == Drops(desired[1..], current)
    ensures Times(Adds(desired, current), w) == (if desired[0] == w then 1 else 0) + Times(Adds(desired[1..], current), w)
  {
    TimesFirst(Adds(desired, current), w);
    if current == [] {
      assert Adds(desired[1..], current) == desired[1..];
    }
  }

  lemma {:induction false} DropsOne(desired: seq<WindowId>, current: seq<Leaf>, w: WindowId)
    requires current != [] && (desired == [] || (desired[0] != current[0].1 && !Earlier(desired[0], current[0].1)))
    ensures Adds(desired, current) == Adds(desired, current[1..])
    ensures Occurs(Drops(desired, current), w) == (if current[0].1 == w then 1 else 0) + Occurs(Drops(desired, current[1..]), w)
  {
    TimesFirst(WindowsIn(Drops(desired, current)), w);
    if desired == [] {
      assert Drops(desired, current[1..]) == current[1..];
    }
  }

  lemma RemovalCounts(t: Tree, leaf: Leaf, w: WindowId)
    requires Sound(t) && leaf in Leaves(t.nodes)
    ensures leaf.0 in Ids(t.nodes) && leaf.0 != t.root && Find(t.nodes, leaf.0).children == []
    ensures Occurs(Leaves(t.nodes), w) == (if leaf.1 == w then 1 else 0) + Occurs(Leaves(WindowRemoved(t, leaf.0).nodes), w)
  {
    CurrentLeaf(t, leaf);
    WindowRemovedSound(t, leaf.0);
    var a, b := Before(t.nodes, leaf.0), After(t.nodes, leaf.0);
    OccursJoined(a + [leaf], b, w);
    OccursJoined(a, [leaf], w);
    OccursJoined(a, b, w);
    OccursOne(leaf, [], w);
    assert [leaf] + [] == [leaf];
  }

  lemma {:induction false} SortTimes(ws: seq<WindowId>, w: WindowId)
    ensures Times(Sort(ws, AtMost), w) == Times(ws, w)
  {
    OrdersAreOrders();
    SortSorts(ws, AtMost);
  }

  /** Afterwards the app has exactly the desired windows, each as often as desired. */
  lemma WindowsAsDesired(t: Tree, app: int, desired: seq<WindowId>, spare: NodeId, w: WindowId)
    requires Sound(t) && Unused(t, spare) && w.pid == app
    ensures Sound(SetWindowsForApp(t, app, desired, spare))
    ensures Occurs(Leaves(SetWindowsForApp(t, app, desired, spare).nodes), w) == Times(desired, w)
  {
    var current := CurrentOf(t, app);
    CurrentOfIsCurrent(t, app);
    SyncLeaves(t, Sort(desired, AtMost), current, spare);
    SyncCounts(t, Sort(desired, AtMost), current, spare, w);
    MergeBalance(Sort(desired, AtMost), current, w);
    SortTimes(desired, w);
    OccursSorted(Of(Leaves(t.nodes), app, true), w);
    OccursOf(Leaves(t.nodes), app, w);
  }

  lemma OfOne(leaf: Leaf, ls: seq<Leaf>, app: int, its: bool)
    ensures Of([leaf] + ls, app, its) ==
            if (leaf.1.pid == app) == its then [leaf] + Of(ls, app, its) else Of(ls, app, its)
  {
    assert ([leaf] + ls)[1..] == ls;
  }

  lemma {:induction false} OfJoined(a: seq<Leaf>, b: seq<Leaf>, app: int, its: bool)
    ensures Of(a + b, app, its) == Of(a, app, its) + Of(b, app, its)
  {
    if a == [] {
      assert a + b == b;
    } else {
      var rest := a[1..];
      OfJoined(rest, b, app, its);
      assert a == [a[0]] + rest;
      Associate([a[0]], rest, b);
      OfOne(a[0], rest, app, its);
      OfOne(a[0], rest + b, app, its);
      Associate([a[0]], Of(rest, app, its), Of(b, app, its));
    }
  }

  lemma {:induction false} OfKept(ls: seq<Leaf>, ids: set<NodeId>, app: int)
    requires forall leaf <- ls :: leaf.0 in ids ==> leaf.1.pid == app
    ensures Of(Kept(ls, ids), app, false) == Of(ls, app, false)
  {
    if ls != [] {
      OfKept(ls[1..], ids, app);
      KeptOne(ls[0], ls[1..], ids);
      assert ls == [ls[0]] + ls[1..];
    }
  }

  lemma {:induction false} OfNew(ws: seq<WindowId>, spare: NodeId, app: int)
    requires forall w <- ws :: w.pid == app
    ensures Of(NewLeaves(ws, spare), app, false) == []
    decreases |ws|
  {
    if ws != [] {
      OfNew(ws[1..], spare + 1, app);
    }
  }

  /** The windows of other apps stay, in their order and at their nodes. */
  lemma OthersUntouched(t: Tree, app: int, desired: seq<WindowId>, spare: NodeId)
    requires Sound(t) && Unused(t, spare) && forall w <- desired :: w.pid == app
    ensures Of(Leaves(SetWindowsForApp(t, app, desired, spare).nodes), app, false) == Of(Leaves(t.nodes), app, false)
  {
    var current, sorted := CurrentOf(t, app), Sort(desired, AtMost);
    CurrentOfIsCurrent(t, app);
    SyncLeaves(t, sorted, current, spare);
    var ids, adds := Nodes(Drops(sorted, current)), Adds(sorted, current);
    DropsAmong(sorted, current);
    LeavesOnce(t.nodes);
    forall leaf <- Leaves(t.nodes) | leaf.0 in ids ensures leaf.1.pid == app {
      var drop :| drop in Drops(sorted, current) && drop.0 == leaf.0;
      assert drop in Leaves(t.nodes);
    }
    OfJoined(Kept(Leaves(t.nodes), ids), NewLeaves(adds, spare), app, false);
    OfKept(Leaves(t.nodes), ids, app);
    AddsAmong(sorted, current);
    OrdersAreOrders();
    SortSorts(desired, AtMost);
    forall w <- adds ensures w.pid == app {
      assert w in multiset(sorted);
    }
    OfNew(adds, spare, app);
  }

  /** Of each window as many nodes stay in place as the desired windows allow. */
  lemma MostNodesStay(t: Tree, app: int, desired: seq<WindowId>, spare: NodeId, w: WindowId)
    requires Sound(t) && Unused(t, spare) && w.pid == app
    ensures var current := CurrentOf(t, app);
            var dropped := Drops(Sort(desired, AtMost), current);
            Leaves(SetWindowsForApp(t, app, desired, spare).nodes) ==
              Kept(Leaves(t.nodes), Nodes(dropped)) + NewLeaves(Adds(Sort(desired, AtMost), current), spare) &&
            Occurs(dropped, w) ==
              (if Occurs(Leaves(t.nodes), w) > Times(desired, w) then Occurs(Leaves(t.nodes), w) - Times(desired, w) else 0)
  {
    var current, sorted := CurrentOf(t, app), Sort(desired, AtMost);
    CurrentOfIsCurrent(t, app);
    SyncLeaves(t, sorted, current, spare);
    MergeBalance(sorted, current, w);
    OrdersAreOrders();
    SortSorts(desired, AtMost);
    SortSorts(Of(Leaves(t.nodes), app, true), LeafAtMost);
    MergeKeepsMost(sorted, current, w);
    OccursSorted(Of(Leaves(t.nodes), app, true), w);
    OccursOf(Leaves(t.nodes), app, w);
  }

  /** New nodes take their ids from `spare` on. */
  lemma {:induction false} SyncUnused(t: Tree, desired: seq<WindowId>, current: seq<Leaf>, spare: NodeId)
    requires Sound(t) && Current(t, current) && Unused(t, spare)
    ensures Unused(Sync(t, desired, current, spare), spare + |desired|)
    ensures Sync(t, desired, current, spare).root == t.root
    decreases |desired| + |current|
  {
    if desired != [] && current != [] && desired[0] == current[0].1 {
      SyncUnused(t, desired[1..], current[1..], spare);
    } else if desired != [] && (current == [] || Earlier(desired[0], current[0].1)) {
      AddedSound(t, spare, desired[0]);
      SyncUnused(Added(t, spare, desired[0]), desired[1..], current, spare + 1);
    } else if current != [] {
      CurrentAfterRemoval(t, current);
      WindowRemovedSound(t, current[0].0);
      SyncUnused(WindowRemoved(t, current[0].0), desired, current[1..], spare);
    }
  }

  lemma SetWindowsUnused(t: Tree, app: int, desired: seq<WindowId>, spare: NodeId)
    requires Sound(t) && Unused(t, spare)
    ensures Sound(SetWindowsForApp(t, app, desired, spare))
    ensures Unused(SetWindowsForApp(t, app, desired, spare), spare + |desired|)
  {
    CurrentOfIsCurrent(t, app);
    var sorted := Sort(desired, AtMost);
    SyncLeaves(t, sorted, CurrentOf(t, app), spare);
    SyncUnused(t, sorted, CurrentOf(t, app), spare);
    OrdersAreOrders();
    SortSorts(desired, AtMost);
    assert |sorted| == |multiset(sorted)| == |multiset(desired)|;
  }
}
