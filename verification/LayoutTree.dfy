/** The layout tree as the program keeps it (`src/model/layout_tree.rs`): its
    operations change it in place, step by step. Each comes to what the
    functions of the other layout modules say of it. */
module LayoutTreeState {
  import opened Options
  import opened Reals
  import opened Windows
  import opened LayoutForest
  import opened LayoutTrees
  import opened LayoutMoves
  import opened LayoutSync
  import opened LayoutColumns
  import opened LayoutVisibility
  import opened SizeShares

  class LayoutTree {
    var nodes: seq<Node>
    var root: NodeId
    var selection: Selection
    var locks: Locks
    /** The nodes that are shown on all of the screen. */
    var fullscreen: set<NodeId>
    /** The next node's id. */
    var spare: NodeId

    function Now(): Tree
      reads this
    {
      Tree(nodes, root, selection)
    }

    ghost predicate Valid()
      reads this
    {
      Sound(Now()) && Unused(Now(), spare)
    }

    constructor (kind: ContainerKind)
      ensures Valid() && Leaves(nodes) == [] && locks == map[] && fullscreen == {}
    {
      RootFacts(Node(0, kind, None, []), {0});
      nodes := [Node(0, kind, None, [])];
      root, selection, locks, fullscreen, spare := 0, map[], map[], {}, 1;
    }

    // Steps.

    /** Takes a leaf out of its parent and out of the forest. */
    method TakeOut(id: NodeId)
      requires id in Ids(nodes)
      modifies this`nodes, this`selection
      ensures Now() == Removed(old(Now()), id)
    {
      Deselect(id);
      nodes := Without(nodes, id);
      selection := selection - {id};
    }

    /** Selects a neighbour before a node leaves its parent. */
    method Deselect(id: NodeId)
      requires id in Ids(nodes)
      modifies this`selection
      ensures selection == Unselected(old(Now()), id)
    {
      var parent := Parent(Now(), id);
      if parent in selection && selection[parent].child == id {
        var neighbour := NextTo(nodes, id, true);
        if neighbour.None? {
          neighbour := NextTo(nodes, id, false);
        }
        if neighbour.Some? {
          selection := selection[parent := selection[parent].(child := neighbour.value)];
        } else {
          selection := selection - {parent};
        }
      }
    }

    /** Detaches a node and attaches it next to `target`. */
    method Reattach(id: NodeId, target: NodeId, behind: bool)
      requires id in Ids(nodes) && target in Ids(nodes) && target in Ids(Without(nodes, id))
      modifies this`nodes, this`selection
      ensures Now() == Placed(old(Now()), id, target, behind)
    {
      var x := Find(nodes, id);
      if Parent(Now(), id) != Parent(Now(), target) {
        Deselect(id);
      }
      nodes := Beside(Without(nodes, id), target, x, behind);
    }

    /** Culls a container that has lost a child, if need be. */
    method RemovedChild(parent: NodeId)
      requires Formed(Now()) && parent in Ids(nodes)
      modifies this`nodes, this`selection
      ensures Now() == Cull(old(Now()), parent)
      decreases Count(nodes), |Find(nodes, parent).children|
    {
      if parent == root {
        return;
      }
      var kids := Find(nodes, parent).children;
      if kids == [] {
        RemovedForms(Now(), parent);
        var above := Parent(Now(), parent);
        TakeOut(parent);
        RemovedChild(above);
      } else if |kids| == 1 {
        PromotedForms(Now(), parent);
        Reattach(kids[0].id, parent, true);
        RemovedChild(parent);
      }
    }

    /** Moves a node next to `target`, and culls what it leaves. */
    method InsertBeside(id: NodeId, target: NodeId, behind: bool)
      requires Formed(Now()) && Movable(Now(), id, target)
      modifies this`nodes, this`selection
      ensures Now() == Transfer(old(Now()), id, target, behind)
    {
      Detachable(Now(), id, target);
      PlacedForms(Now(), id, target, behind);
      PlacedCounts(Now(), id, target, behind);
      ParentInTree(Now(), id);
      var oldParent, newParent := Parent(Now(), id), Parent(Now(), target);
      Reattach(id, target, behind);
      if oldParent != newParent {
        RemovedChild(oldParent);
      }
    }

    /** Removes a window's node, and culls what it leaves. */
    method RemoveWindow(id: NodeId)
      requires Formed(Now()) && id in Ids(nodes) && id != root && Find(nodes, id).children == []
      modifies this`nodes, this`selection
      ensures Now() == WindowRemoved(old(Now()), id)
    {
      RemovedForms(Now(), id);
      var parent := Parent(Now(), id);
      TakeOut(id);
      RemovedChild(parent);
    }

    // Moving.

    method FindBelow(sibling: NodeId, o: Orientation) returns (target: NodeId)
      requires Formed(Now()) && sibling in Ids(nodes)
      ensures target == Descend(nodes, selection, sibling, o)
    {
      var node := sibling;
      while true
        invariant node in Ids(nodes) && Descend(nodes, selection, node, o) == Descend(nodes, selection, sibling, o)
        decreases CountOf(Find(nodes, node))
      {
        NextDownIsChild(nodes, selection, node);
        var next := NextDown(nodes, selection, node);
        if next.None? {
          return node;
        }
        if Find(nodes, node).kind.Orientation() == o {
          return next.value;
        }
        node := next.value;
      }
    }

    method FindAbove(start: NodeId, o: Orientation) returns (target: Option<NodeId>)
      requires Formed(Now()) && start in Ids(nodes)
      ensures target == Climb(Now(), start, o)
    {
      var node := start;
      while node != root
        invariant node in Ids(nodes) && Climb(Now(), node, o) == Climb(Now(), start, o)
        decreases Count(nodes) - CountOf(Find(nodes, node))
      {
        Upward(Now(), node);
        if Find(nodes, Parent(Now(), node)).kind.Orientation() == o {
          return Some(node);
        }
        node := Parent(Now(), node);
      }
      return None;
    }

    /** Selects each node from `id` up to `stop` in its parent. */
    method SelectOnTheWay(id: NodeId, stop: NodeId)
      requires Formed(Now()) && id in Ids(nodes)
      modifies this`selection
      ensures selection == SelectUp(old(Now()), id, stop)
    {
      var node := id;
      while node != stop && node != root
        invariant Formed(Now()) && node in Ids(nodes) && SelectUp(Now(), node, stop) == SelectUp(old(Now()), id, stop)
        decreases Count(nodes) - CountOf(Find(nodes, node))
      {
        Upward(Now(), node);
        ParentInTree(Now(), node);
        var parent := Parent(Now(), node);
        selection := selection[parent := Selected(node, false)];
        node := parent;
      }
    }

    method MoveNodeInner(id: NodeId, dir: Direction) returns (moved: bool)
      requires Formed(Now()) && Unused(Now(), spare) && id in Ids(nodes) && id != root
      modifies this`nodes, this`selection, this`root, this`spare
      ensures spare == old(spare) + 1
      ensures moved <==> MoveInner(old(Now()), id, dir, old(spare)).Some?
      ensures Now() == if moved then MoveInner(old(Now()), id, dir, old(spare)).value else old(Now())
    {
      ghost var before := Now();
      var top := spare;
      spare := spare + 1;
      var destination: Destination;
      var sibling := MoveOver(Now(), id, dir);
      if sibling.Some? {
        SiblingInTree(Now(), id, dir.Forward());
        var target := FindBelow(sibling.value, dir.Orientation());
        destination := if target == sibling.value then Ahead(target) else Behind(target);
        GoalMovable(Now(), id, dir);
      } else {
        ParentInTree(Now(), id);
        var target := FindAbove(Parent(Now(), id), dir.Orientation());
        if target.Some? {
          destination := Ahead(target.value);
          GoalMovable(Now(), id, dir);
        } else {
          if nodes[0].kind.Orientation() == dir.Orientation() {
            return false;
          }
          NestedForms(Now(), top, KindFor(dir.Orientation()));
          RootOutside(Now(), id);
          UnderRoot(Now(), id);
          destination := Ahead(root);
          NestRoot(top, KindFor(dir.Orientation()));
        }
      }
      InsertBeside(id, destination.target, if destination.Ahead? then dir.Forward() else !dir.Forward());
      return true;
    }

    /** Makes a new root around the tree. */
    method NestRoot(top: NodeId, kind: ContainerKind)
      modifies this`nodes, this`selection, this`root
      ensures Now() == Nested(old(Now()), top, kind)
    {
      selection := selection[top := Selected(root, false)];
      nodes := [Node(top, kind, None, nodes)];
      root := top;
    }

    /** Moves a node; says whether it could. */
    method MoveNode(id: NodeId, dir: Direction) returns (moved: bool)
      requires Valid() && id in Ids(nodes)
      modifies this`nodes, this`selection, this`root, this`spare
      ensures Valid()
      ensures moved <==> Move(old(Now()), id, dir, old(spare)).Some?
      ensures Now() == if moved then Move(old(Now()), id, dir, old(spare)).value else old(Now())
      ensures moved ==> OnlyMoves(old(Now()), Now(), id)
    {
      if id == root {
        return false;
      }
      ghost var before, top := Now(), spare;
      MoveKeeps(before, id, dir, top);
      var oldParent := Parent(Now(), id);
      var isSelection := LocalSelection(selection, oldParent) == Some(id);
      moved := MoveNodeInner(id, dir);
      MoveUses(before, id, dir, top);
      if moved && isSelection {
        MoveInnerForms(before, id, dir, top);
        SelectOnTheWay(id, oldParent);
      }
    }

    // Windows.

    /** Adds a window as the last child of the root. */
    method AddWindow(w: WindowId)
      requires Rooted(Now())
      modifies this`nodes, this`spare
      ensures Now() == Added(old(Now()), old(spare), w) && spare == old(spare) + 1
    {
      nodes := [nodes[0].(children := nodes[0].children + [WindowLeaf(spare, w)])];
      spare := spare + 1;
    }

    /** One step of the merge: a window in both lists, in the first only, or in the second only. */
    method MergeStep(wanted: seq<WindowId>, present: seq<Leaf>) returns (wanted': seq<WindowId>, present': seq<Leaf>)
      requires Valid() && Current(Now(), present) && (wanted != [] || present != [])
      modifies this`nodes, this`selection, this`spare
      ensures Valid() && Current(Now(), present') && |wanted'| + |present'| < |wanted| + |present|
      ensures Sync(Now(), wanted', present', spare) == Sync(old(Now()), wanted, present, old(spare))
    {
      if wanted != [] && present != [] && wanted[0] == present[0].1 {
        return wanted[1..], present[1..];
      }
      if wanted != [] && (present == [] || Earlier(wanted[0], present[0].1)) {
        AddedSound(Now(), spare, wanted[0]);
        AddWindow(wanted[0]);
        return wanted[1..], present;
      }
      CurrentAfterRemoval(Now(), present);
      WindowRemovedSound(Now(), present[0].0);
      RemoveWindow(present[0].0);
      return wanted, present[1..];
    }

    /** Makes an app's windows exactly the desired ones. Ids may be skipped. */
    method SetWindows(app: int, desired: seq<WindowId>)
      requires Valid()
      modifies this`nodes, this`selection, this`spare
      ensures Valid()
      ensures Now() == SetWindowsForApp(old(Now()), app, desired, old(spare))
      ensures spare == old(spare) + |desired|
    {
      CurrentOfIsCurrent(Now(), app);
      SetWindowsUnused(Now(), app, desired, spare);
      var last := spare + |desired|;
      var wanted := Sort(desired, AtMost);
      var present := CurrentOf(Now(), app);
      ghost var after := SetWindowsForApp(Now(), app, desired, spare);
      while wanted != [] || present != []
        invariant Valid() && Current(Now(), present)
        invariant Sync(Now(), wanted, present, spare) == after
        decreases |wanted| + |present|
      {
        wanted, present := MergeStep(wanted, present);
      }
      spare := last;
    }

    /** Detaches the columns and reattaches them in the given order. */
    method SetColumns(sorted: seq<Node>)
      requires Rooted(Now()) && Distinct(nodes[0].children) && Distinct(sorted)
      requires multiset(sorted) == multiset(nodes[0].children)
      modifies this`nodes
      ensures Now() == WithColumns(old(Now()), sorted)
    {
      var now := ReorderColumns(nodes[0].children, sorted);
      nodes := [nodes[0].(children := now)];
    }

    /** Puts the columns in order, if the frames of all their first windows are known. */
    method ReorderByPosition(frames: Frames)
      requires Valid()
      modifies this`nodes
      ensures Valid() && Now() == ByPosition(old(Now()), frames)
    {
      ByPositionUses(Now(), frames, spare);
      SameColumns(Now());
      var columns := nodes[0].children;
      if |columns| <= 1 || !AllKnown(columns, frames) {
        return;
      }
      var sorted := Sort(columns, InOrder(frames));
      if sorted == columns {
        return;
      }
      SortedColumns(nodes[0], frames);
      SetColumns(sorted);
    }

    /** Adds a window to a scroll layout. */
    method AddToScroll(w: WindowId, newColumn: bool)
      requires Valid()
      modifies this`nodes, this`spare
      ensures Valid() && spare == old(spare) + 2
      ensures Now() == AddScrolling(old(Now()), w, newColumn, old(spare))
    {
      AddScrollingSound(Now(), w, newColumn, spare);
      var sibling := ScrollPlace(Now(), newColumn);
      var x := if sibling.None? || newColumn then NewColumn(w, spare) else WindowLeaf(spare, w);
      if sibling.Some? {
        nodes := Beside(nodes, sibling.value, x, true);
      } else {
        nodes := [nodes[0].(children := nodes[0].children + [x])];
      }
      spare := spare + 2;
    }

    // Selecting.

    /** Selects a node on every level above it, and lists the windows this is to raise. */
    method SelectReturningSurfaced(id: NodeId) returns (windows: seq<WindowId>, listed: seq<Node>)
      requires Valid() && id in Ids(nodes)
      modifies this`selection
      ensures Valid() && Now() == Selecting(old(Now()), id)
      ensures windows == WindowsAt(listed) && EachOnce(listed)
      ensures forall n <- Ids(nodes) :: n in IdsAt(listed) <==> Returned(old(Now()), id, n)
      ensures forall n <- listed :: n.id in Ids(nodes) && Find(nodes, n.id) == n
    {
      ghost var before := Now();
      SelectingForms(before, id);
      var node, highest := id, id;
      while node != root
        invariant Formed(Now()) && node in Ids(nodes) && highest in Ids(nodes)
        invariant SelectUp(Now(), node, root) == SelectUp(before, id, root)
        invariant Highest(Now(), node, highest) == Highest(before, id, id)
        decreases Count(nodes) - CountOf(Find(nodes, node))
      {
        Upward(Now(), node);
        ParentInTree(Now(), node);
        var parent := Parent(Now(), node);
        var changed := !(parent in selection && selection[parent].child == node);
        HighestOnly(Now(), node, parent, if changed && Find(nodes, parent).kind.IsGroup() then node else highest);
        if changed && Find(nodes, parent).kind.IsGroup() {
          highest := node;
        }
        selection := selection[parent := Selected(node, false)];
        node := parent;
      }
      FindInside(nodes, highest);
      var top := Find(nodes, highest);
      windows, listed := VisibleWindowsUnder(top, selection);
      forall n <- Ids(nodes) ensures n in IdsAt(listed) <==> Returned(before, id, n) {
        BothWays(Now(), n, highest);
      }
      forall n <- listed ensures n.id in Ids(nodes) && Find(nodes, n.id) == n {
        FoundWithin(nodes, top.id, n);
      }
    }

    // Size shares.

    method FindEstate(id: NodeId) returns (estate: NodeId)
      requires Formed(Now()) && id in Ids(nodes)
      ensures estate == EstateNode(Now(), id)
    {
      var node := id;
      estate := id;
      while node != root
        invariant node in Ids(nodes) && EstateFrom(Now(), node, estate) == EstateNode(Now(), id)
        decreases Count(nodes) - CountOf(Find(nodes, node))
      {
        Upward(Now(), node);
        if Find(nodes, node).kind.IsGroup() {
          estate := node;
        }
        node := Parent(Now(), node);
      }
      if Find(nodes, node).kind.IsGroup() {
        estate := node;
      }
    }

    /** Clears the locks of some windows, one by one. */
    method ClearLocks(leaves: seq<Leaf>) returns (cleared: bool)
      modifies this`locks
      ensures locks == old(locks) - WindowsAmong(leaves)
      ensures cleared <==> WindowsAmong(leaves) * old(locks).Keys != {}
    {
      cleared := false;
      for i := 0 to |leaves|
        invariant locks == old(locks) - WindowsAmong(leaves[..i])
        invariant cleared <==> WindowsAmong(leaves[..i]) * old(locks).Keys != {}
      {
        var w := leaves[i].1;
        OneMoreWindow(leaves, i);
        assert w in old(locks) && w !in locks ==> w in WindowsAmong(leaves[..i]) * old(locks).Keys;
        assert w in locks ==> w in WindowsAmong(leaves[..i + 1]) * old(locks).Keys;
        assert WindowsAmong(leaves[..i + 1]) * old(locks).Keys <= WindowsAmong(leaves[..i]) * old(locks).Keys + {w};
        cleared := cleared || w in locks;
        locks := locks - {w};
      }
      assert leaves[..|leaves|] == leaves;
    }

    /** Clears the locks of a node's estate. */
    method ClearEstateLock(id: NodeId) returns (cleared: bool)
      requires Formed(Now()) && id in Ids(nodes)
      modifies this`locks
      ensures locks == old(locks) - WindowsAmong(EstateLeaves(Now(), id))
      ensures cleared <==> WindowsAmong(EstateLeaves(Now(), id)) * old(locks).Keys != {}
    {
      var estate := FindEstate(id);
      EstateFound(Now(), id);
      cleared := ClearLocks(LeavesOf(Find(nodes, estate)));
    }

    /** Takes the fullscreen flag from a node and the nodes above it. */
    method ClearFullscreenFor(id: NodeId)
      requires Formed(Now()) && id in Ids(nodes)
      modifies this`fullscreen
      ensures fullscreen == old(fullscreen) - OnTheWayUp(Now(), id)
    {
      var node := id;
      fullscreen := fullscreen - {node};
      while node != root
        invariant node in Ids(nodes)
        invariant fullscreen - OnTheWayUp(Now(), node) == old(fullscreen) - OnTheWayUp(Now(), id) && node !in fullscreen
        decreases Count(nodes) - CountOf(Find(nodes, node))
      {
        Upward(Now(), node);
        node := Parent(Now(), node);
        fullscreen := fullscreen - {node};
      }
    }

    /** Applies, releases or refuses a size share. A fullscreen window could not
        show one, so applying it ends that. */
    method SetSizeShare(wid: WindowId, id: NodeId, share: real, overflow: Overflow) returns (feedback: Feedback)
      requires Valid() && id in Ids(nodes)
      modifies this`locks, this`fullscreen
      ensures (locks, feedback) == SetShare(Now(), old(locks), wid, id, share, overflow)
      ensures fullscreen == if feedback.outcome == Applied then old(fullscreen) - OnTheWayUp(Now(), id) else old(fullscreen)
    {
      var current := EstateLock(Now(), locks, id);
      if current.Some? && Abs(current.value - share) < CLOSE_ENOUGH {
        var _ := ClearEstateLock(id);
        return Feedback(wid, current.value, Released);
      }
      var total := LockedShareTotal(Now(), locks);
      if total - OrZero(current) + share > 1.0 + TOLERANCE && overflow == Reject {
        return Feedback(wid, share, Rejected);
      }
      var _ := ClearEstateLock(id);
      ClearFullscreenFor(id);
      locks := locks[wid := share];
      return Feedback(wid, share, Applied);
    }
  }

  /** A node and the nodes above it. */
  function OnTheWayUp(t: Tree, id: NodeId): set<NodeId>
    requires Formed(t) && id in Ids(t.nodes)
    decreases Count(t.nodes) - CountOf(Find(t.nodes, id))
  {
    if id == t.root then {id}
    else
      Upward(t, id);
      {id} + OnTheWayUp(t, Parent(t, id))
  }

  /** These are the nodes it is under, and itself. */
  lemma {:induction false} WayUpIsPath(t: Tree, id: NodeId, a: NodeId)
    requires Formed(t) && id in Ids(t.nodes)
    ensures a in OnTheWayUp(t, id) <==> OnPath(t, id, a)
    decreases Count(t.nodes) - CountOf(Find(t.nodes, id))
  {
    OnOwnPath(t, id);
    if id == t.root {
      if OnPath(t, id, a) && a != id {
        RootOutside(t, a);
      }
    } else {
      Upward(t, id);
      WayUpIsPath(t, Parent(t, id), a);
      if a in Ids(t.nodes) && a != id {
        UnderTop(t, id, a);
        if OnPath(t, id, a) {
          StepWithin(t, id, a);
        }
      } else if a == id {
        ParentInTree(t, id);
      }
    }
  }

  lemma MoveUses(t: Tree, id: NodeId, dir: Direction, spare: NodeId)
    requires Formed(t) && Unused(t, spare) && id in Ids(t.nodes) && id != t.root
    ensures Unused(t, spare + 1)
    ensures MoveInner(t, id, dir, spare).Some? ==> Unused(MoveInner(t, id, dir, spare).value, spare + 1)
  {
    if Goal(t, id, dir).Some? {
      GoalMovable(t, id, dir);
      GoUses(t, id, Goal(t, id, dir).value, dir);
    } else if MoveInner(t, id, dir, spare).Some? {
      NestedForms(t, spare, KindFor(dir.Orientation()));
      RootOutside(t, id);
      UnderRoot(t, id);
      GoUses(Nested(t, spare, KindFor(dir.Orientation())), id, Ahead(t.root), dir);
    }
  }

  lemma GoUses(t: Tree, id: NodeId, goal: Destination, dir: Direction)
    requires Formed(t) && Movable(t, id, goal.target)
    ensures Ids(Go(t, id, goal, dir).nodes) <= Ids(t.nodes)
  {
    TransferForms(t, id, goal.target, if goal.Ahead? then dir.Forward() else !dir.Forward());
  }

  lemma SortedColumns(n: Node, frames: Frames)
    requires Distinct(n.children)
    ensures Distinct(Sort(n.children, InOrder(frames)))
    ensures multiset(Sort(n.children, InOrder(frames))) == multiset(n.children)
  {
    SortRearranged(n.children, InOrder(frames));
    assert IsOrder(InOrder(frames));
    SortSorts(n.children, InOrder(frames));
  }

  /** Selecting a node in its parent does not change what is found above. */
  lemma {:induction false} HighestSame(t: Tree, s: Selection, a: NodeId, best: NodeId)
    requires Formed(t) && Formed(t.(selection := s)) && a in Ids(t.nodes)
    requires forall p <- Ids(t.nodes) | a in Ids(Find(t.nodes, p).children) :: (p in s <==> p in t.selection) && (p in s ==> s[p] == t.selection[p])
    ensures Highest(t.(selection := s), a, best) == Highest(t, a, best)
    decreases Count(t.nodes) - CountOf(Find(t.nodes, a))
  {
    if a != t.root {
      Upward(t, a);
      ParentInTree(t, a);
      var p := Parent(t, a);
      forall q <- Ids(t.nodes) | p in Ids(Find(t.nodes, q).children) ensures a in Ids(Find(t.nodes, q).children) {
        UnderTop(t, a, q);
      }
      HighestSame(t, s, p, if Changes(t, a) && Find(t.nodes, p).kind.IsGroup() then a else best);
    }
  }

  lemma HighestOnly(t: Tree, id: NodeId, p: NodeId, best: NodeId)
    requires Formed(t) && id in Ids(t.nodes) && id != t.root && p == Parent(t, id)
    ensures p in Ids(t.nodes) && Formed(t.(selection := t.selection[p := Selected(id, false)]))
    ensures Highest(t.(selection := t.selection[p := Selected(id, false)]), p, best) == Highest(t, p, best)
  {
    ParentInTree(t, id);
    forall q <- Ids(t.nodes) | p in Ids(Find(t.nodes, q).children) ensures q != p {
      FindInside(t.nodes, q);
    }
    HighestSame(t, t.selection[p := Selected(id, false)], p, best);
  }

  lemma FoundWithin(ts: seq<Node>, top: NodeId, n: Node)
    requires Distinct(ts) && top in Ids(ts) && n.id in Ids([Find(ts, top)]) && Find([Find(ts, top)], n.id) == n
    ensures n.id in Ids(ts) && Find(ts, n.id) == n
  {
    assert [Find(ts, top)][1..] == [];
    if n.id != top {
      FindDown(ts, top, n.id);
    }
  }

  lemma SameColumns(t: Tree)
    requires Sound(t)
    ensures Distinct(t.nodes[0].children) && WithColumns(t, t.nodes[0].children) == t
  {
    assert t.nodes == [t.nodes[0]];
  }

  lemma OneMoreWindow(leaves: seq<Leaf>, i: nat)
    requires i < |leaves|
    ensures WindowsAmong(leaves[..i + 1]) == WindowsAmong(leaves[..i]) + {leaves[i].1}
  {
    assert leaves[..i + 1] == leaves[..i] + [leaves[i]];
  }

  lemma ByPositionUses(t: Tree, frames: Frames, spare: NodeId)
    requires Sound(t) && Unused(t, spare)
    ensures Sound(ByPosition(t, frames)) && Unused(ByPosition(t, frames), spare)
  {
    ByPositionSound(t, frames);
  }
}
