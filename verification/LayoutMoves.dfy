/** Moving a node in a direction (`src/model/layout_tree.rs`, `move_node`). */
module LayoutMoves {
  import opened Options
  import opened LayoutForest
  import opened LayoutTrees

  datatype Direction = Left | Right | Up | Down
  {
    function Orientation(): Orientation
    {
      if Left? || Right? then Horizontally else Vertically
    }

    predicate Forward() { Right? || Down? }
  }

  /** Where a node goes, along the direction it moves in. */
  datatype Destination = Ahead(target: NodeId) | Behind(target: NodeId)

  // Moving next to a node, and culling what is left.

  function Transfer(t: Tree, id: NodeId, target: NodeId, behind: bool): Tree
    requires Formed(t) && Movable(t, id, target)
  {
    Detachable(t, id, target);
    PlacedForms(t, id, target, behind);
    PlacedCounts(t, id, target, behind);
    ParentInTree(t, id);
    if Parent(t, id) == Parent(t, target) then Placed(t, id, target, behind)
    else Cull(Placed(t, id, target, behind), Parent(t, id))
  }

  lemma TransferSound(t: Tree, id: NodeId, target: NodeId, behind: bool)
    requires Sound(t) && Movable(t, id, target)
    ensures Sound(Transfer(t, id, target, behind)) && Transfer(t, id, target, behind).root == t.root
    ensures target in Ids(Without(t.nodes, id))
    ensures Leaves(Transfer(t, id, target, behind).nodes) == Leaves(Placed(t, id, target, behind).nodes)
  {
    var p := Parent(t, id);
    Detachable(t, id, target);
    PlacedForms(t, id, target, behind);
    PlacedCounts(t, id, target, behind);
    PlacedProper(t, id, target, behind, {t.root});
    ParentInTree(t, id);
    var t' := Placed(t, id, target, behind);
    if p == Parent(t, target) {
      StaysUnderParent(t, id, target, behind, p);
      ProperFilled(t'.nodes, {t.root}, p);
    } else {
      PlacedOutside(t, id, target, behind, p);
      ProperFound(t.nodes, {t.root}, p);
      assert {t.root} + {p} == {t.root, p};
      CullKeeps(t', p);
      CullForms(t', p);
    }
  }

  /** The moved node brings along all that is under it. */
  lemma TransferIntact(t: Tree, id: NodeId, target: NodeId, behind: bool)
    requires Formed(t) && Movable(t, id, target)
    ensures var t' := Transfer(t, id, target, behind);
            id in Ids(t'.nodes) && Find(t'.nodes, id) == Find(t.nodes, id)
  {
    Detachable(t, id, target);
    PlacedForms(t, id, target, behind);
    PlacedCounts(t, id, target, behind);
    PlacedInside(t, id, target, behind, id);
    ParentInTree(t, id);
    if Parent(t, id) != Parent(t, target) {
      CullSpares(Placed(t, id, target, behind), Parent(t, id), id);
    }
  }

  // A node's place among the windows.

  lemma {:induction false} LeavesInside(ts: seq<Node>)
    ensures forall leaf <- Leaves(ts) :: leaf.0 in Ids(ts)
  {
    if ts != [] {
      LeavesInside(ts[0].children);
      LeavesInside(ts[1..]);
    }
  }

  predicate NoNodeTwice(ls: seq<Leaf>)
  {
    forall i, j :: 0 <= i < j < |ls| ==> ls[i].0 != ls[j].0
  }

  lemma NoNodeTwiceJoined(a: seq<Leaf>, b: seq<Leaf>, ids: set<NodeId>)
    requires NoNodeTwice(a) && NoNodeTwice(b)
    requires (forall x <- a :: x.0 in ids) && (forall y <- b :: y.0 !in ids)
    ensures NoNodeTwice(a + b)
  {
    forall i, j | 0 <= i < j < |a + b| ensures (a + b)[i].0 != (a + b)[j].0 {
      if i < |a| <= j {
        assert a[i] in a && b[j - |a|] in b;
      }
    }
  }

  lemma {:induction false} LeavesOnce(ts: seq<Node>)
    requires Distinct(ts)
    ensures NoNodeTwice(Leaves(ts))
  {
    if ts != [] {
      var first, rest := ts[0], ts[1..];
      LeavesOnce(first.children);
      LeavesOnce(rest);
      LeavesInside(first.children);
      LeavesInside(rest);
      NoNodeTwiceJoined(Own(first), Leaves(first.children), {first.id});
      NoNodeTwiceJoined(LeavesOf(first), Leaves(rest), IdsOf(first));
    }
  }

  /** There is a window under every node that is no hole. */
  lemma {:induction false} SomeWindow(n: Node, holes: set<NodeId>)
    requires Proper([n], holes) && IdsOf(n) !! holes
    ensures LeavesOf(n) != []
    decreases n
  {
    if n.children != [] {
      var first := n.children[0];
      assert Proper(first.children, holes);
      SomeWindow(first, holes);
      assert Leaves(n.children) == LeavesOf(first) + Leaves(n.children[1..]);
    }
  }

  lemma SameSplit(a: seq<Leaf>, b: seq<Leaf>, w: seq<Leaf>, a': seq<Leaf>, b': seq<Leaf>)
    requires NoNodeTwice(a + w + b) && a + w + b == a' + w + b' && w != []
    ensures a == a' && b == b'
  {
    var all := a + w + b;
    assert all[|a|] == w[0];
    assert (a' + w + b')[|a'|] == w[0];
    assert |a| == |a'|;
    assert a == all[..|a|] && a' == all[..|a'|];
    assert b == all[|a| + |w|..] && b' == all[|a'| + |w|..];
  }

  /** What is in front of a node that goes next to `target`, and what is behind it. */
  function InFront(t: Tree, id: NodeId, target: NodeId, behind: bool): seq<Leaf>
    requires target in Ids(Without(t.nodes, id))
  {
    var rest := Without(t.nodes, id);
    Before(rest, target) + if behind then LeavesOf(Find(rest, target)) else []
  }

  function AtBack(t: Tree, id: NodeId, target: NodeId, behind: bool): seq<Leaf>
    requires target in Ids(Without(t.nodes, id))
  {
    var rest := Without(t.nodes, id);
    (if behind then [] else LeavesOf(Find(rest, target))) + After(rest, target)
  }

  lemma PairAround(a: seq<Leaf>, n: Node, x: Node, b: seq<Leaf>, behind: bool)
    ensures a + Pair(n, x, behind) + b ==
            (a + if behind then LeavesOf(n) else []) + LeavesOf(x) + ((if behind then [] else LeavesOf(n)) + b)
    ensures a + LeavesOf(n) + b == (a + if behind then LeavesOf(n) else []) + ((if behind then [] else LeavesOf(n)) + b)
  {
  }

  /** Nothing but the moved node changes its place among the windows. */
  lemma TransferOrder(t: Tree, id: NodeId, target: NodeId, behind: bool)
    requires Sound(t) && Movable(t, id, target)
    ensures target in Ids(Without(t.nodes, id))
    ensures var t' := Transfer(t, id, target, behind);
            id in Ids(t'.nodes) &&
            Before(t'.nodes, id) == InFront(t, id, target, behind) &&
            After(t'.nodes, id) == AtBack(t, id, target, behind)
    ensures InFront(t, id, target, behind) + AtBack(t, id, target, behind) == Before(t.nodes, id) + After(t.nodes, id)
  {
    TransferSound(t, id, target, behind);
    TransferIntact(t, id, target, behind);
    var t', x, rest := Transfer(t, id, target, behind), Find(t.nodes, id), Without(t.nodes, id);
    PlacedLeaves(t, id, target, behind);
    PairAround(Before(rest, target), Find(rest, target), x, After(rest, target), behind);
    LeavesSplit(rest, target);
    WithoutLeaves(t.nodes, id);
    LeavesSplit(t'.nodes, id);
    LeavesOnce(t'.nodes);
    ProperFound(t.nodes, {t.root}, id);
    RootOutside(t, id);
    SomeWindow(x, {t.root});
    SameSplit(Before(t'.nodes, id), After(t'.nodes, id), LeavesOf(x),
              InFront(t, id, target, behind), AtBack(t, id, target, behind));
  }

  lemma RootOutside(t: Tree, id: NodeId)
    requires Rooted(t) && Distinct(t.nodes) && id in Ids(t.nodes) && id != t.root
    ensures t.root !in IdsOf(Find(t.nodes, id))
  {
    assert t.nodes[1..] == [];
    FindInside(t.nodes[0].children, id);
  }

  // Finding where to go.

  lemma {:induction false} FoundCounts(ts: seq<Node>, id: NodeId)
    requires id in Ids(ts)
    ensures CountOf(Find(ts, id)) <= Count(ts)
  {
    if ts[0].id == id {
    } else if id in Ids(ts[0].children) {
      FoundCounts(ts[0].children, id);
    } else {
      FoundCounts(ts[1..], id);
    }
  }

  /** A node is bigger than what is under it. */
  lemma Bigger(ts: seq<Node>, p: NodeId, id: NodeId)
    requires Distinct(ts) && p in Ids(ts) && id in Ids(Find(ts, p).children)
    ensures id in Ids(ts) && CountOf(Find(ts, id)) < CountOf(Find(ts, p))
  {
    FindDown(ts, p, id);
    FoundCounts(Find(ts, p).children, id);
  }

  /** The child a descent goes on to: the selected one, or else the first. */
  function NextDown(ts: seq<Node>, s: Selection, id: NodeId): Option<NodeId>
    requires id in Ids(ts)
  {
    if LocalSelection(s, id).Some? then LocalSelection(s, id)
    else if Find(ts, id).children == [] then None
    else Some(Find(ts, id).children[0].id)
  }

  lemma NextDownIsChild(ts: seq<Node>, s: Selection, id: NodeId)
    requires Distinct(ts) && Pointed(ts, s) && id in Ids(ts)
    ensures NextDown(ts, s, id).None? <==> Find(ts, id).children == []
    ensures NextDown(ts, s, id).Some? ==>
              var c := NextDown(ts, s, id).value;
              c in Ids(Find(ts, id).children) && c in Ids(ts) && CountOf(Find(ts, c)) < CountOf(Find(ts, id))
  {
    if NextDown(ts, s, id).Some? {
      TopsInside(Find(ts, id).children);
      Bigger(ts, id, NextDown(ts, s, id).value);
    }
  }

  /** Down from a node to the first one whose parent has the orientation, or to a leaf. */
  function Descend(ts: seq<Node>, s: Selection, id: NodeId, o: Orientation): NodeId
    requires Distinct(ts) && Pointed(ts, s) && id in Ids(ts)
    decreases CountOf(Find(ts, id))
  {
    NextDownIsChild(ts, s, id);
    match NextDown(ts, s, id)
    case None => id
    case Some(next) => if Find(ts, id).kind.Orientation() == o then next else Descend(ts, s, next, o)
  }

  /** A descent ends below the node it starts from, unless that is a leaf. */
  lemma {:induction false} DescendInside(ts: seq<Node>, s: Selection, id: NodeId, o: Orientation)
    requires Distinct(ts) && Pointed(ts, s) && id in Ids(ts)
    ensures Descend(ts, s, id, o) in IdsOf(Find(ts, id))
    ensures Descend(ts, s, id, o) == id <==> Find(ts, id).children == []
    decreases CountOf(Find(ts, id))
  {
    NextDownIsChild(ts, s, id);
    FindInside(ts, id);
    if NextDown(ts, s, id).Some? && Find(ts, id).kind.Orientation() != o {
      var c := NextDown(ts, s, id).value;
      DescendInside(ts, s, c, o);
      FindDown(ts, id, c);
      FindInside(Find(ts, id).children, c);
    }
  }

  /** The node on the side a node moves to, if its container runs that way. */
  function MoveOver(t: Tree, id: NodeId, dir: Direction): Option<NodeId>
    requires Formed(t) && id in Ids(t.nodes) && id != t.root
  {
    ParentInTree(t, id);
    if Find(t.nodes, Parent(t, id)).kind.Orientation() == dir.Orientation() then NextTo(t.nodes, id, dir.Forward()) else None
  }

  /** From a node up to the first one whose parent has the orientation. */
  function Climb(t: Tree, id: NodeId, o: Orientation): Option<NodeId>
    requires Formed(t) && id in Ids(t.nodes)
    decreases Count(t.nodes) - CountOf(Find(t.nodes, id))
  {
    if id == t.root then None
    else
      ParentInTree(t, id);
      Bigger(t.nodes, Parent(t, id), id);
      FoundCounts(t.nodes, Parent(t, id));
      if Find(t.nodes, Parent(t, id)).kind.Orientation() == o then Some(id) else Climb(t, Parent(t, id), o)
  }

  lemma {:induction false} ClimbAbove(t: Tree, id: NodeId, from: NodeId, o: Orientation)
    requires Formed(t) && from in Ids(t.nodes) && id in Ids(Find(t.nodes, from).children)
    requires Climb(t, from, o).Some?
    ensures var top := Climb(t, from, o).value;
            top != t.root && top in Ids(t.nodes) && id in Ids(Find(t.nodes, top).children)
    decreases Count(t.nodes) - CountOf(Find(t.nodes, from))
  {
    var p := Parent(t, from);
    ParentInTree(t, from);
    Bigger(t.nodes, p, from);
    FoundCounts(t.nodes, p);
    if Find(t.nodes, p).kind.Orientation() != o {
      FindDown(t.nodes, p, from);
      FindInside(t.nodes, p);
      FindInside(Find(t.nodes, p).children, from);
      ClimbAbove(t, id, p, o);
    }
  }

  /** Where a node goes in a tree with its root; `None` if it would need a container around the root. */
  function Goal(t: Tree, id: NodeId, dir: Direction): Option<Destination>
    requires Formed(t) && id in Ids(t.nodes) && id != t.root
  {
    match MoveOver(t, id, dir)
    case Some(sibling) =>
      Neighbours(t.nodes, id, dir.Forward(), t.root);
      var target := Descend(t.nodes, t.selection, sibling, dir.Orientation());
      Some(if target == sibling then Ahead(sibling) else Behind(target))
    case None =>
      ParentInTree(t, id);
      match Climb(t, Parent(t, id), dir.Orientation())
      case Some(target) => Some(Ahead(target))
      case None => None
  }

  lemma SiblingInTree(t: Tree, id: NodeId, behind: bool)
    requires Rooted(t) && Distinct(t.nodes) && id in Ids(t.nodes) && id != t.root && NextTo(t.nodes, id, behind).Some?
    ensures var n := NextTo(t.nodes, id, behind).value;
            Movable(t, id, n) && Parent(t, n) == Parent(t, id) && IdsOf(Find(t.nodes, n)) !! IdsOf(Find(t.nodes, id))
  {
    var n := NextTo(t.nodes, id, behind).value;
    Neighbours(t.nodes, id, behind, t.root);
    UnderRoot(t, id);
    Apart(t.nodes, id, n);
  }

  /** Two nodes neither of which is under the other have nothing in common. */
  lemma {:induction false} Apart(ts: seq<Node>, a: NodeId, b: NodeId)
    requires Distinct(ts) && a in Ids(ts) && b in Ids(ts)
    requires a !in IdsOf(Find(ts, b)) && b !in IdsOf(Find(ts, a))
    ensures IdsOf(Find(ts, a)) !! IdsOf(Find(ts, b))
  {
    var first, rest := ts[0], ts[1..];
    if a in Ids(first.children) {
      FindInside(first.children, a);
      if b in Ids(first.children) {
        Apart(first.children, a, b);
      } else if b in Ids(rest) {
        FindInside(rest, b);
      }
    } else if a in Ids(rest) {
      FindInside(rest, a);
      if b in Ids(first.children) {
        FindInside(first.children, b);
      } else if b in Ids(rest) {
        Apart(rest, a, b);
      }
    } else if b in Ids(rest) {
      FindInside(rest, b);
    }
  }

  lemma GoalMovable(t: Tree, id: NodeId, dir: Direction)
    requires Formed(t) && id in Ids(t.nodes) && id != t.root && Goal(t, id, dir).Some?
    ensures Movable(t, id, Goal(t, id, dir).value.target)
  {
    ParentInTree(t, id);
    if MoveOver(t, id, dir).Some? {
      var n := MoveOver(t, id, dir).value;
      SiblingInTree(t, id, dir.Forward());
      DescendInside(t.nodes, t.selection, n, dir.Orientation());
      FindInside(t.nodes, n);
      RootOutside(t, n);
    } else {
      ClimbAbove(t, id, Parent(t, id), dir.Orientation());
      FindDown(t.nodes, Goal(t, id, dir).value.target, id);
      NotUnder(t.nodes, Goal(t, id, dir).value.target, id);
    }
  }

  lemma NotUnder(ts: seq<Node>, above: NodeId, id: NodeId)
    requires Distinct(ts) && above in Ids(ts) && id in Ids(Find(ts, above).children)
    ensures id in Ids(ts) && above !in IdsOf(Find(ts, id))
  {
    FindDown(ts, above, id);
    FindInside(ts, above);
    FindInside(Find(ts, above).children, id);
  }

  // The move.

  /** A new root, of the given kind, around the tree. */
  function Nested(t: Tree, id: NodeId, kind: ContainerKind): Tree
  {
    Tree([Node(id, kind, None, t.nodes)], id, t.selection[id := Selected(t.root, false)])
  }

  function KindFor(o: Orientation): ContainerKind
  {
    if o == Horizontally then Horizontal else Vertical
  }

  lemma NestedForms(t: Tree, id: NodeId, kind: ContainerKind)
    requires Formed(t) && id !in Ids(t.nodes)
    ensures Formed(Nested(t, id, kind)) && Ids(Nested(t, id, kind).nodes) == Ids(t.nodes) + {id}
    ensures forall q <- Ids(t.nodes) :: Find(Nested(t, id, kind).nodes, q) == Find(t.nodes, q)
    ensures forall q <- Ids(t.nodes) - {t.root} :: Parent(Nested(t, id, kind), q) == Parent(t, q)
    ensures Parent(Nested(t, id, kind), t.root) == id
  {
    assert t.nodes == [t.nodes[0]];
    var t' := Nested(t, id, kind);
    assert t'.nodes[1..] == [] && t.nodes[1..] == [];
    assert t.root in Ids(t.nodes);
    assert forall q <- Ids(t.nodes) :: Parent(t', q) == ParentOf(t.nodes, q, id);
    assert forall q <- Ids(t.nodes) - {t.root} :: ParentOf(t.nodes, q, id) == ParentOf(t.nodes[0].children, q, t.root);
  }

  /** Makes every node on the way up to `stop` the selected child of its parent. */
  function SelectUp(t: Tree, id: NodeId, stop: NodeId): Selection
    requires Formed(t) && id in Ids(t.nodes)
    decreases Count(t.nodes) - CountOf(Find(t.nodes, id))
  {
    if id == stop || id == t.root then t.selection
    else
      ParentInTree(t, id);
      Bigger(t.nodes, Parent(t, id), id);
      FoundCounts(t.nodes, Parent(t, id));
      SelectUp(t.(selection := t.selection[Parent(t, id) := Selected(id, false)]), Parent(t, id), stop)
  }

  lemma {:induction false} SelectUpPoints(t: Tree, id: NodeId, stop: NodeId)
    requires Formed(t) && id in Ids(t.nodes)
    ensures Pointed(t.nodes, SelectUp(t, id, stop))
    decreases Count(t.nodes) - CountOf(Find(t.nodes, id))
  {
    if id != stop && id != t.root {
      ParentInTree(t, id);
      Bigger(t.nodes, Parent(t, id), id);
      FoundCounts(t.nodes, Parent(t, id));
      SelectUpPoints(t.(selection := t.selection[Parent(t, id) := Selected(id, false)]), Parent(t, id), stop);
    }
  }

  function Go(t: Tree, id: NodeId, goal: Destination, dir: Direction): Tree
    requires Formed(t) && Movable(t, id, goal.target)
  {
    Transfer(t, id, goal.target, if goal.Ahead? then dir.Forward() else !dir.Forward())
  }

  /** Moves a node, `spare` being the id for a new root if one is needed.
      `None` when the node cannot move that way. */
  function MoveInner(t: Tree, id: NodeId, dir: Direction, spare: NodeId): Option<Tree>
    requires Formed(t) && id in Ids(t.nodes) && id != t.root && spare !in Ids(t.nodes)
  {
    if Goal(t, id, dir).Some? then
      GoalMovable(t, id, dir);
      Some(Go(t, id, Goal(t, id, dir).value, dir))
    else if t.nodes[0].kind.Orientation() == dir.Orientation() then None
    else
      var t2 := Nested(t, spare, KindFor(dir.Orientation()));
      NestedForms(t, spare, KindFor(dir.Orientation()));
      RootOutside(t, id);
      UnderRoot(t, id);
      Some(Go(t2, id, Ahead(t.root), dir))
  }

  function Move(t: Tree, id: NodeId, dir: Direction, spare: NodeId): Option<Tree>
    requires Formed(t) && id in Ids(t.nodes) && spare !in Ids(t.nodes)
  {
    if id == t.root then None
    else
      var moved := MoveInner(t, id, dir, spare);
      if moved.Some? && LocalSelection(t.selection, Parent(t, id)) == Some(id) then
        MoveInnerForms(t, id, dir, spare);
        Some(moved.value.(selection := SelectUp(moved.value, id, Parent(t, id))))
      else moved
  }

  lemma MoveInnerForms(t: Tree, id: NodeId, dir: Direction, spare: NodeId)
    requires Formed(t) && id in Ids(t.nodes) && id != t.root && spare !in Ids(t.nodes)
    requires MoveInner(t, id, dir, spare).Some?
    ensures var t' := MoveInner(t, id, dir, spare).value;
            Formed(t') && id in Ids(t'.nodes) && Find(t'.nodes, id) == Find(t.nodes, id)
  {
    if Goal(t, id, dir).Some? {
      GoalMovable(t, id, dir);
      GoForms(t, id, Goal(t, id, dir).value, dir);
    } else {
      NestedForms(t, spare, KindFor(dir.Orientation()));
      RootOutside(t, id);
      UnderRoot(t, id);
      GoForms(Nested(t, spare, KindFor(dir.Orientation())), id, Ahead(t.root), dir);
    }
  }

  lemma GoForms(t: Tree, id: NodeId, goal: Destination, dir: Direction)
    requires Formed(t) && Movable(t, id, goal.target)
    ensures var t' := Go(t, id, goal, dir);
            Formed(t') && t'.root == t.root && id in Ids(t'.nodes) && Find(t'.nodes, id) == Find(t.nodes, id)
  {
    var behind := if goal.Ahead? then dir.Forward() else !dir.Forward();
    TransferForms(t, id, goal.target, behind);
    TransferIntact(t, id, goal.target, behind);
  }

  lemma TransferForms(t: Tree, id: NodeId, target: NodeId, behind: bool)
    requires Formed(t) && Movable(t, id, target)
    ensures Formed(Transfer(t, id, target, behind)) && Transfer(t, id, target, behind).root == t.root
    ensures Ids(Transfer(t, id, target, behind).nodes) <= Ids(t.nodes)
  {
    Detachable(t, id, target);
    PlacedForms(t, id, target, behind);
    PlacedCounts(t, id, target, behind);
    ParentInTree(t, id);
    if Parent(t, id) != Parent(t, target) {
      CullForms(Placed(t, id, target, behind), Parent(t, id));
    }
  }

  // What a move does.

  /** The same windows in the same order, except where one node with all that is under it went. */
  predicate OnlyMoves(t: Tree, t': Tree, id: NodeId)
  {
    id in Ids(t.nodes) && id in Ids(t'.nodes) && Find(t'.nodes, id) == Find(t.nodes, id) &&
    Before(t'.nodes, id) + After(t'.nodes, id) == Before(t.nodes, id) + After(t.nodes, id)
  }

  lemma GoKeeps(t: Tree, id: NodeId, goal: Destination, dir: Direction)
    requires Sound(t) && Movable(t, id, goal.target)
    ensures Sound(Go(t, id, goal, dir)) && OnlyMoves(t, Go(t, id, goal, dir), id)
  {
    var behind := if goal.Ahead? then dir.Forward() else !dir.Forward();
    TransferSound(t, id, goal.target, behind);
    TransferIntact(t, id, goal.target, behind);
    TransferOrder(t, id, goal.target, behind);
  }

  lemma NestedSound(t: Tree, id: NodeId, kind: ContainerKind)
    requires Sound(t) && id !in Ids(t.nodes) && t.nodes[0].children != []
    ensures Sound(Nested(t, id, kind))
  {
    NestedForms(t, id, kind);
    assert {} + {t.root} == {t.root};
    assert Find(t.nodes, t.root) == t.nodes[0];
    ProperFilled(t.nodes, {}, t.root);
    ProperMore(t.nodes, {}, {id});
    assert Nested(t, id, kind).nodes[1..] == [];
  }

  lemma NestedOrder(t: Tree, id: NodeId, kind: ContainerKind, q: NodeId)
    requires Formed(t) && id !in Ids(t.nodes) && q in Ids(t.nodes)
    ensures q in Ids(Nested(t, id, kind).nodes)
    ensures Before(Nested(t, id, kind).nodes, q) == Before(t.nodes, q)
    ensures After(Nested(t, id, kind).nodes, q) == After(t.nodes, q)
  {
    var t' := Nested(t, id, kind);
    assert t'.nodes[1..] == [] && t'.nodes[0].children == t.nodes;
  }

  /** Every move keeps the tree sound and all but the moved node in order. */
  lemma MoveKeeps(t: Tree, id: NodeId, dir: Direction, spare: NodeId)
    requires Sound(t) && id in Ids(t.nodes) && spare !in Ids(t.nodes)
    ensures Move(t, id, dir, spare).Some? ==>
              Sound(Move(t, id, dir, spare).value) && OnlyMoves(t, Move(t, id, dir, spare).value, id)
  {
    if id != t.root && MoveInner(t, id, dir, spare).Some? {
      MoveInnerKeeps(t, id, dir, spare);
      var t' := MoveInner(t, id, dir, spare).value;
      SelectUpPoints(t', id, Parent(t, id));
    }
  }

  lemma MoveInnerKeeps(t: Tree, id: NodeId, dir: Direction, spare: NodeId)
    requires Sound(t) && id in Ids(t.nodes) && id != t.root && spare !in Ids(t.nodes)
    requires MoveInner(t, id, dir, spare).Some?
    ensures var t' := MoveInner(t, id, dir, spare).value; Sound(t') && OnlyMoves(t, t', id)
  {
    if Goal(t, id, dir).Some? {
      GoalMovable(t, id, dir);
      GoKeeps(t, id, Goal(t, id, dir).value, dir);
    } else {
      var kind := KindFor(dir.Orientation());
      NestedForms(t, spare, kind);
      RootOutside(t, id);
      UnderRoot(t, id);
      NestedSound(t, spare, kind);
      NestedOrder(t, spare, kind, id);
      GoKeeps(Nested(t, spare, kind), id, Ahead(t.root), dir);
    }
  }

  lemma OnlyMovesKeepsWindows(t: Tree, t': Tree, id: NodeId)
    requires OnlyMoves(t, t', id)
    ensures multiset(Leaves(t'.nodes)) == multiset(Leaves(t.nodes))
  {
    LeavesSplit(t.nodes, id);
    LeavesSplit(t'.nodes, id);
    var w := LeavesOf(Find(t.nodes, id));
    assert multiset(Before(t.nodes, id) + w + After(t.nodes, id)) ==
           multiset(Before(t.nodes, id) + After(t.nodes, id)) + multiset(w);
    assert multiset(Before(t'.nodes, id) + w + After(t'.nodes, id)) ==
           multiset(Before(t'.nodes, id) + After(t'.nodes, id)) + multiset(w);
  }

  /** Moving loses no window and gains none. */
  lemma MoveKeepsWindows(t: Tree, id: NodeId, dir: Direction, spare: NodeId)
    requires Sound(t) && id in Ids(t.nodes) && spare !in Ids(t.nodes) && Move(t, id, dir, spare).Some?
    ensures multiset(Leaves(Move(t, id, dir, spare).value.nodes)) == multiset(Leaves(t.nodes))
  {
    MoveKeeps(t, id, dir, spare);
    OnlyMovesKeepsWindows(t, Move(t, id, dir, spare).value, id);
  }

  // Where it ends.

  lemma {:induction false} ClimbNone(t: Tree, id: NodeId, o: Orientation)
    requires Formed(t) && id in Ids(t.nodes) && Climb(t, id, o).None?
    ensures id == t.root || t.nodes[0].kind.Orientation() != o
    decreases Count(t.nodes) - CountOf(Find(t.nodes, id))
  {
    if id != t.root {
      ParentInTree(t, id);
      Bigger(t.nodes, Parent(t, id), id);
      FoundCounts(t.nodes, Parent(t, id));
      ClimbNone(t, Parent(t, id), o);
    }
  }

  /** A node cannot move exactly when it is the root, or the last on that side
      of a root that runs that way. */
  lemma MoveStops(t: Tree, id: NodeId, dir: Direction, spare: NodeId)
    requires Formed(t) && id in Ids(t.nodes) && spare !in Ids(t.nodes)
    ensures Move(t, id, dir, spare).None? <==>
            id == t.root ||
            (Parent(t, id) == t.root && t.nodes[0].kind.Orientation() == dir.Orientation() &&
             NextTo(t.nodes, id, dir.Forward()).None?)
  {
    if id != t.root {
      ParentInTree(t, id);
      if Goal(t, id, dir).None? {
        ClimbNone(t, Parent(t, id), dir.Orientation());
      }
      assert Find(t.nodes, t.root) == t.nodes[0];
    }
  }

  /** What a move leaves beyond the moved node: everything on the far side of a
      node it goes past, or that node too if the moved node goes in front of it. */
  function Beyond(t: Tree, goal: Option<Destination>, forward: bool): seq<Leaf>
    requires goal.Some? ==> goal.value.target in Ids(t.nodes)
  {
    match goal
    case None => []
    case Some(Ahead(n)) => if forward then After(t.nodes, n) else Before(t.nodes, n)
    case Some(Behind(n)) =>
      if forward then LeavesOf(Find(t.nodes, n)) + After(t.nodes, n) else Before(t.nodes, n) + LeavesOf(Find(t.nodes, n))
  }

  /** The windows on the side a node moves to. */
  function Side(t: Tree, id: NodeId, forward: bool): seq<Leaf>
    requires id in Ids(t.nodes)
  {
    if forward then After(t.nodes, id) else Before(t.nodes, id)
  }

  /** Going next to a node above the moving one. */
  lemma AheadOfAbove(t: Tree, id: NodeId, top: NodeId, forward: bool)
    requires Sound(t) && id in Ids(t.nodes) && top in Ids(t.nodes) && top != t.root
    requires id in Ids(Find(t.nodes, top).children)
    ensures Movable(t, id, top)
    ensures var t' := Transfer(t, id, top, forward);
            id in Ids(t'.nodes) && Side(t', id, forward) == Side(t, top, forward)
    ensures |Side(t, top, forward)| <= |Side(t, id, forward)|
  {
    FindDown(t.nodes, top, id);
    NotUnder(t.nodes, top, id);
    RootOutside(t, top);
    TransferOrder(t, id, top, forward);
    AroundAbove(t.nodes, top, id);
    BeforeDown(t.nodes, top, id);
  }

  /** Going next to the neighbour, or to a node under it. */
  lemma AheadOfNeighbour(t: Tree, id: NodeId, forward: bool)
    requires Sound(t) && id in Ids(t.nodes) && id != t.root && NextTo(t.nodes, id, forward).Some?
    ensures var n := NextTo(t.nodes, id, forward).value;
            Movable(t, id, n) &&
            var t' := Transfer(t, id, n, forward);
            id in Ids(t'.nodes) && Side(t', id, forward) == Side(t, n, forward) &&
            |Side(t, n, forward)| <= |Side(t, id, forward)|
  {
    SiblingInTree(t, id, forward);
    var n := NextTo(t.nodes, id, forward).value;
    TransferOrder(t, id, n, forward);
    BeyondNeighbour(t.nodes, id, forward);
    NeighbourOrder(t.nodes, id, forward);
  }

  lemma BehindUnderNeighbour(t: Tree, id: NodeId, forward: bool, target: NodeId)
    requires Sound(t) && id in Ids(t.nodes) && id != t.root && NextTo(t.nodes, id, forward).Some?
    requires NextTo(t.nodes, id, forward).value in Ids(t.nodes)
    requires target in Ids(Find(t.nodes, NextTo(t.nodes, id, forward).value).children)
    ensures Movable(t, id, target)
    ensures var t' := Transfer(t, id, target, !forward);
            id in Ids(t'.nodes) && Side(t', id, forward) == Beyond(t, Some(Behind(target)), forward)
    ensures |Beyond(t, Some(Behind(target)), forward)| <= |Side(t, id, forward)|
  {
    var n := NextTo(t.nodes, id, forward).value;
    SiblingInTree(t, id, forward);
    RootOutside(t, n);
    FindDown(t.nodes, n, target);
    TransferOrder(t, id, target, !forward);
    BeyondNeighbour(t.nodes, id, forward);
    NeighbourOrder(t.nodes, id, forward);
    BeforeDown(t.nodes, n, target);
    Detachable(t, id, n);
    var rest := Without(t.nodes, id);
    FindDown(rest, n, target);
    BeforeDown(rest, n, target);
    LeavesSplit(Find(t.nodes, n).children, target);
  }

  /** The windows on the far side of the moved node are those beyond its goal, and no more than before. */
  predicate Lands(t: Tree, t': Tree, id: NodeId, goal: Option<Destination>, forward: bool)
  {
    id in Ids(t.nodes) && id in Ids(t'.nodes) && (goal.Some? ==> goal.value.target in Ids(t.nodes)) &&
    Side(t', id, forward) == Beyond(t, goal, forward) && |Side(t', id, forward)| <= |Side(t, id, forward)|
  }

  lemma LandsOver(t: Tree, id: NodeId, dir: Direction, spare: NodeId)
    requires Sound(t) && id in Ids(t.nodes) && id != t.root && spare !in Ids(t.nodes) && MoveOver(t, id, dir).Some?
    ensures MoveInner(t, id, dir, spare).Some?
    ensures Lands(t, MoveInner(t, id, dir, spare).value, id, Goal(t, id, dir), dir.Forward())
  {
    var n := MoveOver(t, id, dir).value;
    SiblingInTree(t, id, dir.Forward());
    DescendInside(t.nodes, t.selection, n, dir.Orientation());
    if Goal(t, id, dir).value.Ahead? {
      AheadOfNeighbour(t, id, dir.Forward());
    } else {
      BehindUnderNeighbour(t, id, dir.Forward(), Goal(t, id, dir).value.target);
    }
  }

  lemma LandsAbove(t: Tree, id: NodeId, dir: Direction, spare: NodeId)
    requires Sound(t) && id in Ids(t.nodes) && id != t.root && spare !in Ids(t.nodes)
    requires MoveOver(t, id, dir).None? && Goal(t, id, dir).Some?
    ensures MoveInner(t, id, dir, spare).Some?
    ensures Lands(t, MoveInner(t, id, dir, spare).value, id, Goal(t, id, dir), dir.Forward())
  {
    ParentInTree(t, id);
    ClimbAbove(t, id, Parent(t, id), dir.Orientation());
    AheadOfAbove(t, id, Goal(t, id, dir).value.target, dir.Forward());
  }

  lemma LandsOutside(t: Tree, id: NodeId, dir: Direction, spare: NodeId)
    requires Sound(t) && id in Ids(t.nodes) && id != t.root && spare !in Ids(t.nodes)
    requires Goal(t, id, dir).None? && MoveInner(t, id, dir, spare).Some?
    ensures Lands(t, MoveInner(t, id, dir, spare).value, id, None, dir.Forward())
  {
    var kind := KindFor(dir.Orientation());
    NestedForms(t, spare, kind);
    RootOutside(t, id);
    UnderRoot(t, id);
    NestedSound(t, spare, kind);
    NestedOrder(t, spare, kind, id);
    AheadOfAbove(Nested(t, spare, kind), id, t.root, dir.Forward());
    NestedOrder(t, spare, kind, t.root);
    assert Side(Nested(t, spare, kind), t.root, dir.Forward()) == [];
  }

  /** A move ends right beyond its goal, never short of where it started. */
  lemma MoveLands(t: Tree, id: NodeId, dir: Direction, spare: NodeId)
    requires Sound(t) && id in Ids(t.nodes) && id != t.root && spare !in Ids(t.nodes)
    requires Move(t, id, dir, spare).Some?
    ensures Lands(t, Move(t, id, dir, spare).value, id, Goal(t, id, dir), dir.Forward())
  {
    if MoveOver(t, id, dir).Some? {
      LandsOver(t, id, dir, spare);
    } else if Goal(t, id, dir).Some? {
      LandsAbove(t, id, dir, spare);
    } else {
      LandsOutside(t, id, dir, spare);
    }
  }

  function Opposite(dir: Direction): Direction
  {
    match dir
    case Left => Right
    case Right => Left
    case Up => Down
    case Down => Up
  }

  /** A node that changed places with a leaf changes back when it moves the other way. */
  lemma MoveBack(t: Tree, id: NodeId, dir: Direction, spare: NodeId)
    requires Sound(t) && id in Ids(t.nodes) && id != t.root && spare !in Ids(t.nodes)
    requires MoveOver(t, id, dir).Some?
    requires MoveOver(t, id, dir).value in Ids(t.nodes) && Find(t.nodes, MoveOver(t, id, dir).value).children == []
    ensures Move(t, id, dir, spare).Some?
    ensures var t' := Move(t, id, dir, spare).value;
            Formed(t') && id in Ids(t'.nodes) && spare !in Ids(t'.nodes) && Move(t', id, Opposite(dir), spare) == Some(t)
  {
    var forward, n := dir.Forward(), MoveOver(t, id, dir).value;
    SiblingInTree(t, id, forward);
    DescendInside(t.nodes, t.selection, n, dir.Orientation());
    SwapOnce(t, id, dir, spare);
    var t' := Move(t, id, dir, spare).value;
    PlacedForms(t, id, n, forward);
    PlacedCounts(t, id, n, forward);
    SwapBack(t, id, n, forward);
    SameParent(t, id, n, forward);
    ParentInTree(t, id);
    PlacedOutside(t, id, n, forward, Parent(t, id));
    assert t' == Placed(t, id, n, forward);
    SwapOnce(t', id, Opposite(dir), spare);
  }

  lemma SwapInner(t: Tree, id: NodeId, dir: Direction, spare: NodeId)
    requires Formed(t) && id in Ids(t.nodes) && id != t.root && spare !in Ids(t.nodes)
    requires MoveOver(t, id, dir).Some?
    requires MoveOver(t, id, dir).value in Ids(t.nodes) && Find(t.nodes, MoveOver(t, id, dir).value).children == []
    ensures var n := MoveOver(t, id, dir).value;
            Movable(t, id, n) && Parent(t, n) == Parent(t, id) && n in Ids(Without(t.nodes, id)) &&
            MoveInner(t, id, dir, spare) == Some(Placed(t, id, n, dir.Forward()))
  {
    var n := MoveOver(t, id, dir).value;
    SiblingInTree(t, id, dir.Forward());
    DescendInside(t.nodes, t.selection, n, dir.Orientation());
    Detachable(t, id, n);
  }

  /** Going past a leaf changes nothing but the places of the two. */
  lemma SwapOnce(t: Tree, id: NodeId, dir: Direction, spare: NodeId)
    requires Formed(t) && id in Ids(t.nodes) && id != t.root && spare !in Ids(t.nodes)
    requires MoveOver(t, id, dir).Some?
    requires MoveOver(t, id, dir).value in Ids(t.nodes) && Find(t.nodes, MoveOver(t, id, dir).value).children == []
    ensures var n := MoveOver(t, id, dir).value;
            Movable(t, id, n) && n in Ids(Without(t.nodes, id)) &&
            Move(t, id, dir, spare) == Some(t.(nodes := Beside(Without(t.nodes, id), n, Find(t.nodes, id), dir.Forward())))
  {
    var n := MoveOver(t, id, dir).value;
    SwapInner(t, id, dir, spare);
    PlacedForms(t, id, n, dir.Forward());
    if LocalSelection(t.selection, Parent(t, id)) == Some(id) {
      SameParent(t, id, n, dir.Forward());
      SelectedAlready(Placed(t, id, n, dir.Forward()), id);
    }
  }

  lemma SelectedAlready(t: Tree, id: NodeId)
    requires Formed(t) && id in Ids(t.nodes) && id != t.root
    requires Parent(t, id) in t.selection && t.selection[Parent(t, id)] == Selected(id, false)
    ensures SelectUp(t, id, Parent(t, id)) == t.selection
  {
    ParentInTree(t, id);
    assert t.selection[Parent(t, id) := Selected(id, false)] == t.selection;
  }

  lemma SameParent(t: Tree, id: NodeId, n: NodeId, behind: bool)
    requires Formed(t) && Movable(t, id, n) && Parent(t, id) == Parent(t, n)
    ensures n in Ids(Without(t.nodes, id)) && id in Ids(Placed(t, id, n, behind).nodes)
    ensures Parent(Placed(t, id, n, behind), id) == Parent(t, id)
  {
    ParentInTree(t, id);
    StaysUnderParent(t, id, n, behind, Parent(t, id));
    PlacedForms(t, id, n, behind);
    ParentIs(Placed(t, id, n, behind).nodes, id, t.root, Parent(t, id));
  }

  lemma SwapBack(t: Tree, id: NodeId, n: NodeId, forward: bool)
    requires Formed(t) && id in Ids(t.nodes) && id != t.root && NextTo(t.nodes, id, forward) == Some(n)
    requires n in Ids(t.nodes)
    ensures Movable(t, id, n) && n in Ids(Without(t.nodes, id))
    ensures var t' := Placed(t, id, n, forward);
            id in Ids(t'.nodes) && n in Ids(t'.nodes) && Find(t'.nodes, id) == Find(t.nodes, id) &&
            NextTo(t'.nodes, id, !forward) == Some(n) && n in Ids(Without(t'.nodes, id)) &&
            Beside(Without(t'.nodes, id), n, Find(t.nodes, id), !forward) == t.nodes
    ensures Find(Placed(t, id, n, forward).nodes, n).children == Find(t.nodes, n).children
  {
    SiblingInTree(t, id, forward);
    Detachable(t, id, n);
    var rest, x := Without(t.nodes, id), Find(t.nodes, id);
    NextToPlaced(rest, n, x, forward);
    WithoutBeside(rest, n, x, forward);
    PutBack(t.nodes, id, forward);
    PlacedInside(t, id, n, forward, id);
    PlacedOutside(t, id, n, forward, n);
    BeyondNeighbour(t.nodes, id, forward);
    FindBeside(rest, n, x, forward, n);
    FindInside(rest, n);
  }

  /** Culling leaves the root's other children under the root. */
  lemma {:induction false} CullLeavesTop(t: Tree, p: NodeId, id: NodeId)
    requires Formed(t) && p in Ids(t.nodes) && id in Tops(t.nodes[0].children)
    requires id in Ids(t.nodes) && p !in IdsOf(Find(t.nodes, id))
    ensures Formed(Cull(t, p)) && id in Tops(Cull(t, p).nodes[0].children) && Cull(t, p).nodes[0].kind == t.nodes[0].kind
    decreases Count(t.nodes), |Find(t.nodes, p).children|
  {
    var kids := Find(t.nodes, p).children;
    UnderRoot(t, p);
    RootIsFirst(t);
    FindInside(t.nodes, t.root);
    if p == t.root {
    } else if kids == [] {
      RemovedForms(t, p);
      RemovedLeavesTop(t, p, id);
      AboveParent(t, p, id);
      FindWithout(t.nodes, p, id);
      WithoutNone(Find(t.nodes, id).children, p);
      CullLeavesTop(Removed(t, p), Parent(t, p), id);
    } else if |kids| == 1 {
      PromotedForms(t, p);
      PromotionSpares(t, p, id);
      PromotedLeavesTop(t, p, id);
      CullLeavesTop(Placed(t, kids[0].id, p, true), p, id);
    }
  }

  lemma RootIsFirst(t: Tree)
    requires Rooted(t)
    ensures t.root in Ids(t.nodes) && Find(t.nodes, t.root) == t.nodes[0]
  {
  }

  lemma RemovedLeavesTop(t: Tree, p: NodeId, id: NodeId)
    requires Formed(t) && p in Ids(t.nodes) && p != t.root && Find(t.nodes, p).children == []
    requires id in Tops(t.nodes[0].children) && id != p
    ensures var t' := Removed(t, p); Formed(t') && id in Tops(t'.nodes[0].children) && t'.nodes[0].kind == t.nodes[0].kind
  {
    RemovedForms(t, p);
    RootIsFirst(t);
    RootOutside(t, p);
    FindWithout(t.nodes, p, t.root);
    RootIsFirst(Removed(t, p));
    TopsWithout(t.nodes[0].children, p);
  }

  lemma PromotedLeavesTop(t: Tree, p: NodeId, id: NodeId)
    requires Formed(t) && p in Ids(t.nodes) && p != t.root && |Find(t.nodes, p).children| == 1
    requires id in Tops(t.nodes[0].children)
    ensures var c := Find(t.nodes, p).children[0].id;
            Movable(t, c, p) && p in Ids(Without(t.nodes, c)) &&
            var t' := Placed(t, c, p, true);
            Formed(t') && id in Tops(t'.nodes[0].children) && t'.nodes[0].kind == t.nodes[0].kind
  {
    PromotedForms(t, p);
    var c := Find(t.nodes, p).children[0].id;
    RootIsFirst(t);
    RootOutside(t, c);
    ParentIs(t.nodes, c, t.root, p);
    if id == c {
      ParentIs(t.nodes, id, t.root, t.root);
    }
    PlacedOutside(t, c, p, true, t.root);
    RootIsFirst(Placed(t, c, p, true));
    var columns := t.nodes[0].children;
    TopsWithout(columns, c);
    if p in Ids(Without(columns, c)) {
      WithoutKeepsDistinct(columns, c);
      TopsBeside(Without(columns, c), p, Find(t.nodes, c), true);
    }
  }

  lemma WithoutKeepsDistinct(ts: seq<Node>, id: NodeId)
    requires Distinct(ts)
    ensures Distinct(Without(ts, id))
  {
    if id in Ids(ts) {
      WithoutIds(ts, id);
    } else {
      WithoutNone(ts, id);
    }
  }

  /** A node that moves next to a child of the root ends up under the root. */
  lemma TransferredUnderRoot(t: Tree, id: NodeId, target: NodeId, behind: bool)
    requires Formed(t) && Movable(t, id, target) && target in Tops(t.nodes[0].children)
    ensures var t' := Transfer(t, id, target, behind);
            Formed(t') && t'.root == t.root && id in Tops(t'.nodes[0].children) && t'.nodes[0].kind == t.nodes[0].kind
  {
    var p := Parent(t, id);
    Detachable(t, id, target);
    PlacedForms(t, id, target, behind);
    PlacedCounts(t, id, target, behind);
    ParentInTree(t, id);
    PlacedUnderRoot(t, id, target, behind);
    if p != Parent(t, target) {
      PlacedInside(t, id, target, behind, id);
      CullLeavesTop(Placed(t, id, target, behind), p, id);
      CullForms(Placed(t, id, target, behind), p);
    }
  }

  /** When there is nowhere to go under the root, a move puts a new root around
      it that runs the way of the move, and the node right under it. */
  lemma MoveNests(t: Tree, id: NodeId, dir: Direction, spare: NodeId)
    requires Sound(t) && id in Ids(t.nodes) && id != t.root && spare !in Ids(t.nodes)
    requires Goal(t, id, dir).None? && Move(t, id, dir, spare).Some?
    ensures var t' := Move(t, id, dir, spare).value;
            t'.root == spare && Rooted(t') && t'.nodes[0].kind.Orientation() == dir.Orientation() &&
            !t'.nodes[0].kind.IsGroup() && id in Tops(t'.nodes[0].children)
  {
    var kind := KindFor(dir.Orientation());
    NestedForms(t, spare, kind);
    RootOutside(t, id);
    UnderRoot(t, id);
    TransferredUnderRoot(Nested(t, spare, kind), id, t.root, dir.Forward());
  }

  /** Next to a child of the root a node is a child of the root. */
  lemma PlacedUnderRoot(t: Tree, id: NodeId, target: NodeId, behind: bool)
    requires Formed(t) && Movable(t, id, target) && target in Tops(t.nodes[0].children)
    ensures target in Ids(Without(t.nodes, id))
    ensures var t' := Placed(t, id, target, behind);
            Formed(t') && id in Tops(t'.nodes[0].children) && t'.nodes[0].kind == t.nodes[0].kind
  {
    var columns := t.nodes[0].children;
    Detachable(t, id, target);
    PlacedForms(t, id, target, behind);
    RootIsFirst(t);
    RootOutside(t, id);
    PlacedOutside(t, id, target, behind, t.root);
    RootIsFirst(Placed(t, id, target, behind));
    TopsWithout(columns, id);
    TopsInside(Without(columns, id));
    WithoutKeepsDistinct(columns, id);
    TopsBeside(Without(columns, id), target, Find(t.nodes, id), behind);
  }
}
