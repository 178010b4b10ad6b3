/** One layout's tree with its selection (`src/model/selection.rs`), and the
    steps its commands are made of (`src/model/layout_tree.rs`): a node is
    removed or moves next to another, and containers that this leaves with
    fewer than two children are culled. */
module LayoutTrees {
  import opened Options
  import opened LayoutForest

  /** The child a container selects; `stopHere` while the container is selected itself. */
  datatype Selected = Selected(child: NodeId, stopHere: bool)

  type Selection = map<NodeId, Selected>

  datatype Tree = Tree(nodes: seq<Node>, root: NodeId, selection: Selection)

  /** The selected child, unless the container is selected itself. */
  function LocalSelection(s: Selection, id: NodeId): Option<NodeId>
  {
    if id in s && !s[id].stopHere then Some(s[id].child) else None
  }

  /** Every selected child is a child of the container that selects it. */
  ghost predicate Pointed(ts: seq<Node>, s: Selection)
  {
    forall p <- s :: p in Ids(ts) && s[p].child in Tops(Find(ts, p).children)
  }

  predicate Rooted(t: Tree)
  {
    |t.nodes| == 1 && t.nodes[0].id == t.root && t.nodes[0].window.None?
  }

  ghost predicate Formed(t: Tree)
  {
    Rooted(t) && Distinct(t.nodes) && Pointed(t.nodes, t.selection)
  }

  /** What holds between two commands: the root may be empty, every other leaf is a window. */
  ghost predicate Sound(t: Tree)
  {
    Formed(t) && Proper(t.nodes, {t.root})
  }

  /** The parent of a node; the root is given as its own. */
  function Parent(t: Tree, id: NodeId): NodeId
    requires id in Ids(t.nodes)
  {
    ParentOf(t.nodes, id, t.root)
  }

  lemma ParentInTree(t: Tree, id: NodeId)
    requires Rooted(t) && Distinct(t.nodes) && id in Ids(t.nodes) && id != t.root
    ensures Parent(t, id) in Ids(t.nodes)
    ensures id in Tops(Find(t.nodes, Parent(t, id)).children)
    ensures id in Ids(Find(t.nodes, Parent(t, id)).children)
    ensures Parent(t, id) !in IdsOf(Find(t.nodes, id))
  {
    var under := t.nodes[0].children;
    assert t.nodes[1..] == [];
    ParentFacts(under, id, t.root);
    FindInside(under, id);
    TopsInside(Find(t.nodes, Parent(t, id)).children);
  }

  lemma UnderRoot(t: Tree, id: NodeId)
    requires Rooted(t) && id in Ids(t.nodes)
    ensures t.root in Ids(t.nodes) && id in IdsOf(Find(t.nodes, t.root))
  {
    assert t.nodes[1..] == [];
  }

  /** Selecting another child before a node leaves its parent. */
  function Unselected(t: Tree, id: NodeId): Selection
    requires id in Ids(t.nodes)
  {
    var p := Parent(t, id);
    if p in t.selection && t.selection[p].child == id then
      if NextTo(t.nodes, id, true).Some? then t.selection[p := t.selection[p].(child := NextTo(t.nodes, id, true).value)]
      else if NextTo(t.nodes, id, false).Some? then t.selection[p := t.selection[p].(child := NextTo(t.nodes, id, false).value)]
      else t.selection - {p}
    else t.selection
  }

  lemma UnselectedPoints(t: Tree, id: NodeId)
    requires Formed(t) && id in Ids(t.nodes) && id != t.root
    ensures Pointed(t.nodes, Unselected(t, id))
    ensures forall p <- Unselected(t, id) :: Unselected(t, id)[p].child != id
  {
    var p, s := Parent(t, id), Unselected(t, id);
    ParentInTree(t, id);
    if p in t.selection && t.selection[p].child == id {
      forall behind | NextTo(t.nodes, id, behind).Some?
        ensures NextTo(t.nodes, id, behind).value in Tops(Find(t.nodes, p).children) - {id}
      {
        var n := NextTo(t.nodes, id, behind).value;
        Neighbours(t.nodes, id, behind, t.root);
        UnderRoot(t, id);
        ParentInTree(t, n);
      }
    }
    forall q <- s ensures s[q].child != id {
      if s[q].child == id {
        ParentIs(t.nodes, id, t.root, q);
      }
    }
  }

  // Taking a node out for good.

  /** Without a leaf. */
  function Removed(t: Tree, id: NodeId): Tree
    requires id in Ids(t.nodes)
  {
    t.(nodes := Without(t.nodes, id), selection := Unselected(t, id) - {id})
  }

  lemma RemovedForms(t: Tree, id: NodeId)
    requires Formed(t) && id in Ids(t.nodes) && id != t.root && Find(t.nodes, id).children == []
    ensures var t' := Removed(t, id);
            Formed(t') && Ids(t'.nodes) == Ids(t.nodes) - {id} && Parent(t, id) in Ids(t'.nodes) &&
            Count(t'.nodes) < Count(t.nodes)
  {
    var t', s := Removed(t, id), Unselected(t, id);
    ParentInTree(t, id);
    UnselectedPoints(t, id);
    WithoutIds(t.nodes, id);
    forall p <- t'.selection ensures p in Ids(t'.nodes) && t'.selection[p].child in Tops(Find(t'.nodes, p).children) {
      assert p in s;
      FindWithout(t.nodes, id, p);
      FindInside(t.nodes, p);
      TopsWithout(Find(t.nodes, p).children, id);
    }
  }

  // Moving a node.

  /** With a node and all that is under it next to `target`. */
  function Placed(t: Tree, id: NodeId, target: NodeId, behind: bool): Tree
    requires id in Ids(t.nodes) && target in Ids(t.nodes) && target in Ids(Without(t.nodes, id))
  {
    t.(nodes := Beside(Without(t.nodes, id), target, Find(t.nodes, id), behind),
       selection := if Parent(t, id) == Parent(t, target) then t.selection else Unselected(t, id))
  }

  predicate Movable(t: Tree, id: NodeId, target: NodeId)
  {
    id in Ids(t.nodes) && target in Ids(t.nodes) && id != t.root && target != t.root &&
    target !in IdsOf(Find(t.nodes, id))
  }

  lemma Detachable(t: Tree, id: NodeId, target: NodeId)
    requires Rooted(t) && Distinct(t.nodes) && Movable(t, id, target)
    ensures var rest := Without(t.nodes, id);
            Distinct(rest) && DistinctIn(Find(t.nodes, id)) && IdsOf(Find(t.nodes, id)) !! Ids(rest) &&
            Ids(rest) == Ids(t.nodes) - IdsOf(Find(t.nodes, id)) && target in Ids(rest) &&
            Count(rest) == Count(t.nodes) - CountOf(Find(t.nodes, id))
  {
    WithoutIds(t.nodes, id);
    FindInside(t.nodes, id);
  }

  /** A node outside the moving one keeps its children, except that the
      moving node leaves one and joins another. */
  lemma PlacedOutside(t: Tree, id: NodeId, target: NodeId, behind: bool, q: NodeId)
    requires Rooted(t) && Distinct(t.nodes) && Movable(t, id, target)
    requires q in Ids(t.nodes) && q !in IdsOf(Find(t.nodes, id))
    ensures target in Ids(Without(t.nodes, id)) && q in Ids(Placed(t, id, target, behind).nodes)
    ensures Find(Placed(t, id, target, behind).nodes, q) == Find(t.nodes, q).(
              children := Joined(Without(Find(t.nodes, q).children, id), target, Find(t.nodes, id), behind))
  {
    Detachable(t, id, target);
    FindWithout(t.nodes, id, q);
    FindBeside(Without(t.nodes, id), target, Find(t.nodes, id), behind, q);
  }

  lemma PlacedInside(t: Tree, id: NodeId, target: NodeId, behind: bool, q: NodeId)
    requires Rooted(t) && Distinct(t.nodes) && Movable(t, id, target)
    requires q in IdsOf(Find(t.nodes, id))
    ensures target in Ids(Without(t.nodes, id)) && q in Ids(Placed(t, id, target, behind).nodes)
    ensures q in Ids(t.nodes) && Find(Placed(t, id, target, behind).nodes, q) == Find(t.nodes, q)
  {
    Detachable(t, id, target);
    FindJoined(Without(t.nodes, id), target, Find(t.nodes, id), behind, q);
    if q != id {
      FindDown(t.nodes, id, q);
    }
  }

  lemma PlacedForms(t: Tree, id: NodeId, target: NodeId, behind: bool)
    requires Formed(t) && Movable(t, id, target)
    ensures target in Ids(Without(t.nodes, id)) && Formed(Placed(t, id, target, behind))
  {
    PlacedCounts(t, id, target, behind);
    PlacedRoots(t, id, target, behind);
    var t' := Placed(t, id, target, behind);
    forall p <- t'.selection ensures p in Ids(t'.nodes) && t'.selection[p].child in Tops(Find(t'.nodes, p).children) {
      PlacedPoints(t, id, target, behind, p);
    }
  }

  lemma PlacedCounts(t: Tree, id: NodeId, target: NodeId, behind: bool)
    requires Rooted(t) && Distinct(t.nodes) && Movable(t, id, target)
    ensures target in Ids(Without(t.nodes, id))
    ensures var t' := Placed(t, id, target, behind);
            Distinct(t'.nodes) && Ids(t'.nodes) == Ids(t.nodes) && Count(t'.nodes) == Count(t.nodes)
  {
    Detachable(t, id, target);
    FindInside(t.nodes, id);
    BesideIds(Without(t.nodes, id), target, Find(t.nodes, id), behind);
  }

  lemma PlacedRoots(t: Tree, id: NodeId, target: NodeId, behind: bool)
    requires Rooted(t) && Distinct(t.nodes) && Movable(t, id, target)
    ensures target in Ids(Without(t.nodes, id)) && Rooted(Placed(t, id, target, behind))
  {
    Detachable(t, id, target);
    assert t.nodes[1..] == [];
  }

  lemma PlacedPoints(t: Tree, id: NodeId, target: NodeId, behind: bool, p: NodeId)
    requires Formed(t) && Movable(t, id, target) && target in Ids(Without(t.nodes, id))
    requires p in Placed(t, id, target, behind).selection
    ensures var t' := Placed(t, id, target, behind);
            p in Ids(t'.nodes) && t'.selection[p].child in Tops(Find(t'.nodes, p).children)
  {
    var t', x := Placed(t, id, target, behind), Find(t.nodes, id);
    UnselectedPoints(t, id);
    var child := t'.selection[p].child;
    assert p in Ids(t.nodes) && child in Tops(Find(t.nodes, p).children);
    if p in IdsOf(x) {
      PlacedInside(t, id, target, behind, p);
    } else {
      PlacedOutside(t, id, target, behind, p);
      var kids := Find(t.nodes, p).children;
      FindInside(t.nodes, p);
      TopsWithout(kids, id);
      if child == id {
        StaysUnderParent(t, id, target, behind, p);
      } else if target in Ids(Without(kids, id)) {
        if id in Ids(kids) {
          WithoutIds(kids, id);
        } else {
          WithoutNone(kids, id);
        }
        TopsBeside(Without(kids, id), target, x, behind);
      }
    }
  }

  /** A node that moves within its parent. */
  lemma StaysUnderParent(t: Tree, id: NodeId, target: NodeId, behind: bool, p: NodeId)
    requires Rooted(t) && Distinct(t.nodes) && Movable(t, id, target)
    requires Parent(t, id) == Parent(t, target)
    requires p in Ids(t.nodes) && id in Tops(Find(t.nodes, p).children)
    ensures target in Ids(Without(t.nodes, id)) && p in Ids(Placed(t, id, target, behind).nodes)
    ensures id in Tops(Find(Placed(t, id, target, behind).nodes, p).children)
  {
    ParentIs(t.nodes, id, t.root, p);
    ParentInTree(t, id);
    ParentInTree(t, target);
    PlacedOutside(t, id, target, behind, p);
    var kids := Find(t.nodes, p).children;
    FindInside(t.nodes, p);
    WithoutIds(kids, id);
    TopsWithout(kids, id);
    TopsInside(Without(kids, id));
    TopsBeside(Without(kids, id), target, Find(t.nodes, id), behind);
  }

  // Culling.

  lemma OnlyChild(ts: seq<Node>, p: NodeId)
    requires Distinct(ts) && p in Ids(ts) && |Find(ts, p).children| == 1
    ensures var c := Find(ts, p).children[0];
            c.id in Ids(ts) && Find(ts, c.id) == c && p !in IdsOf(c) && c.id != p &&
            Without(Find(ts, p).children, c.id) == []
  {
    var kids := Find(ts, p).children;
    assert kids[1..] == [];
    FindInside(ts, p);
    FindDown(ts, p, kids[0].id);
  }

  lemma PromotedForms(t: Tree, p: NodeId)
    requires Formed(t) && p in Ids(t.nodes) && p != t.root && |Find(t.nodes, p).children| == 1
    ensures var c := Find(t.nodes, p).children[0].id;
            Movable(t, c, p) && p in Ids(Without(t.nodes, c)) &&
            var t' := Placed(t, c, p, true);
            Formed(t') && Ids(t'.nodes) == Ids(t.nodes) && Count(t'.nodes) == Count(t.nodes) &&
            Find(t'.nodes, p) == Find(t.nodes, p).(children := [])
  {
    OnlyChild(t.nodes, p);
    var c := Find(t.nodes, p).children[0].id;
    UnderRoot(t, p);
    PlacedForms(t, c, p, true);
    PlacedCounts(t, c, p, true);
    PlacedOutside(t, c, p, true, p);
  }

  /** What becomes of a container that has lost a child. The root stays. An
      empty container goes; if one child is left it takes the container's
      place, which empties the container. */
  function Cull(t: Tree, p: NodeId): Tree
    requires Formed(t) && p in Ids(t.nodes)
    decreases Count(t.nodes), |Find(t.nodes, p).children|
  {
    var kids := Find(t.nodes, p).children;
    if p == t.root then t
    else if kids == [] then
      RemovedForms(t, p);
      Cull(Removed(t, p), Parent(t, p))
    else if |kids| == 1 then
      PromotedForms(t, p);
      Cull(Placed(t, kids[0].id, p, true), p)
    else t
  }

  lemma {:induction false} CullForms(t: Tree, p: NodeId)
    requires Formed(t) && p in Ids(t.nodes)
    ensures Formed(Cull(t, p)) && Cull(t, p).root == t.root && Ids(Cull(t, p).nodes) <= Ids(t.nodes)
    decreases Count(t.nodes), |Find(t.nodes, p).children|
  {
    var kids := Find(t.nodes, p).children;
    if p == t.root {
    } else if kids == [] {
      RemovedForms(t, p);
      CullForms(Removed(t, p), Parent(t, p));
    } else if |kids| == 1 {
      PromotedForms(t, p);
      CullForms(Placed(t, kids[0].id, p, true), p);
    }
  }

  /** A node with something outside it has that thing's parent outside it. */
  lemma AboveParent(t: Tree, p: NodeId, id: NodeId)
    requires Rooted(t) && Distinct(t.nodes) && p in Ids(t.nodes) && p != t.root && id in Ids(t.nodes)
    requires p !in IdsOf(Find(t.nodes, id))
    ensures Parent(t, p) !in IdsOf(Find(t.nodes, id))
  {
    ParentInTree(t, p);
    if Parent(t, p) in Ids(Find(t.nodes, id).children) {
      ChildInside(t.nodes, id, Parent(t, p), p);
    }
  }

  lemma ChildInside(ts: seq<Node>, id: NodeId, a: NodeId, p: NodeId)
    requires Distinct(ts) && id in Ids(ts) && a in Ids(Find(ts, id).children)
    ensures a in Ids(ts)
    ensures p in Tops(Find(ts, a).children) ==> p in Ids(Find(ts, id).children)
  {
    var under := Find(ts, id).children;
    FindInside(ts, id);
    FindDown(ts, id, a);
    FindInside(under, a);
    TopsInside(Find(under, a).children);
  }

  /** Culling leaves a node with all that is under it alone, unless the culled container is in there. */
  lemma {:induction false} CullSpares(t: Tree, p: NodeId, id: NodeId)
    requires Formed(t) && p in Ids(t.nodes) && id in Ids(t.nodes) && p !in IdsOf(Find(t.nodes, id))
    ensures id in Ids(Cull(t, p).nodes) && Find(Cull(t, p).nodes, id) == Find(t.nodes, id)
    decreases Count(t.nodes), |Find(t.nodes, p).children|
  {
    var kids := Find(t.nodes, p).children;
    if p == t.root {
    } else if kids == [] {
      RemovedForms(t, p);
      AboveParent(t, p, id);
      FindWithout(t.nodes, p, id);
      WithoutNone(Find(t.nodes, id).children, p);
      CullSpares(Removed(t, p), Parent(t, p), id);
    } else if |kids| == 1 {
      PromotedForms(t, p);
      PromotionSpares(t, p, id);
      CullSpares(Placed(t, kids[0].id, p, true), p, id);
    }
  }

  lemma PromotionSpares(t: Tree, p: NodeId, id: NodeId)
    requires Formed(t) && p in Ids(t.nodes) && id in Ids(t.nodes) && p !in IdsOf(Find(t.nodes, id))
    requires p != t.root && |Find(t.nodes, p).children| == 1
    ensures var c := Find(t.nodes, p).children[0].id;
            Movable(t, c, p) && p in Ids(Without(t.nodes, c)) &&
            id in Ids(Placed(t, c, p, true).nodes) && Find(Placed(t, c, p, true).nodes, id) == Find(t.nodes, id)
  {
    PromotedForms(t, p);
    var c := Find(t.nodes, p).children[0].id;
    if id in IdsOf(Find(t.nodes, c)) {
      PlacedInside(t, c, p, true, id);
    } else {
      PlacedOutside(t, c, p, true, id);
      ParentIs(t.nodes, c, t.root, p);
      AboveChild(t, c, id);
      WithoutNone(Find(t.nodes, id).children, c);
    }
  }

  lemma AboveChild(t: Tree, c: NodeId, id: NodeId)
    requires Rooted(t) && Distinct(t.nodes) && c in Ids(t.nodes) && c != t.root && id in Ids(t.nodes)
    requires Parent(t, c) !in IdsOf(Find(t.nodes, id)) && id !in IdsOf(Find(t.nodes, c))
    ensures c !in IdsOf(Find(t.nodes, id))
  {
    if c in Ids(Find(t.nodes, id).children) {
      ParentInside(t.nodes, id, c, t.root);
    }
  }

  lemma {:induction false} ParentInside(ts: seq<Node>, id: NodeId, c: NodeId, above: NodeId)
    requires Distinct(ts) && id in Ids(ts) && c in Ids(Find(ts, id).children)
    ensures c in Ids(ts) && ParentOf(ts, c, above) in IdsOf(Find(ts, id))
  {
    FindDown(ts, id, c);
    FindInside(ts, id);
    if ts[0].id == id {
    } else if id in Ids(ts[0].children) {
      FindInside(ts[0].children, id);
      ParentInside(ts[0].children, id, c, ts[0].id);
    } else {
      FindInside(ts[1..], id);
      ParentInside(ts[1..], id, c, above);
    }
  }

  lemma EmptyHasNoLeaves(ts: seq<Node>, p: NodeId)
    requires p in Ids(ts) && Find(ts, p).children == [] && Find(ts, p).window.None?
    ensures Leaves(Without(ts, p)) == Leaves(ts)
  {
    LeavesSplit(ts, p);
    WithoutLeaves(ts, p);
  }

  lemma PlacedLeaves(t: Tree, id: NodeId, target: NodeId, behind: bool)
    requires Rooted(t) && Distinct(t.nodes) && Movable(t, id, target)
    ensures target in Ids(Without(t.nodes, id))
    ensures var rest := Without(t.nodes, id);
            Leaves(Placed(t, id, target, behind).nodes) ==
            Before(rest, target) + Pair(Find(rest, target), Find(t.nodes, id), behind) + After(rest, target)
  {
    Detachable(t, id, target);
    BesideLeaves(Without(t.nodes, id), target, Find(t.nodes, id), behind);
  }

  /** An only child that takes its parent's place keeps its place among the windows. */
  lemma PromotionKeepsOrder(t: Tree, p: NodeId)
    requires Formed(t) && p in Ids(t.nodes) && p != t.root
    requires |Find(t.nodes, p).children| == 1 && Find(t.nodes, p).window.None?
    ensures var c := Find(t.nodes, p).children[0].id;
            Movable(t, c, p) && p in Ids(Without(t.nodes, c)) &&
            Leaves(Placed(t, c, p, true).nodes) == Leaves(t.nodes)
  {
    PromotedForms(t, p);
    OnlyChild(t.nodes, p);
    var top := Find(t.nodes, p);
    var c := top.children[0];
    PlacedLeaves(t, c.id, p, true);
    FindWithout(t.nodes, c.id, p);
    AroundAbove(t.nodes, p, c.id);
    LeavesSplit(t.nodes, p);
    LeavesOfOnly(top);
    PairWithEmpty(Find(Without(t.nodes, c.id), p), c);
  }

  lemma LeavesOfOnly(n: Node)
    requires |n.children| == 1 && n.window.None?
    ensures LeavesOf(n) == LeavesOf(n.children[0])
  {
    assert n.children == [n.children[0]] + [];
    LeavesCons(n.children[0], []);
  }

  lemma PairWithEmpty(n: Node, x: Node)
    requires n.children == [] && n.window.None?
    ensures Pair(n, x, true) == LeavesOf(x)
  {
  }

  lemma {:induction false} CullKeeps(t: Tree, p: NodeId)
    requires Formed(t) && p in Ids(t.nodes)
    requires Proper(t.nodes, {t.root, p}) && Find(t.nodes, p).window.None?
    ensures Formed(Cull(t, p)) && Proper(Cull(t, p).nodes, {t.root}) && Leaves(Cull(t, p).nodes) == Leaves(t.nodes)
    decreases Count(t.nodes), |Find(t.nodes, p).children|
  {
    var kids := Find(t.nodes, p).children;
    CullForms(t, p);
    if p == t.root {
      assert {t.root, p} == {t.root};
    } else if kids == [] {
      RemovedForms(t, p);
      EmptyHasNoLeaves(t.nodes, p);
      RemovedProper(t, p);
      CullKeeps(Removed(t, p), Parent(t, p));
    } else if |kids| == 1 {
      PromotedForms(t, p);
      PromotionKeepsOrder(t, p);
      PromotedProper(t, p);
      CullKeeps(Placed(t, kids[0].id, p, true), p);
    } else {
      assert {t.root, p} == {t.root} + {p};
      ProperFilled(t.nodes, {t.root}, p);
    }
  }

  /** The parent of a leaf that goes may be left a leaf itself. */
  lemma RemovedProper(t: Tree, id: NodeId)
    requires Formed(t) && id in Ids(t.nodes) && id != t.root && Find(t.nodes, id).children == []
    requires Proper(t.nodes, {t.root, id})
    ensures var t' := Removed(t, id);
            Proper(t'.nodes, {t.root, Parent(t, id)}) &&
            Parent(t, id) in Ids(t'.nodes) && Find(t'.nodes, Parent(t, id)).window.None?
  {
    var p := Parent(t, id);
    RemovedForms(t, id);
    ParentInTree(t, id);
    ProperWithout(t.nodes, {t.root, id}, id, t.root);
    ProperMore(Without(t.nodes, id), {t.root, id} + {p}, {t.root, p});
    FindWithout(t.nodes, id, p);
    ProperFound(t.nodes, {t.root, id}, p);
  }

  lemma PromotedProper(t: Tree, p: NodeId)
    requires Formed(t) && p in Ids(t.nodes) && p != t.root && |Find(t.nodes, p).children| == 1
    requires Proper(t.nodes, {t.root, p})
    ensures var c := Find(t.nodes, p).children[0].id;
            Movable(t, c, p) && p in Ids(Without(t.nodes, c)) && Proper(Placed(t, c, p, true).nodes, {t.root, p})
  {
    PromotedForms(t, p);
    var c := Find(t.nodes, p).children[0].id;
    PlacedProper(t, c, p, true, {t.root, p});
    ParentIs(t.nodes, c, t.root, p);
    assert {t.root, p} + {Parent(t, c)} == {t.root, p};
  }

  lemma PlacedProper(t: Tree, id: NodeId, target: NodeId, behind: bool, holes: set<NodeId>)
    requires Rooted(t) && Distinct(t.nodes) && Movable(t, id, target) && Proper(t.nodes, holes)
    ensures target in Ids(Without(t.nodes, id))
    ensures Proper(Placed(t, id, target, behind).nodes, holes + {Parent(t, id)})
  {
    Detachable(t, id, target);
    var more := holes + {Parent(t, id)};
    ProperWithout(t.nodes, holes, id, t.root);
    ProperFound(t.nodes, holes, id);
    ProperMore([Find(t.nodes, id)], holes, more);
    ProperBeside(Without(t.nodes, id), more, target, Find(t.nodes, id), behind);
  }
}
