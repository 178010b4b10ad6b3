/** Where a node ends up when it moves (`src/model/layout_tree.rs`,
    `move_node_inner`), said by its neighbours, the nodes it is under, and the
    children that containers select. */
module LayoutGoals {
  import opened Options
  import opened LayoutForest
  import opened LayoutTrees
  import opened LayoutMoves
  import opened LayoutVisibility

  // Neighbours.

  lemma {:induction false} TopNext(ts: seq<Node>, j: nat, behind: bool)
    requires Distinct(ts) && j < |ts|
    ensures ts[j].id in Ids(ts)
    ensures NextTo(ts, ts[j].id, behind) ==
            if behind then (if j + 1 < |ts| then Some(ts[j + 1].id) else None) else (if 0 < j then Some(ts[j - 1].id) else None)
  {
    if j > 0 {
      TopNext(ts[1..], j - 1, behind);
    }
  }

  /** The neighbour of a child is the next, or the previous, child of its parent. */
  lemma {:induction false} ChildNext(ts: seq<Node>, p: NodeId, j: nat, behind: bool)
    requires Distinct(ts) && p in Ids(ts) && j < |Find(ts, p).children|
    ensures var kids := Find(ts, p).children;
            kids[j].id in Ids(ts) &&
            NextTo(ts, kids[j].id, behind) ==
            if behind then (if j + 1 < |kids| then Some(kids[j + 1].id) else None) else (if 0 < j then Some(kids[j - 1].id) else None)
  {
    var kids := Find(ts, p).children;
    FindInside(ts, p);
    TopNext(kids, j, behind);
    FindDown(ts, p, kids[j].id);
    if ts[0].id == p {
    } else if p in Ids(ts[0].children) {
      ChildNext(ts[0].children, p, j, behind);
    } else {
      ChildNext(ts[1..], p, j, behind);
      FindInside(ts[1..], p);
      NotFirst(ts[1..], p, kids[j].id);
    }
  }

  lemma NotFirst(ts: seq<Node>, p: NodeId, id: NodeId)
    requires Distinct(ts) && p in Ids(ts) && id in Ids(Find(ts, p).children)
    ensures ts[0].id != id
  {
    FindDown(ts, p, id);
    if ts[0].id == p {
    } else if p in Ids(ts[0].children) {
      FindInside(ts[0].children, p);
    } else {
      FindInside(ts[1..], p);
    }
  }

  /** The place of a node among the children of its parent. */
  ghost predicate ChildAt(t: Tree, p: NodeId, j: nat, id: NodeId)
  {
    p in Ids(t.nodes) && j < |Find(t.nodes, p).children| && Find(t.nodes, p).children[j].id == id
  }

  lemma {:induction false} TopAt(ts: seq<Node>, id: NodeId) returns (j: nat)
    requires id in Tops(ts)
    ensures j < |ts| && ts[j].id == id
  {
    if ts[0].id == id {
      j := 0;
    } else {
      j := TopAt(ts[1..], id);
      j := j + 1;
    }
  }

  lemma ChildPlace(t: Tree, id: NodeId) returns (j: nat)
    requires Formed(t) && id in Ids(t.nodes) && id != t.root
    ensures ChildAt(t, Parent(t, id), j, id)
  {
    ParentInTree(t, id);
    j := TopAt(Find(t.nodes, Parent(t, id)).children, id);
  }

  lemma {:induction false} TopIn(ts: seq<Node>, j: nat)
    requires j < |ts|
    ensures ts[j].id in Tops(ts)
  {
    if j > 0 {
      TopIn(ts[1..], j - 1);
    }
  }

  lemma ChildParent(t: Tree, p: NodeId, j: nat, id: NodeId)
    requires Formed(t) && ChildAt(t, p, j, id)
    ensures id in Ids(t.nodes) && id != t.root && Parent(t, id) == p
  {
    TopIn(Find(t.nodes, p).children, j);
    ParentIs(t.nodes, id, t.root, p);
    TopsInside(Find(t.nodes, p).children);
    UnderRoot(t, p);
    FindDown(t.nodes, p, id);
    if id == t.root {
      NotUnder(t.nodes, p, id);
      RootIsFirst(t);
      FindInside(t.nodes, p);
    }
  }

  // Directions.

  /** Whether a container's children lie along a direction. */
  predicate Along(kind: ContainerKind, dir: Direction)
  {
    match dir
    case Left => kind == Horizontal || kind == Tabbed
    case Right => kind == Horizontal || kind == Tabbed
    case Up => kind == Vertical || kind == Stacked
    case Down => kind == Vertical || kind == Stacked
  }

  predicate RunsAlong(t: Tree, p: NodeId, dir: Direction)
  {
    p in Ids(t.nodes) && Along(Find(t.nodes, p).kind, dir)
  }

  /** The sibling on the side of a direction, in a container that runs that way. */
  ghost predicate Over(t: Tree, id: NodeId, dir: Direction, n: NodeId)
  {
    exists p, j: nat :: RunsAlong(t, p, dir) && ChildAt(t, p, j, id) &&
      if dir == Right || dir == Down then ChildAt(t, p, j + 1, n) else 0 < j && ChildAt(t, p, j - 1, n)
  }

  lemma OverIs(t: Tree, id: NodeId, dir: Direction)
    requires Formed(t) && id in Ids(t.nodes) && id != t.root
    ensures MoveOver(t, id, dir).None? ==> forall n :: !Over(t, id, dir, n)
    ensures MoveOver(t, id, dir).Some? ==> forall n: NodeId :: Over(t, id, dir, n) <==> MoveOver(t, id, dir) == Some(n)
  {
    ParentInTree(t, id);
    var p := Parent(t, id);
    var j := ChildPlace(t, id);
    ChildNext(t.nodes, p, j, dir.Forward());
    forall n: NodeId | Over(t, id, dir, n) ensures MoveOver(t, id, dir) == Some(n) {
      var q, k: nat :| RunsAlong(t, q, dir) && ChildAt(t, q, k, id) &&
        if dir == Right || dir == Down then ChildAt(t, q, k + 1, n) else 0 < k && ChildAt(t, q, k - 1, n);
      ChildParent(t, q, k, id);
      ChildNext(t.nodes, p, k, dir.Forward());
    }
    if MoveOver(t, id, dir).Some? {
      assert RunsAlong(t, p, dir) && ChildAt(t, p, j, id);
    }
  }

  // Down.

  /** The child a container shows the way to: the one it selects, unless it is
      selected itself, or else the first. */
  ghost predicate Leads(t: Tree, a: NodeId, c: NodeId)
  {
    a in Ids(t.nodes) && Find(t.nodes, a).children != [] &&
    c == if a in t.selection && !t.selection[a].stopHere then t.selection[a].child else Find(t.nodes, a).children[0].id
  }

  /** The way down from a sibling: past containers that run the other way, to the
      first child of one that runs along the direction, or to a leaf. */
  ghost predicate WayDown(t: Tree, path: seq<NodeId>, dir: Direction)
  {
    var last := |path| - 1;
    path != [] && (forall i :: 0 <= i <= last ==> path[i] in Ids(t.nodes)) &&
    (forall i :: 0 <= i < last ==> Leads(t, path[i], path[i + 1])) &&
    (forall i :: 0 <= i < last - 1 ==> !RunsAlong(t, path[i], dir)) &&
    (Find(t.nodes, path[last]).children == [] || (last > 0 && RunsAlong(t, path[last - 1], dir)))
  }

  lemma WayDownOn(t: Tree, from: NodeId, rest: seq<NodeId>, dir: Direction)
    requires WayDown(t, rest, dir) && from in Ids(t.nodes) && Leads(t, from, rest[0]) && !RunsAlong(t, from, dir)
    ensures WayDown(t, [from] + rest, dir)
  {
    var path := [from] + rest;
    assert forall i :: 0 < i < |path| ==> path[i] == rest[i - 1];
  }

  lemma {:induction false} DescendsOn(t: Tree, from: NodeId, dir: Direction) returns (path: seq<NodeId>)
    requires Formed(t) && from in Ids(t.nodes)
    ensures WayDown(t, path, dir) && path[0] == from
    ensures path[|path| - 1] == Descend(t.nodes, t.selection, from, dir.Orientation())
    decreases CountOf(Find(t.nodes, from))
  {
    NextDownIsChild(t.nodes, t.selection, from);
    match NextDown(t.nodes, t.selection, from)
    case None => path := [from];
    case Some(next) =>
      if Find(t.nodes, from).kind.Orientation() == dir.Orientation() {
        path := [from, next];
      } else {
        var rest := DescendsOn(t, next, dir);
        WayDownOn(t, from, rest, dir);
        path := [from] + rest;
      }
  }

  // Up.

  /** The node on the way up whose parent is the first that runs along the direction. */
  ghost predicate Climbs(t: Tree, from: NodeId, dir: Direction, n: NodeId)
  {
    OnPath(t, from, n) && (exists p, j: nat :: RunsAlong(t, p, dir) && ChildAt(t, p, j, n)) &&
    forall a, p, j: nat :: OnPath(t, from, a) && a in Ids(Find(t.nodes, n).children) && ChildAt(t, p, j, a) ==> !RunsAlong(t, p, dir)
  }

  /** Nothing above runs along the direction. */
  ghost predicate NoneAbove(t: Tree, from: NodeId, dir: Direction)
  {
    forall a, p, j: nat :: OnPath(t, from, a) && ChildAt(t, p, j, a) ==> !RunsAlong(t, p, dir)
  }

  lemma {:induction false} ClimbsUp(t: Tree, from: NodeId, dir: Direction)
    requires Formed(t) && from in Ids(t.nodes)
    ensures match Climb(t, from, dir.Orientation())
            case None => NoneAbove(t, from, dir)
            case Some(n) => Climbs(t, from, dir, n)
    decreases Count(t.nodes) - CountOf(Find(t.nodes, from))
  {
    OnOwnPath(t, from);
    if from == t.root {
      forall a, p, j: nat | OnPath(t, from, a) && ChildAt(t, p, j, a) ensures false {
        ChildParent(t, p, j, a);
        RootOutside(t, a);
      }
    } else {
      Upward(t, from);
      var up := Parent(t, from);
      var j := ChildPlace(t, from);
      if RunsAlong(t, up, dir) {
        ClimbsHere(t, from, dir, j);
      } else {
        ClimbsUp(t, up, dir);
        ClimbsFurther(t, from, dir);
      }
    }
  }

  lemma ClimbsHere(t: Tree, from: NodeId, dir: Direction, j: nat)
    requires Formed(t) && from in Ids(t.nodes) && from != t.root
    requires RunsAlong(t, Parent(t, from), dir) && ChildAt(t, Parent(t, from), j, from)
    ensures Climbs(t, from, dir, from)
  {
    OnOwnPath(t, from);
    forall a | OnPath(t, from, a) && a in Ids(Find(t.nodes, from).children) ensures false {
      NotUnder(t.nodes, from, a);
    }
  }

  /** On the way up from a node is the node itself and what is on the way up from its parent. */
  lemma PathStep(t: Tree, from: NodeId, a: NodeId)
    requires Formed(t) && from in Ids(t.nodes) && from != t.root
    ensures OnPath(t, from, a) <==> a == from || OnPath(t, Parent(t, from), a)
  {
    OnOwnPath(t, from);
    ParentInTree(t, from);
    if a in Ids(t.nodes) && a != from {
      UnderTop(t, from, a);
      if OnPath(t, from, a) {
        StepWithin(t, from, a);
      }
    }
  }

  lemma ClimbsFurther(t: Tree, from: NodeId, dir: Direction)
    requires Formed(t) && from in Ids(t.nodes) && from != t.root
    requires Parent(t, from) in Ids(t.nodes) && !RunsAlong(t, Parent(t, from), dir)
    ensures NoneAbove(t, Parent(t, from), dir) ==> NoneAbove(t, from, dir)
    ensures forall n :: Climbs(t, Parent(t, from), dir, n) ==> Climbs(t, from, dir, n)
  {
    var up := Parent(t, from);
    forall a, p, j: nat | OnPath(t, from, a) && ChildAt(t, p, j, a)
      ensures (a == from && p == up) || OnPath(t, up, a)
    {
      PathStep(t, from, a);
      ChildParent(t, p, j, a);
    }
    forall n | Climbs(t, up, dir, n) ensures Climbs(t, from, dir, n) {
      PathStep(t, from, n);
    }
  }

  // The goal of a move.

  /** A node goes past a sibling that is a leaf, or in front of what the way down
      from a sibling leads to; without a sibling on that side, past the node on
      the way up whose parent is the first that runs along the direction; and if
      there is none either, it has no goal under the root. */
  lemma GoalIs(t: Tree, id: NodeId, dir: Direction)
    requires Formed(t) && id in Ids(t.nodes) && id != t.root
    ensures match Goal(t, id, dir)
            case Some(Ahead(n)) =>
              (Over(t, id, dir, n) && n in Ids(t.nodes) && Find(t.nodes, n).children == []) ||
              ((forall s :: !Over(t, id, dir, s)) && (exists p, j: nat :: ChildAt(t, p, j, id) && Climbs(t, p, dir, n)))
            case Some(Behind(n)) =>
              exists path :: WayDown(t, path, dir) && |path| > 1 && Over(t, id, dir, path[0]) && path[|path| - 1] == n
            case None =>
              (forall s :: !Over(t, id, dir, s)) && (exists p, j: nat :: ChildAt(t, p, j, id) && NoneAbove(t, p, dir))
  {
    OverIs(t, id, dir);
    ParentInTree(t, id);
    var j := ChildPlace(t, id);
    if MoveOver(t, id, dir).Some? {
      var n := MoveOver(t, id, dir).value;
      SiblingInTree(t, id, dir.Forward());
      var path := DescendsOn(t, n, dir);
      DescendInside(t.nodes, t.selection, n, dir.Orientation());
    } else {
      ClimbsUp(t, Parent(t, id), dir);
    }
  }

  // Selections.

  /** When the selected child of a container leaves, the next child is selected,
      or else the one before, or none; no other selection changes. */
  lemma UnselectedIs(t: Tree, p: NodeId, j: nat, id: NodeId)
    requires Formed(t) && ChildAt(t, p, j, id) && id in Ids(t.nodes)
    ensures var s, kids := Unselected(t, id), Find(t.nodes, p).children;
            (forall q :: q != p ==> (q in s <==> q in t.selection) && (q in s ==> s[q] == t.selection[q])) &&
            if p in t.selection && t.selection[p].child == id then
              if j + 1 < |kids| then p in s && s[p] == Selected(kids[j + 1].id, t.selection[p].stopHere)
              else if 0 < j then p in s && s[p] == Selected(kids[j - 1].id, t.selection[p].stopHere)
              else p !in s
            else s == t.selection
  {
    ChildParent(t, p, j, id);
    ChildNext(t.nodes, p, j, true);
    ChildNext(t.nodes, p, j, false);
  }

  /** On the way up from `id`, below `stop` if that is on the way. */
  predicate Passed(t: Tree, id: NodeId, stop: NodeId, a: NodeId)
  {
    OnPath(t, id, a) && !(OnPath(t, id, stop) && OnPath(t, stop, a))
  }

  lemma PassedStep(t: Tree, id: NodeId, stop: NodeId, a: NodeId)
    requires Formed(t) && id in Ids(t.nodes) && id != t.root && id != stop
    ensures Passed(t, id, stop, a) <==> a == id || Passed(t, Parent(t, id), stop, a)
  {
    OnOwnPath(t, id);
    ParentInTree(t, id);
    PathStep(t, id, a);
    PathStep(t, id, stop);
    if OnPath(t, id, stop) && a == id {
      NotUnder(t.nodes, stop, id);
    }
  }

  /** Selecting on the way up makes each node it passes the selected child of its
      parent, and changes nothing else. */
  lemma {:induction false} SelectUpIs(t: Tree, id: NodeId, stop: NodeId, q: NodeId)
    requires Formed(t) && id in Ids(t.nodes)
    ensures var s := SelectUp(t, id, stop);
            (forall a, j: nat :: ChildAt(t, q, j, a) && Passed(t, id, stop, a) ==> q in s && s[q] == Selected(a, false)) &&
            ((forall a, j: nat :: ChildAt(t, q, j, a) ==> !Passed(t, id, stop, a)) ==>
               (q in s <==> q in t.selection) && (q in s ==> s[q] == t.selection[q]))
    decreases Count(t.nodes) - CountOf(Find(t.nodes, id))
  {
    OnOwnPath(t, id);
    if id == stop || id == t.root {
      forall a, j: nat | ChildAt(t, q, j, a) ensures !Passed(t, id, stop, a) {
        ChildParent(t, q, j, a);
        if id == t.root && OnPath(t, id, a) {
          RootOutside(t, a);
        }
      }
    } else {
      Upward(t, id);
      SelectUpStep(t, id, stop, q);
    }
  }

  lemma {:induction false} SelectUpStep(t: Tree, id: NodeId, stop: NodeId, q: NodeId)
    requires Formed(t) && id in Ids(t.nodes) && id != stop && id != t.root && Parent(t, id) in Ids(t.nodes)
    ensures var s := SelectUp(t, id, stop);
            (forall a, j: nat :: ChildAt(t, q, j, a) && Passed(t, id, stop, a) ==> q in s && s[q] == Selected(a, false)) &&
            ((forall a, j: nat :: ChildAt(t, q, j, a) ==> !Passed(t, id, stop, a)) ==>
               (q in s <==> q in t.selection) && (q in s ==> s[q] == t.selection[q]))
    decreases Count(t.nodes) - CountOf(Find(t.nodes, id)), 0
  {
    Upward(t, id);
    var up := Parent(t, id);
    var k := ChildPlace(t, id);
    TopIn(Find(t.nodes, up).children, k);
    var t' := t.(selection := t.selection[up := Selected(id, false)]);
    SelectUpIs(t', up, stop, q);
    forall a, j: nat | ChildAt(t', q, j, a)
      ensures ChildAt(t, q, j, a) && (Passed(t, id, stop, a) <==> a == id || Passed(t', up, stop, a)) && (a == id ==> q == up)
      ensures q == up ==> !Passed(t', up, stop, a)
    {
      assert ChildAt(t, q, j, a);
      ChildParent(t, q, j, a);
      PassedStep(t, id, stop, a);
      if q == up {
        TopIn(Find(t.nodes, up).children, j);
        TopsInside(Find(t.nodes, up).children);
        NotUnder(t.nodes, up, a);
      }
    }
    forall a, j: nat | ChildAt(t, q, j, a) ensures ChildAt(t', q, j, a) {
    }
    assert ChildAt(t, up, k, id) && Passed(t, id, stop, id) by {
      PassedStep(t, id, stop, id);
    }
  }

  // What is left where a node was.

  /** The container is gone, or has two children, or is the root. */
  predicate Trimmed(t: Tree, p: NodeId)
  {
    p == t.root || p !in Ids(t.nodes) || 2 <= |Find(t.nodes, p).children|
  }

  /** Culling leaves no container behind that has fewer than two children: not the
      one that lost a child, and if that one goes, not the one above it. */
  lemma {:induction false} CullTrims(t: Tree, p: NodeId)
    requires Formed(t) && p in Ids(t.nodes)
    ensures Trimmed(Cull(t, p), p)
    ensures p != t.root && |Find(t.nodes, p).children| < 2 ==> p !in Ids(Cull(t, p).nodes) && Trimmed(Cull(t, p), Parent(t, p))
    decreases Count(t.nodes), |Find(t.nodes, p).children|
  {
    var kids := Find(t.nodes, p).children;
    CullForms(t, p);
    if p == t.root {
    } else if kids == [] {
      RemovedForms(t, p);
      CullForms(Removed(t, p), Parent(t, p));
      CullTrims(Removed(t, p), Parent(t, p));
    } else if |kids| == 1 {
      PromotedForms(t, p);
      PromotedParent(t, p);
      CullTrims(Placed(t, kids[0].id, p, true), p);
    }
  }

  lemma PromotedParent(t: Tree, p: NodeId)
    requires Formed(t) && p in Ids(t.nodes) && p != t.root && |Find(t.nodes, p).children| == 1
    ensures var c := Find(t.nodes, p).children[0].id;
            Movable(t, c, p) && p in Ids(Without(t.nodes, c)) &&
            var t' := Placed(t, c, p, true);
            p in Ids(t'.nodes) && Parent(t', p) == Parent(t, p) && c in Ids(t'.nodes) && Parent(t', c) == Parent(t, p)
  {
    PromotedForms(t, p);
    var c, up := Find(t.nodes, p).children[0].id, Parent(t, p);
    ParentInTree(t, p);
    ParentIs(t.nodes, c, t.root, p);
    TargetParentOutside(t, c, p);
    PlacedKeepsChild(t, c, p, true, up, p);
    ParentIs(Placed(t, c, p, true).nodes, p, t.root, up);
    PlacedBeside(t, c, p, true);
  }

  /** A child that does not move stays a child when another node moves. */
  lemma PlacedKeepsChild(t: Tree, id: NodeId, target: NodeId, behind: bool, q: NodeId, a: NodeId)
    requires Formed(t) && Movable(t, id, target) && q in Ids(t.nodes) && q !in IdsOf(Find(t.nodes, id))
    requires a in Tops(Find(t.nodes, q).children) && a != id
    ensures target in Ids(Without(t.nodes, id)) && q in Ids(Placed(t, id, target, behind).nodes)
    ensures a in Tops(Find(Placed(t, id, target, behind).nodes, q).children)
  {
    Detachable(t, id, target);
    PlacedOutside(t, id, target, behind, q);
    var kids := Find(t.nodes, q).children;
    FindInside(t.nodes, q);
    TopsWithout(kids, id);
    WithoutKeepsDistinct(kids, id);
    if target in Ids(Without(kids, id)) {
      TopsBeside(Without(kids, id), target, Find(t.nodes, id), behind);
    }
  }

  /** A node that is placed has the parent of the node it is placed next to. */
  lemma PlacedBeside(t: Tree, id: NodeId, target: NodeId, behind: bool)
    requires Formed(t) && Movable(t, id, target)
    ensures target in Ids(Without(t.nodes, id)) && id in Ids(Placed(t, id, target, behind).nodes)
    ensures var t', q := Placed(t, id, target, behind), Parent(t, target);
            Formed(t') && q in Ids(t'.nodes) && id in Tops(Find(t'.nodes, q).children) && Parent(t', id) == q &&
            NextTo(t'.nodes, id, !behind) == Some(target)
  {
    Detachable(t, id, target);
    PlacedForms(t, id, target, behind);
    ParentInTree(t, target);
    var q := Parent(t, target);
    TargetParentOutside(t, id, target);
    PlacedOutside(t, id, target, behind, q);
    var kids := Find(t.nodes, q).children;
    FindInside(t.nodes, q);
    TopsWithout(kids, id);
    TopsInside(Without(kids, id));
    WithoutKeepsDistinct(kids, id);
    TopsBeside(Without(kids, id), target, Find(t.nodes, id), behind);
    ParentIs(Placed(t, id, target, behind).nodes, id, t.root, q);
    NextToPlaced(Without(t.nodes, id), target, Find(t.nodes, id), behind);
  }

  lemma TargetParentOutside(t: Tree, id: NodeId, target: NodeId)
    requires Formed(t) && Movable(t, id, target)
    ensures Parent(t, target) in Ids(t.nodes) && Parent(t, target) !in IdsOf(Find(t.nodes, id)) && target != id
  {
    ParentInTree(t, target);
    AboveParent(t, target, id);
  }

  /** Culling leaves a child under its parent, unless it is the culled container,
      or above it, or the parent goes. */
  lemma {:induction false} CullKeepsChild(t: Tree, p: NodeId, q: NodeId, a: NodeId)
    requires Formed(t) && p in Ids(t.nodes) && q in Ids(t.nodes) && a in Ids(t.nodes)
    requires a in Tops(Find(t.nodes, q).children) && p !in IdsOf(Find(t.nodes, a))
    ensures q in Ids(Cull(t, p).nodes) ==> a in Tops(Find(Cull(t, p).nodes, q).children)
    decreases Count(t.nodes), |Find(t.nodes, p).children|
  {
    var kids := Find(t.nodes, p).children;
    CullForms(t, p);
    if p == t.root {
    } else if kids == [] {
      RemovedForms(t, p);
      CullForms(Removed(t, p), Parent(t, p));
      if q != p {
        RemovedKeepsChild(t, p, q, a);
        CullKeepsChild(Removed(t, p), Parent(t, p), q, a);
      }
    } else if |kids| == 1 {
      PromotedForms(t, p);
      if q == p {
        CullTrims(t, p);
      } else {
        PromotedKeepsChild(t, p, q, a);
        CullKeepsChild(Placed(t, kids[0].id, p, true), p, q, a);
      }
    }
  }

  lemma RemovedKeepsChild(t: Tree, p: NodeId, q: NodeId, a: NodeId)
    requires Formed(t) && p in Ids(t.nodes) && p != t.root && Find(t.nodes, p).children == []
    requires q in Ids(t.nodes) && q != p && a in Ids(t.nodes)
    requires a in Tops(Find(t.nodes, q).children) && p !in IdsOf(Find(t.nodes, a))
    ensures var t' := Removed(t, p);
            Formed(t') && Parent(t, p) in Ids(t'.nodes) && q in Ids(t'.nodes) && a in Ids(t'.nodes) &&
            a in Tops(Find(t'.nodes, q).children) && Parent(t, p) !in IdsOf(Find(t'.nodes, a))
  {
    RemovedForms(t, p);
    FindWithout(t.nodes, p, q);
    FindInside(t.nodes, q);
    TopsWithout(Find(t.nodes, q).children, p);
    AboveParent(t, p, a);
    FindWithout(t.nodes, p, a);
    WithoutNone(Find(t.nodes, a).children, p);
  }

  lemma PromotedKeepsChild(t: Tree, p: NodeId, q: NodeId, a: NodeId)
    requires Formed(t) && p in Ids(t.nodes) && p != t.root && |Find(t.nodes, p).children| == 1
    requires q in Ids(t.nodes) && q != p && a in Ids(t.nodes)
    requires a in Tops(Find(t.nodes, q).children) && p !in IdsOf(Find(t.nodes, a))
    ensures var c := Find(t.nodes, p).children[0].id;
            Movable(t, c, p) && p in Ids(Without(t.nodes, c)) &&
            var t' := Placed(t, c, p, true);
            Formed(t') && q in Ids(t'.nodes) && a in Ids(t'.nodes) && a in Tops(Find(t'.nodes, q).children) && p !in IdsOf(Find(t'.nodes, a))
  {
    PromotedForms(t, p);
    PromotionSpares(t, p, a);
    var c := Find(t.nodes, p).children[0].id;
    ParentIs(t.nodes, c, t.root, p);
    ParentIs(t.nodes, a, t.root, q);
    if q in IdsOf(Find(t.nodes, c)) {
      PlacedInside(t, c, p, true, q);
    } else {
      PlacedKeepsChild(t, c, p, true, q, a);
    }
  }

  // Where a moved node is.

  /** A node that goes next to another is then a child of that one's parent, as
      long as that is not culled; and what it left is trimmed. */
  lemma TransferBeside(t: Tree, id: NodeId, target: NodeId, behind: bool)
    requires Formed(t) && Movable(t, id, target)
    ensures var t', q := Transfer(t, id, target, behind), Parent(t, target);
            Formed(t') && (q in Ids(t'.nodes) ==> id in Tops(Find(t'.nodes, q).children)) &&
            (Parent(t, id) != q ==> Trimmed(t', Parent(t, id)))
  {
    Detachable(t, id, target);
    var p, t1 := Parent(t, id), Placed(t, id, target, behind);
    TransferForms(t, id, target, behind);
    PlacedForms(t, id, target, behind);
    PlacedCounts(t, id, target, behind);
    PlacedBeside(t, id, target, behind);
    ParentInTree(t, id);
    if p != Parent(t, target) {
      PlacedInside(t, id, target, behind, id);
      CullKeepsChild(t1, p, Parent(t, target), id);
      CullTrims(t1, p);
    }
  }

  /** A node that goes next to one under a sibling is right next to it. */
  lemma TransferUnderSibling(t: Tree, id: NodeId, target: NodeId, behind: bool)
    requires Formed(t) && Movable(t, id, target) && Parent(t, target) in Ids(t.nodes)
    requires Parent(t, id) !in IdsOf(Find(t.nodes, Parent(t, target)))
    ensures var t', q := Transfer(t, id, target, behind), Parent(t, target);
            Formed(t') && id in Ids(t'.nodes) && q in Ids(t'.nodes) && id in Tops(Find(t'.nodes, q).children) &&
            NextTo(t'.nodes, id, !behind) == Some(target)
  {
    Detachable(t, id, target);
    var p, q, t1 := Parent(t, id), Parent(t, target), Placed(t, id, target, behind);
    TransferForms(t, id, target, behind);
    PlacedForms(t, id, target, behind);
    PlacedCounts(t, id, target, behind);
    PlacedBeside(t, id, target, behind);
    ParentInTree(t, id);
    TargetParentOutside(t, id, target);
    PlacedOutside(t, id, target, behind, q);
    StillOutside(t, id, target, behind, p);
    CullSpares(t1, p, q);
    SameNext(t1, Cull(t1, p), q, id, !behind);
  }

  lemma StillOutside(t: Tree, id: NodeId, target: NodeId, behind: bool, p: NodeId)
    requires Formed(t) && Movable(t, id, target) && Parent(t, target) in Ids(t.nodes)
    requires p !in IdsOf(Find(t.nodes, Parent(t, target))) && p !in IdsOf(Find(t.nodes, id))
    ensures target in Ids(Without(t.nodes, id))
    ensures Parent(t, target) in Ids(Placed(t, id, target, behind).nodes)
    ensures p !in IdsOf(Find(Placed(t, id, target, behind).nodes, Parent(t, target)))
  {
    var q := Parent(t, target);
    Detachable(t, id, target);
    TargetParentOutside(t, id, target);
    PlacedOutside(t, id, target, behind, q);
    var kids := Find(t.nodes, q).children;
    FindInside(t.nodes, q);
    WithoutKeepsDistinct(kids, id);
    if id in Ids(kids) {
      WithoutIds(kids, id);
      FindDown(t.nodes, q, id);
    } else {
      WithoutNone(kids, id);
      Apart(t.nodes, q, id);
    }
    if target in Ids(Without(kids, id)) {
      BesideIds(Without(kids, id), target, Find(t.nodes, id), behind);
    }
  }

  lemma SameNext(t: Tree, t': Tree, q: NodeId, id: NodeId, behind: bool)
    requires Formed(t) && Formed(t') && q in Ids(t.nodes) && q in Ids(t'.nodes) && Find(t'.nodes, q) == Find(t.nodes, q)
    requires id in Tops(Find(t.nodes, q).children)
    ensures id in Ids(t.nodes) && id in Ids(t'.nodes) && NextTo(t'.nodes, id, behind) == NextTo(t.nodes, id, behind)
  {
    var j := TopAt(Find(t.nodes, q).children, id);
    ChildNext(t.nodes, q, j, behind);
    ChildNext(t'.nodes, q, j, behind);
  }

  /** The nodes after a move with a goal. */
  lemma MovedNodes(t: Tree, id: NodeId, dir: Direction, spare: NodeId)
    requires Sound(t) && id in Ids(t.nodes) && id != t.root && spare !in Ids(t.nodes) && Goal(t, id, dir).Some?
    ensures Movable(t, id, Goal(t, id, dir).value.target) && Move(t, id, dir, spare).Some?
    ensures var goal, t' := Goal(t, id, dir).value, Move(t, id, dir, spare).value;
            t'.nodes == Transfer(t, id, goal.target, if goal.Ahead? then dir.Forward() else !dir.Forward()).nodes && t'.root == t.root
  {
    GoalMovable(t, id, dir);
    GoForms(t, id, Goal(t, id, dir).value, dir);
  }

  lemma EndsInFront(t: Tree, id: NodeId, dir: Direction)
    requires Formed(t) && id in Ids(t.nodes) && id != t.root && Goal(t, id, dir).Some? && Goal(t, id, dir).value.Behind?
    ensures var n := Goal(t, id, dir).value.target;
            Movable(t, id, n) &&
            var t' := Transfer(t, id, n, !dir.Forward());
            Formed(t') && id in Ids(t'.nodes) && Parent(t, n) in Ids(t'.nodes) && NextTo(t'.nodes, id, dir.Forward()) == Some(n)
  {
    GoalMovable(t, id, dir);
    UnderSibling(t, id, dir);
    TransferUnderSibling(t, id, Goal(t, id, dir).value.target, !dir.Forward());
  }

  lemma EndsPast(t: Tree, id: NodeId, dir: Direction, n: NodeId)
    requires Formed(t) && id in Ids(t.nodes) && id != t.root && Over(t, id, dir, n)
    ensures Movable(t, id, n)
    ensures var t' := Transfer(t, id, n, dir.Forward());
            Formed(t') && id in Ids(t'.nodes) && Parent(t, n) in Ids(t'.nodes) && NextTo(t'.nodes, id, !dir.Forward()) == Some(n)
  {
    OverIs(t, id, dir);
    SiblingInTree(t, id, dir.Forward());
    Detachable(t, id, n);
    PlacedBeside(t, id, n, dir.Forward());
  }

  /** After a move with a goal, the node is a child of its goal's parent, if that
      is still there; right past a sibling it exchanged places with, or right in
      front of the node it went down to; and what it left is trimmed. */
  lemma MoveEndsBeside(t: Tree, id: NodeId, dir: Direction, spare: NodeId)
    requires Sound(t) && id in Ids(t.nodes) && id != t.root && spare !in Ids(t.nodes) && Goal(t, id, dir).Some?
    ensures Move(t, id, dir, spare).Some? && Goal(t, id, dir).value.target in Ids(t.nodes)
    ensures var t', onward, n := Move(t, id, dir, spare).value, dir == Right || dir == Down, Goal(t, id, dir).value.target;
            var q := Parent(t, n);
            id in Ids(t'.nodes) && (q in Ids(t'.nodes) ==> id in Tops(Find(t'.nodes, q).children)) &&
            (Parent(t, id) != q ==> Trimmed(t', Parent(t, id))) &&
            (Goal(t, id, dir).value.Behind? ==> q in Ids(t'.nodes) && NextTo(t'.nodes, id, onward) == Some(n)) &&
            (Over(t, id, dir, n) && Goal(t, id, dir).value.Ahead? ==> q in Ids(t'.nodes) && NextTo(t'.nodes, id, !onward) == Some(n))
  {
    MovedNodes(t, id, dir, spare);
    var goal := Goal(t, id, dir).value;
    var behind := if goal.Ahead? then dir.Forward() else !dir.Forward();
    TransferBeside(t, id, goal.target, behind);
    TransferIntact(t, id, goal.target, behind);
    if goal.Behind? {
      EndsInFront(t, id, dir);
    } else if Over(t, id, dir, goal.target) {
      EndsPast(t, id, dir, goal.target);
    }
  }

  /** What is under a sibling has a parent that the node's own parent is not under. */
  lemma UnderSibling(t: Tree, id: NodeId, dir: Direction)
    requires Formed(t) && id in Ids(t.nodes) && id != t.root && Goal(t, id, dir).Some? && Goal(t, id, dir).value.Behind?
    ensures var n := Goal(t, id, dir).value.target;
            n in Ids(t.nodes) && Parent(t, n) in Ids(t.nodes) && Parent(t, id) !in IdsOf(Find(t.nodes, Parent(t, n)))
  {
    var sibling := MoveOver(t, id, dir).value;
    SiblingInTree(t, id, dir.Forward());
    DescendInside(t.nodes, t.selection, sibling, dir.Orientation());
    var n := Goal(t, id, dir).value.target;
    FindDown(t.nodes, sibling, n);
    NotUnder(t.nodes, sibling, n);
    StepWithin(t, n, sibling);
    RootOutside(t, sibling);
    ParentInTree(t, sibling);
    ParentInTree(t, n);
    if Parent(t, id) in IdsOf(Find(t.nodes, Parent(t, n))) {
      UnderUnder(t.nodes, Parent(t, id), Parent(t, n), sibling);
    }
  }

  /** Without a goal under the root, the new root runs along the direction and
      has the node for a child, with all windows on its other side. */
  lemma MoveEndsOutside(t: Tree, id: NodeId, dir: Direction, spare: NodeId)
    requires Sound(t) && id in Ids(t.nodes) && id != t.root && spare !in Ids(t.nodes)
    requires Goal(t, id, dir).None? && Move(t, id, dir, spare).Some?
    ensures var t' := Move(t, id, dir, spare).value;
            t'.root == spare && |t'.nodes| == 1 && id in Ids(t'.nodes) && id in Tops(t'.nodes[0].children) &&
            t'.nodes[0].kind == (if dir == Left || dir == Right then Horizontal else Vertical) &&
            (if dir == Right || dir == Down then After(t'.nodes, id) else Before(t'.nodes, id)) == []
  {
    MoveNests(t, id, dir, spare);
    MoveLands(t, id, dir, spare);
  }

  // What stays selected.

  /** Culling changes no selection of a container that the culled one is not under. */
  lemma {:induction false} CullSparesSelection(t: Tree, p: NodeId, q: NodeId)
    requires Formed(t) && p in Ids(t.nodes) && q in Ids(t.nodes) && p !in IdsOf(Find(t.nodes, q))
    ensures q in Cull(t, p).selection <==> q in t.selection
    ensures q in t.selection ==> Cull(t, p).selection[q] == t.selection[q]
    decreases Count(t.nodes), |Find(t.nodes, p).children|
  {
    var kids := Find(t.nodes, p).children;
    if p == t.root {
    } else if kids == [] {
      RemovedForms(t, p);
      RemovedSpares(t, p, q);
      CullSparesSelection(Removed(t, p), Parent(t, p), q);
    } else if |kids| == 1 {
      PromotedForms(t, p);
      PromotedSpares(t, p, q);
      CullSparesSelection(Placed(t, kids[0].id, p, true), p, q);
    }
  }

  predicate SameSelected(t: Tree, t': Tree, q: NodeId)
  {
    (q in t'.selection <==> q in t.selection) && (q in t.selection ==> t'.selection[q] == t.selection[q])
  }

  lemma UnselectedOnly(t: Tree, id: NodeId, q: NodeId)
    requires id in Ids(t.nodes) && q != Parent(t, id)
    ensures SameSelected(t, t.(selection := Unselected(t, id)), q)
  {
  }

  lemma RemovedSpares(t: Tree, p: NodeId, q: NodeId)
    requires Formed(t) && p in Ids(t.nodes) && p != t.root && Find(t.nodes, p).children == []
    requires q in Ids(t.nodes) && p !in IdsOf(Find(t.nodes, q))
    ensures var t' := Removed(t, p);
            Formed(t') && Parent(t, p) in Ids(t'.nodes) && q in Ids(t'.nodes) && Parent(t, p) !in IdsOf(Find(t'.nodes, q)) && SameSelected(t, t', q)
  {
    RemovedForms(t, p);
    RemovedOutside(t, p, q);
    UnselectedOnly(t, p, q);
  }

  lemma RemovedOutside(t: Tree, p: NodeId, q: NodeId)
    requires Formed(t) && p in Ids(t.nodes) && p != t.root && q in Ids(t.nodes) && p !in IdsOf(Find(t.nodes, q))
    requires Find(t.nodes, p).children == []
    ensures q in Ids(Without(t.nodes, p)) && Find(Without(t.nodes, p), q) == Find(t.nodes, q)
    ensures q != p && q != Parent(t, p) && Parent(t, p) !in IdsOf(Find(t.nodes, q))
  {
    AboveParent(t, p, q);
    FindWithout(t.nodes, p, q);
    WithoutNone(Find(t.nodes, q).children, p);
  }

  lemma PromotedSpares(t: Tree, p: NodeId, q: NodeId)
    requires Formed(t) && p in Ids(t.nodes) && p != t.root && |Find(t.nodes, p).children| == 1
    requires q in Ids(t.nodes) && p !in IdsOf(Find(t.nodes, q))
    ensures var c := Find(t.nodes, p).children[0].id;
            Movable(t, c, p) && p in Ids(Without(t.nodes, c)) &&
            var t' := Placed(t, c, p, true);
            Formed(t') && q in Ids(t'.nodes) && p !in IdsOf(Find(t'.nodes, q)) && SameSelected(t, t', q)
  {
    PromotedForms(t, p);
    PromotionSpares(t, p, q);
    PromotedUnselects(t, p, q);
  }

  lemma PromotedUnselects(t: Tree, p: NodeId, q: NodeId)
    requires Formed(t) && p in Ids(t.nodes) && p != t.root && |Find(t.nodes, p).children| == 1 && q != p
    ensures var c := Find(t.nodes, p).children[0].id;
            Movable(t, c, p) && p in Ids(Without(t.nodes, c)) && SameSelected(t, Placed(t, c, p, true), q)
  {
    var c := Find(t.nodes, p).children[0].id;
    PromotedForms(t, p);
    ParentIs(t.nodes, c, t.root, p);
    UnselectedOnly(t, c, q);
  }

  /** A node that goes down under a sibling changes no selection there, unless its
      parent had selected it. */
  lemma UnselectedStaysSo(t: Tree, id: NodeId, dir: Direction, spare: NodeId)
    requires Sound(t) && id in Ids(t.nodes) && id != t.root && spare !in Ids(t.nodes)
    requires Goal(t, id, dir).Some? && Goal(t, id, dir).value.Behind? && LocalSelection(t.selection, Parent(t, id)) != Some(id)
    ensures Move(t, id, dir, spare).Some? && Goal(t, id, dir).value.target in Ids(t.nodes)
    ensures var s, q := Move(t, id, dir, spare).value.selection, Parent(t, Goal(t, id, dir).value.target);
            (q in s <==> q in t.selection) && (q in s ==> s[q] == t.selection[q])
  {
    GoalMovable(t, id, dir);
    UnderSibling(t, id, dir);
    TransferSparesSelection(t, id, Goal(t, id, dir).value.target, !dir.Forward());
  }

  /** Where a node goes down to, no selection changes. */
  lemma TransferSparesSelection(t: Tree, id: NodeId, n: NodeId, behind: bool)
    requires Formed(t) && Movable(t, id, n) && Parent(t, n) in Ids(t.nodes) && Parent(t, id) !in IdsOf(Find(t.nodes, Parent(t, n)))
    ensures SameSelected(t, Transfer(t, id, n, behind), Parent(t, n))
  {
    var p, q := Parent(t, id), Parent(t, n);
    Detachable(t, id, n);
    PlacedForms(t, id, n, behind);
    PlacedCounts(t, id, n, behind);
    ParentInTree(t, id);
    StillOutside(t, id, n, behind, p);
    assert p != q;
    PlacedStays(t, id, n, behind);
    UnselectedOnly(t, id, q);
    CullSparesSelection(Placed(t, id, n, behind), p, q);
  }

  lemma PlacedStays(t: Tree, id: NodeId, n: NodeId, behind: bool)
    requires Formed(t) && Movable(t, id, n)
    ensures n in Ids(Without(t.nodes, id)) && Parent(t, id) in Ids(Placed(t, id, n, behind).nodes)
  {
    ParentInTree(t, id);
    PlacedOutside(t, id, n, behind, Parent(t, id));
  }
}
