/** What shows in a layout, and what selecting a node brings to show, said by
    containers and what they select (`src/model/layout_tree.rs`,
    `src/model/selection.rs`). */
module LayoutShowing {
  import opened LayoutForest
  import opened LayoutTrees
  import opened LayoutMoves
  import opened LayoutVisibility
  import opened LayoutGoals

  /** The container selects this child, and is not selected itself. */
  predicate SelectsChild(t: Tree, p: NodeId, a: NodeId)
  {
    p in t.selection && t.selection[p].child == a && !t.selection[p].stopHere
  }

  predicate ShowsOne(t: Tree, p: NodeId)
  {
    p in Ids(t.nodes) && (Find(t.nodes, p).kind == Tabbed || Find(t.nodes, p).kind == Stacked)
  }

  /** A child of a tabbed or stacked container shows when that selects it. */
  ghost predicate ParentShows(t: Tree, a: NodeId)
  {
    forall p, j: nat :: ChildAt(t, p, j, a) && ShowsOne(t, p) ==> SelectsChild(t, p, a)
  }

  /** A node shows under another that it is under if every node on the way up to
      that is shown by its parent. */
  ghost predicate ShowsUnder(t: Tree, id: NodeId, top: NodeId)
  {
    OnPath(t, id, top) && forall a :: OnPath(t, id, a) && a in Ids(Find(t.nodes, top).children) ==> ParentShows(t, a)
  }

  lemma OpenIs(t: Tree, id: NodeId)
    requires Formed(t) && id in Ids(t.nodes)
    ensures Open(t, id) <==> ParentShows(t, id)
  {
    if id == t.root {
      forall p, j: nat | ChildAt(t, p, j, id) ensures false {
        ChildParent(t, p, j, id);
      }
    } else {
      ParentInTree(t, id);
      var k := ChildPlace(t, id);
      forall p, j: nat | ChildAt(t, p, j, id) ensures p == Parent(t, id) {
        ChildParent(t, p, j, id);
      }
      assert ChildAt(t, Parent(t, id), k, id);
    }
  }

  lemma UnderStep(t: Tree, id: NodeId, top: NodeId)
    requires Formed(t) && id in Ids(t.nodes) && id != t.root && id != top && Parent(t, id) in Ids(t.nodes)
    ensures ShowsUnder(t, id, top) <==> ParentShows(t, id) && ShowsUnder(t, Parent(t, id), top)
  {
    var p := Parent(t, id);
    OnOwnPath(t, id);
    PathStep(t, id, top);
    forall a ensures OnPath(t, id, a) <==> a == id || OnPath(t, p, a) {
      PathStep(t, id, a);
    }
    if OnPath(t, id, top) {
      assert id in Ids(Find(t.nodes, top).children);
    }
  }

  lemma {:induction false} UpToIs(t: Tree, id: NodeId, top: NodeId)
    requires Formed(t) && id in Ids(t.nodes) && top in Ids(t.nodes)
    ensures UpTo(t, id, top) <==> ShowsUnder(t, id, top)
    decreases Count(t.nodes) - CountOf(Find(t.nodes, id))
  {
    OnOwnPath(t, id);
    OpenIs(t, id);
    if id == top {
      forall a | OnPath(t, id, a) && a in Ids(Find(t.nodes, top).children) ensures false {
        NotUnder(t.nodes, top, a);
      }
    } else if id == t.root {
      RootOutside(t, top);
    } else {
      Upward(t, id);
      UnderStep(t, id, top);
      UpToIs(t, Parent(t, id), top);
    }
  }

  /** A node is visible when every tabbed or stacked container above it selects
      the child that leads to it. */
  lemma VisibleIs(t: Tree, id: NodeId)
    requires Formed(t) && id in Ids(t.nodes)
    ensures IsVisible(t, id) <==> forall a :: OnPath(t, id, a) ==> ParentShows(t, a)
  {
    UnderRoot(t, id);
    UpToIs(t, id, t.root);
    RootIsFirst(t);
    OpenIs(t, t.root);
    OnOwnPath(t, id);
    forall a | OnPath(t, id, a) ensures a == t.root || a in Ids(Find(t.nodes, t.root).children) {
      UnderRoot(t, a);
    }
  }

  // Selecting.

  /** Selecting the node in its tabbed or stacked parent is reported as a change
      of the selected child. */
  ghost predicate Reported(t: Tree, a: NodeId)
  {
    exists p, j: nat :: ChildAt(t, p, j, a) && ShowsOne(t, p) && !(p in t.selection && t.selection[p].child == a)
  }

  /** The highest reported node on the way up, or the node itself. */
  ghost predicate HighestReported(t: Tree, id: NodeId, h: NodeId)
  {
    OnPath(t, id, h) && (h == id || Reported(t, h)) && forall a :: OnPath(t, id, a) && Reported(t, a) ==> OnPath(t, a, h)
  }

  lemma ReportedIs(t: Tree, a: NodeId)
    requires Formed(t) && a in Ids(t.nodes) && a != t.root && Parent(t, a) in Ids(t.nodes)
    ensures Reported(t, a) <==> Changes(t, a) && Find(t.nodes, Parent(t, a)).kind.IsGroup()
  {
    var k := ChildPlace(t, a);
    forall p, j: nat | ChildAt(t, p, j, a) ensures p == Parent(t, a) {
      ChildParent(t, p, j, a);
    }
    assert ChildAt(t, Parent(t, a), k, a);
  }

  lemma {:induction false} HighestFrom(t: Tree, id: NodeId, a: NodeId, best: NodeId)
    requires Formed(t) && id in Ids(t.nodes) && OnPath(t, id, a) && OnPath(t, id, best) && OnPath(t, best, a)
    requires best == id || Reported(t, best)
    requires forall b :: OnPath(t, id, b) && Reported(t, b) && b != a && OnPath(t, b, a) ==> OnPath(t, b, best)
    ensures HighestReported(t, id, Highest(t, a, best))
    decreases Count(t.nodes) - CountOf(Find(t.nodes, a))
  {
    if a == t.root {
      forall b | OnPath(t, id, b) && Reported(t, b) ensures OnPath(t, b, best) {
        OnOwnPath(t, b);
        RootNotReported(t, b);
      }
    } else {
      PathUp(t, id, a);
      Upward(t, a);
      ReportedIs(t, a);
      HighestNext(t, id, a, best);
      HighestFrom(t, id, Parent(t, a), if Reported(t, a) then a else best);
    }
  }

  lemma RootNotReported(t: Tree, b: NodeId)
    requires Formed(t) && b in Ids(t.nodes)
    ensures Reported(t, b) ==> b != t.root
  {
    forall p, j: nat | ChildAt(t, p, j, b) ensures b != t.root {
      ChildParent(t, p, j, b);
    }
  }

  lemma HighestNext(t: Tree, id: NodeId, a: NodeId, best: NodeId)
    requires Formed(t) && id in Ids(t.nodes) && OnPath(t, id, a) && OnPath(t, id, best) && OnPath(t, best, a) && a != t.root
    requires Parent(t, a) in Ids(t.nodes)
    requires forall b :: OnPath(t, id, b) && Reported(t, b) && b != a && OnPath(t, b, a) ==> OnPath(t, b, best)
    ensures var p, next := Parent(t, a), if Reported(t, a) then a else best;
            OnPath(t, id, p) && OnPath(t, next, p) &&
            forall b :: OnPath(t, id, b) && Reported(t, b) && b != p && OnPath(t, b, p) ==> OnPath(t, b, next)
  {
    var p, next := Parent(t, a), if Reported(t, a) then a else best;
    PathUp(t, id, a);
    UnderUnder(t.nodes, best, a, p);
    OnOwnPath(t, a);
    forall b | OnPath(t, id, b) && Reported(t, b) && b != p && OnPath(t, b, p) ensures OnPath(t, b, next) {
      OnOwnPath(t, b);
      if b !in IdsOf(Find(t.nodes, a)) {
        OffPath(t, id, a, b);
      }
    }
  }

  /** Selecting a node selects each node on the way up in its parent, and changes
      no other selection. */
  lemma SelectingIs(t: Tree, id: NodeId, q: NodeId)
    requires Formed(t) && id in Ids(t.nodes)
    ensures var s := Selecting(t, id).selection;
            Selecting(t, id) == t.(selection := s) &&
            (forall a, j: nat :: ChildAt(t, q, j, a) && OnPath(t, id, a) ==> q in s && s[q] == Selected(a, false)) &&
            ((forall a, j: nat :: ChildAt(t, q, j, a) ==> !OnPath(t, id, a)) ==>
               (q in s <==> q in t.selection) && (q in s ==> s[q] == t.selection[q]))
  {
    SelectUpIs(t, id, t.root, q);
    forall a, j: nat | ChildAt(t, q, j, a) && OnPath(t, id, a) ensures Passed(t, id, t.root, a) {
      ChildParent(t, q, j, a);
      RootOutside(t, a);
    }
  }

  /** What is returned is what shows, once the node is selected, under the highest
      node on the way up that was reported, or else under the node. */
  lemma ReturnedIs(t: Tree, id: NodeId, n: NodeId)
    requires Formed(t) && id in Ids(t.nodes) && n in Ids(t.nodes)
    ensures exists h :: HighestReported(t, id, h) && (Returned(t, id, n) <==> ShowsUnder(Selecting(t, id), n, h))
  {
    OnOwnPath(t, id);
    forall b | OnPath(t, id, b) && Reported(t, b) && b != id && OnPath(t, b, id) ensures OnPath(t, b, id) {
    }
    HighestFrom(t, id, id, id);
    SelectingForms(t, id);
    UpToIs(Selecting(t, id), n, Highest(t, id, id));
  }
}
