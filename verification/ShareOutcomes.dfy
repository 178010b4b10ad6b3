/** When a size share is applied, released or refused (`src/actor/layout.rs`,
    `set_size_share`), and for which windows it counts. */
module ShareOutcomes {
  import opened Options
  import opened Windows
  import opened LayoutForest
  import opened LayoutTrees
  import opened LayoutMoves
  import opened LayoutVisibility
  import opened SizeShares

  predicate IsTabbedOrStacked(t: Tree, a: NodeId)
  {
    a in Ids(t.nodes) && (Find(t.nodes, a).kind == Tabbed || Find(t.nodes, a).kind == Stacked)
  }

  /** The highest tabbed or stacked node on the way up, or the node itself. */
  ghost predicate Outermost(t: Tree, id: NodeId, e: NodeId)
  {
    OnPath(t, id, e) && (e == id || IsTabbedOrStacked(t, e)) &&
    forall a :: OnPath(t, id, a) && IsTabbedOrStacked(t, a) ==> OnPath(t, a, e)
  }

  lemma {:induction false} EstateHighest(t: Tree, id: NodeId, a: NodeId, best: NodeId)
    requires Formed(t) && id in Ids(t.nodes) && OnPath(t, id, a) && OnPath(t, id, best) && OnPath(t, best, a)
    requires best == id || IsTabbedOrStacked(t, best)
    requires forall b :: OnPath(t, id, b) && IsTabbedOrStacked(t, b) && b != a && OnPath(t, b, a) ==> OnPath(t, b, best)
    ensures Outermost(t, id, EstateFrom(t, a, best))
    decreases Count(t.nodes) - CountOf(Find(t.nodes, a))
  {
    var next := if IsTabbedOrStacked(t, a) then a else best;
    if a == t.root {
      forall b | OnPath(t, id, b) && IsTabbedOrStacked(t, b) ensures OnPath(t, b, next) {
        OnOwnPath(t, b);
      }
    } else {
      PathUp(t, id, a);
      Upward(t, a);
      var p := Parent(t, a);
      UnderUnder(t.nodes, best, a, p);
      OnOwnPath(t, a);
      forall b | OnPath(t, id, b) && IsTabbedOrStacked(t, b) && b != p && OnPath(t, b, p) ensures OnPath(t, b, next) {
        BelowParent(t, id, a, b);
        OnOwnPath(t, b);
      }
      EstateHighest(t, id, p, next);
    }
  }

  /** Of the nodes on the way up, those below the parent of one are that one or below it. */
  lemma BelowParent(t: Tree, id: NodeId, a: NodeId, b: NodeId)
    requires Formed(t) && OnPath(t, id, a) && a != t.root && OnPath(t, id, b)
    requires Parent(t, a) in Ids(t.nodes) && b != Parent(t, a) && OnPath(t, b, Parent(t, a))
    ensures OnPath(t, b, a)
  {
    var p := Parent(t, a);
    PathUp(t, id, a);
    if b !in IdsOf(Find(t.nodes, a)) {
      OffPath(t, id, a, b);
    }
  }

  /** The estate of a node is the highest tabbed or stacked node on the way up, or
      else the node itself. */
  lemma EstateIsOutermost(t: Tree, id: NodeId)
    requires Formed(t) && id in Ids(t.nodes)
    ensures Outermost(t, id, EstateNode(t, id))
  {
    OnOwnPath(t, id);
    forall b | OnPath(t, id, b) && b != id && OnPath(t, b, id) ensures false {
      NotUnder(t.nodes, b, id);
    }
    EstateHighest(t, id, id, id);
  }

  /** The lock of some windows is the greatest lock among them. */
  lemma {:induction false} MaxLockIs(ls: seq<Leaf>, locks: Locks)
    ensures MaxLock(ls, locks).None? <==> forall leaf <- ls :: leaf.1 !in locks
    ensures MaxLock(ls, locks).Some? ==>
              (exists leaf <- ls :: leaf.1 in locks && locks[leaf.1] == MaxLock(ls, locks).value) &&
              forall leaf <- ls :: leaf.1 in locks ==> locks[leaf.1] <= MaxLock(ls, locks).value
  {
    if ls != [] {
      MaxLockIs(ls[1..], locks);
      assert ls == [ls[0]] + ls[1..];
    }
  }

  /** The lock of an estate, seen from any window in it. */
  lemma EstateLockIsGreatest(t: Tree, locks: Locks, id: NodeId)
    requires Sound(t) && id in Ids(t.nodes)
    ensures EstateNode(t, id) in Ids(t.nodes)
    ensures var ls, lock := LeavesOf(Find(t.nodes, EstateNode(t, id))), EstateLock(t, locks, id);
            (lock.None? <==> forall leaf <- ls :: leaf.1 !in locks) &&
            (lock.Some? ==>
               (exists leaf <- ls :: leaf.1 in locks && locks[leaf.1] == lock.value) &&
               forall leaf <- ls :: leaf.1 in locks ==> locks[leaf.1] <= lock.value)
  {
    EstateLockIs(t, locks, id);
    MaxLockIs(LeavesOf(Find(t.nodes, EstateNode(t, id))), locks);
  }

  /** What the locks would come to with the share in place of all the estate holds. */
  function WouldTotal(t: Tree, locks: Locks, wid: WindowId, id: NodeId, share: real): real
    requires Formed(t) && id in Ids(t.nodes)
  {
    TotalDown(t.nodes, (locks - WindowsAmong(EstateLeaves(t, id)))[wid := share])
  }

  /** A share is released if the estate holds just that share; it is refused if
      the locks would then come to more than the whole, where that is to be
      refused; and it is applied in all other cases, also in place of another one
      that the estate holds. */
  lemma OutcomeIs(t: Tree, locks: Locks, wid: WindowId, id: NodeId, share: real, overflow: Overflow)
    requires Sound(t) && OneNodeEach(t) && id in Ids(t.nodes) && Find(t.nodes, id).window == Some(wid)
    ensures var held, feedback := EstateLock(t, locks, id), SetShare(t, locks, wid, id, share, overflow).1;
            var same := held.Some? && -1.0 < (held.value - share) * 1000000.0 < 1.0;
            var tooMuch := 1.0 < (WouldTotal(t, locks, wid, id, share) - 1.0) * 1000000000.0;
            feedback.wid == wid && feedback.share == (if same then held.value else share) &&
            feedback.outcome == if same then Released else if tooMuch && overflow == Reject then Rejected else Applied
  {
    TotalAfter(t, locks, wid, id, share);
  }

  /** A share that fits next to the locks of the other estates is never refused. */
  lemma FittingIsNotRefused(t: Tree, locks: Locks, wid: WindowId, id: NodeId, share: real, overflow: Overflow)
    requires Sound(t) && OneNodeEach(t) && id in Ids(t.nodes) && Find(t.nodes, id).window == Some(wid)
    requires TotalDown(t.nodes, locks - WindowsAmong(EstateLeaves(t, id))) + share <= 1.0
    ensures SetShare(t, locks, wid, id, share, overflow).1.outcome != Rejected
  {
    TotalAfter(t, locks, wid, id, share);
  }

  /** A share strictly between nothing and all, as it is given or as one part in so many. */
  predicate Means(share: Requested, value: real)
  {
    0.0 < value < 1.0 && if share.Fraction? then value == share.share else share.denominator >= 2 && value * share.denominator as real == 1.0
  }

  lemma MeansIs(share: Requested, value: real)
    ensures Means(share, value) <==> ShareOf(share) == Some(value)
  {
    if share.Denominator? && share.denominator >= 2 {
      var d := share.denominator as real;
      assert 1.0 / d * d == 1.0;
      if value * d == 1.0 {
        assert value == 1.0 / d;
      }
    }
  }

  /** The command sets the share it means for the focused window of the layout,
      and does nothing without one, or without a valid share. */
  lemma CommandIs(t: Tree, locks: Locks, focus: Option<WindowId>, share: Requested, overflow: Overflow)
    requires Sound(t) && OneNodeEach(t)
    ensures var result := Command(t, locks, focus, share, overflow);
            (forall value, id :: Means(share, value) && focus.Some? && (id, focus.value) in Leaves(t.nodes) ==>
               id in Ids(t.nodes) &&
               var (after, feedback) := SetShare(t, locks, focus.value, id, value, overflow);
               result == (after, Some(feedback))) &&
            ((forall value, id :: !(Means(share, value) && focus.Some? && (id, focus.value) in Leaves(t.nodes))) ==> result == (locks, None))
  {
    if focus.Some? {
      NodeOfIs(Leaves(t.nodes), focus.value);
      LeavesInside(t.nodes);
    }
    forall value ensures Means(share, value) <==> ShareOf(share) == Some(value) {
      MeansIs(share, value);
    }
  }
}
