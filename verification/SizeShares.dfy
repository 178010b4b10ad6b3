/** Locks on the share of the tiled area a window's estate holds
    (`src/actor/layout.rs`, `set_size_share`; `src/model/layout_tree.rs`,
    `estate_node`, `estate_size_lock`, `locked_share_total`). An estate is an
    outermost group, or a window that is in no group. */
module SizeShares {
  import opened Options
  import opened Reals
  import opened Windows
  import opened LayoutForest
  import opened LayoutTrees
  import opened LayoutMoves
  import opened LayoutVisibility

  type Locks = map<WindowId, real>

  // The estate of a node, from the node up and from the root down.

  /** The loop over a node's ancestors. */
  function EstateFrom(t: Tree, a: NodeId, best: NodeId): NodeId
    requires Formed(t) && a in Ids(t.nodes)
    decreases Count(t.nodes) - CountOf(Find(t.nodes, a))
  {
    var estate := if Find(t.nodes, a).kind.IsGroup() then a else best;
    if a == t.root then estate
    else
      Upward(t, a);
      EstateFrom(t, Parent(t, a), estate)
  }

  function EstateNode(t: Tree, id: NodeId): NodeId
    requires Formed(t) && id in Ids(t.nodes)
  {
    EstateFrom(t, id, id)
  }

  function EstateDown(ts: seq<Node>, id: NodeId): NodeId
    requires id in Ids(ts)
  {
    var n := ts[0];
    if id in IdsOf(n) then
      if n.kind.IsGroup() || n.id == id then n.id else EstateDown(n.children, id)
    else EstateDown(ts[1..], id)
  }

  /** The first group on the way down to a node, if there is one. */
  function GroupDown(ts: seq<Node>, id: NodeId): Option<NodeId>
    requires id in Ids(ts)
  {
    var n := ts[0];
    if id in IdsOf(n) then
      if n.kind.IsGroup() then Some(n.id) else if n.id == id then None else GroupDown(n.children, id)
    else GroupDown(ts[1..], id)
  }

  lemma {:induction false} DownIsGroupDown(ts: seq<Node>, id: NodeId)
    requires id in Ids(ts)
    ensures EstateDown(ts, id) == if GroupDown(ts, id).Some? then GroupDown(ts, id).value else id
  {
    var n := ts[0];
    if id in IdsOf(n) {
      if !n.kind.IsGroup() && n.id != id {
        DownIsGroupDown(n.children, id);
      }
    } else {
      DownIsGroupDown(ts[1..], id);
    }
  }

  /** The first group on the way down to a node is the one on the way to its parent, or the node itself. */
  lemma {:induction false} GroupDownStep(ts: seq<Node>, id: NodeId, above: NodeId)
    requires Distinct(ts) && id in Ids(ts) && above !in Ids(ts)
    ensures var p := ParentOf(ts, id, above);
            GroupDown(ts, id) ==
            if p != above && GroupDown(ts, p).Some? then GroupDown(ts, p)
            else if Find(ts, id).kind.IsGroup() then Some(id) else None
  {
    var n, rest := ts[0], ts[1..];
    ParentFacts(ts, id, above);
    FindInside(ts, id);
    if n.id == id {
    } else if id in Ids(n.children) {
      ParentFacts(n.children, id, n.id);
      GroupDownStep(n.children, id, n.id);
    } else {
      ParentFacts(rest, id, above);
      GroupDownStep(rest, id, above);
    }
  }

  lemma {:induction false} EstateFromIs(t: Tree, a: NodeId, best: NodeId)
    requires Formed(t) && a in Ids(t.nodes)
    ensures EstateFrom(t, a, best) == if GroupDown(t.nodes, a).Some? then GroupDown(t.nodes, a).value else best
    decreases Count(t.nodes) - CountOf(Find(t.nodes, a))
  {
    var root := t.nodes[0];
    assert t.nodes[1..] == [];
    if a == t.root {
    } else {
      Upward(t, a);
      var p := Parent(t, a);
      EstateFromIs(t, p, if Find(t.nodes, a).kind.IsGroup() then a else best);
      GroupDownStep(root.children, a, t.root);
      ParentFacts(root.children, a, t.root);
    }
  }

  /** Both ways lead to the same estate. */
  lemma EstateBothWays(t: Tree, id: NodeId)
    requires Formed(t) && id in Ids(t.nodes)
    ensures EstateNode(t, id) == EstateDown(t.nodes, id)
  {
    EstateFromIs(t, id, id);
    DownIsGroupDown(t.nodes, id);
  }

  // Locks.

  /** The greatest lock among some windows. */
  function MaxLock(ls: seq<Leaf>, locks: Locks): Option<real>
  {
    if ls == [] then None
    else
      var rest := MaxLock(ls[1..], locks);
      if ls[0].1 !in locks then rest
      else if rest.Some? && rest.value > locks[ls[0].1] then rest
      else Some(locks[ls[0].1])
  }

  function OrZero(lock: Option<real>): real
  {
    if lock.Some? then lock.value else 0.0
  }

  /** The lock on a node's estate. */
  function EstateLock(t: Tree, locks: Locks, id: NodeId): Option<real>
    requires Formed(t) && id in Ids(t.nodes)
  {
    EstateFound(t, id);
    var estate := Find(t.nodes, EstateNode(t, id));
    if estate.window.Some? then (if estate.window.value in locks then Some(locks[estate.window.value]) else None)
    else MaxLock(LeavesOf(estate), locks)
  }

  lemma {:induction false} EstateHolds(ts: seq<Node>, id: NodeId)
    requires Distinct(ts) && id in Ids(ts)
    ensures EstateDown(ts, id) in Ids(ts) && id in IdsOf(Find(ts, EstateDown(ts, id)))
  {
    var n := ts[0];
    if id in IdsOf(n) {
      if !n.kind.IsGroup() && n.id != id {
        EstateHolds(n.children, id);
      }
    } else {
      EstateHolds(ts[1..], id);
    }
  }

  lemma EstateFound(t: Tree, id: NodeId)
    requires Formed(t) && id in Ids(t.nodes)
    ensures EstateNode(t, id) in Ids(t.nodes) && id in IdsOf(Find(t.nodes, EstateNode(t, id)))
  {
    EstateBothWays(t, id);
    EstateHolds(t.nodes, id);
  }

  lemma EstateLockIs(t: Tree, locks: Locks, id: NodeId)
    requires Sound(t) && id in Ids(t.nodes)
    ensures EstateNode(t, id) in Ids(t.nodes)
    ensures EstateLock(t, locks, id) == MaxLock(LeavesOf(Find(t.nodes, EstateNode(t, id))), locks)
  {
    EstateFound(t, id);
    var estate := Find(t.nodes, EstateNode(t, id));
    ProperFound(t.nodes, {t.root}, estate.id);
    if estate.window.Some? {
      assert LeavesOf(estate) == [(estate.id, estate.window.value)];
      assert MaxLock([], locks) == None;
    }
  }

  /** A window's estate, and so the estate's lock, is the same from every window in it. */
  lemma {:induction false} EstateOfOthers(ts: seq<Node>, id: NodeId, other: NodeId, holes: set<NodeId>)
    requires Distinct(ts) && Proper(ts, holes) && id in Ids(ts) && Find(ts, id).window.Some?
    requires EstateDown(ts, id) in Ids(ts) && other in IdsOf(Find(ts, EstateDown(ts, id)))
    ensures other in Ids(ts) && EstateDown(ts, other) == EstateDown(ts, id)
  {
    var n, rest := ts[0], ts[1..];
    EstateHolds(ts, id);
    if id in IdsOf(n) {
      if !n.kind.IsGroup() && n.id != id {
        EstateHolds(n.children, id);
        FindInside(n.children, EstateDown(n.children, id));
        EstateOfOthers(n.children, id, other, holes);
      }
    } else {
      EstateHolds(rest, id);
      FindInside(rest, EstateDown(rest, id));
      EstateOfOthers(rest, id, other, holes);
    }
  }

  // The total.

  /** The sum of the locks on the estates of a forest, from the root down. */
  function TotalDown(ts: seq<Node>, locks: Locks): real
  {
    if ts == [] then 0.0
    else (if ts[0].kind.IsGroup() || ts[0].children == [] then OrZero(MaxLock(LeavesOf(ts[0]), locks))
          else TotalDown(ts[0].children, locks))
         + TotalDown(ts[1..], locks)
  }

  /** The sum over the windows that the loop has still to go through, with the estates it has counted. */
  function SumFrom(ts: seq<Node>, locks: Locks, ls: seq<Leaf>, seen: set<NodeId>): real
    requires Distinct(ts) && forall leaf <- ls :: leaf.0 in Ids(ts)
    decreases |ls|
  {
    if ls == [] then 0.0
    else
      var e := EstateDown(ts, ls[0].0);
      EstateHolds(ts, ls[0].0);
      (if e in seen then 0.0 else OrZero(MaxLock(LeavesOf(Find(ts, e)), locks))) + SumFrom(ts, locks, ls[1..], seen + {e})
  }

  /** The estates of some leaves. */
  function Estates(ts: seq<Node>, ls: seq<Leaf>): set<NodeId>
    requires forall leaf <- ls :: leaf.0 in Ids(ts)
  {
    set leaf <- ls :: EstateDown(ts, leaf.0)
  }

  lemma SumCons(ts: seq<Node>, locks: Locks, leaf: Leaf, ls: seq<Leaf>, seen: set<NodeId>)
    requires Distinct(ts) && leaf.0 in Ids(ts) && forall l <- ls :: l.0 in Ids(ts)
    ensures forall l <- [leaf] + ls :: l.0 in Ids(ts)
    ensures EstateDown(ts, leaf.0) in Ids(ts)
    ensures var e := EstateDown(ts, leaf.0);
            SumFrom(ts, locks, [leaf] + ls, seen) ==
            (if e in seen then 0.0 else OrZero(MaxLock(LeavesOf(Find(ts, e)), locks))) + SumFrom(ts, locks, ls, seen + {e})
  {
    EstateHolds(ts, leaf.0);
    assert ([leaf] + ls)[1..] == ls;
  }

  lemma EstatesCons(ts: seq<Node>, leaf: Leaf, ls: seq<Leaf>, seen: set<NodeId>)
    requires leaf.0 in Ids(ts) && forall l <- ls :: l.0 in Ids(ts)
    ensures forall l <- [leaf] + ls :: l.0 in Ids(ts)
    ensures seen + {EstateDown(ts, leaf.0)} + Estates(ts, ls) == seen + Estates(ts, [leaf] + ls)
  {
  }

  lemma {:induction false} SumJoined(ts: seq<Node>, locks: Locks, a: seq<Leaf>, b: seq<Leaf>, seen: set<NodeId>)
    requires Distinct(ts) && (forall leaf <- a :: leaf.0 in Ids(ts)) && (forall leaf <- b :: leaf.0 in Ids(ts))
    ensures forall leaf <- a + b :: leaf.0 in Ids(ts)
    ensures SumFrom(ts, locks, a + b, seen) == SumFrom(ts, locks, a, seen) + SumFrom(ts, locks, b, seen + Estates(ts, a))
    decreases |a|
  {
    if a == [] {
      assert a + b == b;
      assert seen + Estates(ts, a) == seen;
    } else {
      var first, rest := a[0], a[1..];
      assert a == [first] + rest;
      Associate([first], rest, b);
      SumJoined(ts, locks, rest, b, seen + {EstateDown(ts, first.0)});
      SumCons(ts, locks, first, rest, seen);
      SumCons(ts, locks, first, rest + b, seen);
      EstatesCons(ts, first, rest, seen);
    }
  }

  /** The windows of one estate count once. */
  lemma {:induction false} SumOne(ts: seq<Node>, locks: Locks, ls: seq<Leaf>, e: NodeId, seen: set<NodeId>)
    requires Distinct(ts) && e in Ids(ts) && forall leaf <- ls :: leaf.0 in Ids(ts) && EstateDown(ts, leaf.0) == e
    ensures SumFrom(ts, locks, ls, seen) == if ls == [] || e in seen then 0.0 else OrZero(MaxLock(LeavesOf(Find(ts, e)), locks))
    decreases |ls|
  {
    if ls != [] {
      SumOne(ts, locks, ls[1..], e, seen + {e});
    }
  }

  /** How the estates of a part of the forest look from the whole of it. */
  ghost predicate PartOf(ts: seq<Node>, part: seq<Node>)
  {
    forall id <- Ids(part) :: id in Ids(ts) && EstateDown(ts, id) == EstateDown(part, id) && Find(ts, id) == Find(part, id)
  }

  lemma PartParts(ts: seq<Node>, part: seq<Node>)
    requires Distinct(part) && part != [] && PartOf(ts, part)
    ensures PartOf(ts, part[1..])
    ensures !part[0].kind.IsGroup() ==> PartOf(ts, part[0].children)
  {
  }

  /** The estates of what is in a node are in it. */
  lemma EstatesOfFirst(ts: seq<Node>, part: seq<Node>)
    requires Distinct(part) && part != [] && PartOf(ts, part)
    ensures forall leaf <- LeavesOf(part[0]) :: leaf.0 in IdsOf(part[0]) && leaf.0 in Ids(ts)
    ensures Estates(ts, LeavesOf(part[0])) <= IdsOf(part[0])
    ensures part[0].kind.IsGroup() || part[0].children == [] ==>
              forall leaf <- LeavesOf(part[0]) :: EstateDown(ts, leaf.0) == part[0].id
  {
    var n := part[0];
    LeavesInside(n.children);
    forall leaf <- LeavesOf(n) ensures leaf.0 in IdsOf(n) && leaf.0 in Ids(ts) && EstateDown(ts, leaf.0) in IdsOf(n) {
      assert leaf.0 in Ids(part);
      if leaf.0 != n.id && !n.kind.IsGroup() {
        EstateHolds(n.children, leaf.0);
      }
    }
  }

  /** A node that is an estate of its own. */
  lemma SumEstate(ts: seq<Node>, locks: Locks, part: seq<Node>, seen: set<NodeId>)
    requires Distinct(ts) && Distinct(part) && part != [] && PartOf(ts, part) && seen !! Ids(part)
    requires part[0].kind.IsGroup() || part[0].children == []
    ensures forall leaf <- LeavesOf(part[0]) :: leaf.0 in Ids(ts)
    ensures SumFrom(ts, locks, LeavesOf(part[0]), seen) == OrZero(MaxLock(LeavesOf(part[0]), locks))
  {
    var n := part[0];
    EstatesOfFirst(ts, part);
    assert n.id in Ids(part) && Find(part, n.id) == n;
    SumOne(ts, locks, LeavesOf(n), n.id, seen);
  }

  lemma LeavesOfPart(ts: seq<Node>, part: seq<Node>)
    requires PartOf(ts, part)
    ensures forall leaf <- Leaves(part) :: leaf.0 in Ids(part) && leaf.0 in Ids(ts)
  {
    LeavesInside(part);
  }

  /** What the first node adds. */
  function Head(n: Node, locks: Locks): real
  {
    if n.kind.IsGroup() || n.children == [] then OrZero(MaxLock(LeavesOf(n), locks)) else TotalDown(n.children, locks)
  }

  lemma {:induction false} SumHead(ts: seq<Node>, locks: Locks, part: seq<Node>, seen: set<NodeId>, holes: set<NodeId>)
    requires Distinct(ts) && Distinct(part) && part != [] && PartOf(ts, part) && seen !! Ids(part) && Proper(part, holes)
    ensures forall leaf <- LeavesOf(part[0]) :: leaf.0 in Ids(ts)
    ensures SumFrom(ts, locks, LeavesOf(part[0]), seen) == Head(part[0], locks)
    decreases part, 0
  {
    var n := part[0];
    if n.kind.IsGroup() || n.children == [] {
      SumEstate(ts, locks, part, seen);
    } else {
      PartParts(ts, part);
      assert LeavesOf(n) == Leaves(n.children);
      SumIsTotal(ts, locks, n.children, seen, holes);
    }
  }

  /** Going through the windows counts each estate once. */
  lemma {:induction false} SumIsTotal(ts: seq<Node>, locks: Locks, part: seq<Node>, seen: set<NodeId>, holes: set<NodeId>)
    requires Distinct(ts) && Distinct(part) && PartOf(ts, part) && seen !! Ids(part) && Proper(part, holes)
    ensures forall leaf <- Leaves(part) :: leaf.0 in Ids(ts)
    ensures SumFrom(ts, locks, Leaves(part), seen) == TotalDown(part, locks)
    decreases part, 1
  {
    LeavesOfPart(ts, part);
    if part != [] {
      var n, rest := part[0], part[1..];
      SumHead(ts, locks, part, seen, holes);
      PartParts(ts, part);
      EstatesOfFirst(ts, part);
      LeavesOfPart(ts, rest);
      var more := seen + Estates(ts, LeavesOf(n));
      SumJoined(ts, locks, LeavesOf(n), Leaves(rest), seen);
      SumIsTotal(ts, locks, rest, more, holes);
    }
  }

  lemma PartOfItself(ts: seq<Node>)
    ensures PartOf(ts, ts)
  {
  }

  lemma SumStep(t: Tree, locks: Locks, ls: seq<Leaf>, seen: set<NodeId>)
    requires Sound(t) && ls != [] && forall leaf <- ls :: leaf.0 in Ids(t.nodes)
    ensures var e := EstateNode(t, ls[0].0);
            e in Ids(t.nodes) &&
            SumFrom(t.nodes, locks, ls, seen) ==
            (if e in seen then 0.0 else OrZero(EstateLock(t, locks, e))) + SumFrom(t.nodes, locks, ls[1..], seen + {e})
  {
    var node := ls[0].0;
    EstateBothWays(t, node);
    EstateOfEstate(t, node);
    EstateLockIs(t, locks, EstateNode(t, node));
  }

  /** The locks of a layout, each estate once, going through its windows in order. */
  method LockedShareTotal(t: Tree, locks: Locks) returns (total: real)
    requires Sound(t)
    ensures total == TotalDown(t.nodes, locks)
  {
    var windows := Leaves(t.nodes);
    var estates: set<NodeId> := {};
    total := 0.0;
    PartOfItself(t.nodes);
    SumIsTotal(t.nodes, locks, t.nodes, {}, {t.root});
    while windows != []
      invariant forall leaf <- windows :: leaf.0 in Ids(t.nodes)
      invariant total + SumFrom(t.nodes, locks, windows, estates) == TotalDown(t.nodes, locks)
      decreases |windows|
    {
      SumStep(t, locks, windows, estates);
      var estate := EstateNode(t, windows[0].0);
      var lock := EstateLock(t, locks, estate);
      if estate !in estates && lock.Some? {
        total := total + lock.value;
      }
      estates := estates + {estate};
      windows := windows[1..];
    }
  }

  lemma EstateOfEstate(t: Tree, id: NodeId)
    requires Formed(t) && id in Ids(t.nodes)
    ensures EstateNode(t, id) in Ids(t.nodes) && EstateNode(t, EstateNode(t, id)) == EstateNode(t, id)
  {
    EstateFound(t, id);
    EstateBothWays(t, id);
    EstateBothWays(t, EstateNode(t, id));
    EstateTwice(t.nodes, id);
  }

  lemma {:induction false} EstateTwice(ts: seq<Node>, id: NodeId)
    requires Distinct(ts) && id in Ids(ts)
    ensures EstateDown(ts, id) in Ids(ts) && EstateDown(ts, EstateDown(ts, id)) == EstateDown(ts, id)
  {
    var n := ts[0];
    EstateHolds(ts, id);
    if id in IdsOf(n) {
      if !n.kind.IsGroup() && n.id != id {
        EstateTwice(n.children, id);
      }
    } else {
      EstateTwice(ts[1..], id);
    }
  }

  // Changing one estate's lock.

  predicate Same(locks: Locks, locks': Locks, w: WindowId)
  {
    (w in locks <==> w in locks') && (w in locks ==> locks[w] == locks'[w])
  }

  lemma {:induction false} MaxLockSame(ls: seq<Leaf>, locks: Locks, locks': Locks)
    requires forall leaf <- ls :: Same(locks, locks', leaf.1)
    ensures MaxLock(ls, locks) == MaxLock(ls, locks')
  {
    if ls != [] {
      MaxLockSame(ls[1..], locks, locks');
    }
  }

  lemma {:induction false} TotalSame(ts: seq<Node>, locks: Locks, locks': Locks)
    requires forall leaf <- Leaves(ts) :: Same(locks, locks', leaf.1)
    ensures TotalDown(ts, locks) == TotalDown(ts, locks')
  {
    if ts != [] {
      TotalSame(ts[0].children, locks, locks');
      TotalSame(ts[1..], locks, locks');
      MaxLockSame(LeavesOf(ts[0]), locks, locks');
    }
  }

  /** The lock that counts for a node's estate. */
  function Held(ts: seq<Node>, id: NodeId, locks: Locks): real
    requires Distinct(ts) && id in Ids(ts)
  {
    EstateHolds(ts, id);
    OrZero(MaxLock(LeavesOf(Find(ts, EstateDown(ts, id))), locks))
  }

  /** An estate in a node lies within it, and one in the rest of the forest within that. */
  lemma EstateWithin(ts: seq<Node>, id: NodeId)
    requires Distinct(ts) && id in Ids(ts)
    ensures EstateDown(ts, id) in Ids(ts)
    ensures IdsOf(Find(ts, EstateDown(ts, id))) <= if id in IdsOf(ts[0]) then IdsOf(ts[0]) else Ids(ts[1..])
  {
    var n, rest := ts[0], ts[1..];
    EstateHolds(ts, id);
    if id !in IdsOf(n) {
      EstateHolds(rest, id);
      FindInside(rest, EstateDown(rest, id));
    } else if !n.kind.IsGroup() && n.id != id {
      EstateHolds(n.children, id);
      FindInside(n.children, EstateDown(n.children, id));
    }
  }

  /** The locks are the same outside an estate. */
  ghost predicate SameOutside(ts: seq<Node>, id: NodeId, locks: Locks, locks': Locks)
    requires id in Ids(ts) && EstateDown(ts, id) in Ids(ts)
  {
    forall leaf <- Leaves(ts) :: leaf.0 !in IdsOf(Find(ts, EstateDown(ts, id))) ==> Same(locks, locks', leaf.1)
  }

  lemma SameElsewhere(ts: seq<Node>, id: NodeId, locks: Locks, locks': Locks)
    requires Distinct(ts) && id in Ids(ts) && EstateDown(ts, id) in Ids(ts) && SameOutside(ts, id, locks, locks')
    ensures id in IdsOf(ts[0]) ==> forall leaf <- Leaves(ts[1..]) :: Same(locks, locks', leaf.1)
    ensures id !in IdsOf(ts[0]) ==> forall leaf <- LeavesOf(ts[0]) :: Same(locks, locks', leaf.1)
  {
    EstateWithin(ts, id);
    LeavesInside(ts[1..]);
    LeavesInside(ts[0].children);
  }

  /** A change to the locks within one estate changes the total by what it changes there. */
  lemma {:induction false} TotalChange(ts: seq<Node>, id: NodeId, locks: Locks, locks': Locks, holes: set<NodeId>)
    requires Distinct(ts) && Proper(ts, holes) && id in Ids(ts) && Find(ts, id).window.Some?
    requires EstateDown(ts, id) in Ids(ts) && SameOutside(ts, id, locks, locks')
    ensures TotalDown(ts, locks') - TotalDown(ts, locks) == Held(ts, id, locks') - Held(ts, id, locks)
  {
    var n, rest := ts[0], ts[1..];
    SameElsewhere(ts, id, locks, locks');
    if id in IdsOf(n) {
      TotalSame(rest, locks, locks');
      if !n.kind.IsGroup() && n.id != id {
        EstateHolds(n.children, id);
        TotalChange(n.children, id, locks, locks', holes);
      }
    } else {
      EstateHolds(rest, id);
      HeadSame(n, locks, locks');
      TotalChange(rest, id, locks, locks', holes);
    }
  }

  lemma HeadSame(n: Node, locks: Locks, locks': Locks)
    requires forall leaf <- LeavesOf(n) :: Same(locks, locks', leaf.1)
    ensures Head(n, locks) == Head(n, locks')
  {
    MaxLockSame(LeavesOf(n), locks, locks');
    TotalSame(n.children, locks, locks');
  }

  // The command.

  datatype Overflow = Reject | Squeeze

  datatype Outcome = Applied | Released | Rejected

  datatype Feedback = Feedback(wid: WindowId, share: real, outcome: Outcome)

  datatype Requested = Fraction(share: real) | Denominator(denominator: nat)

  function ShareOf(share: Requested): Option<real>
  {
    match share
    case Fraction(f) => if f > 0.0 && f < 1.0 then Some(f) else None
    case Denominator(d) => if d >= 2 then Some(1.0 / d as real) else None
  }

  lemma SharesAreShares(share: Requested)
    ensures ShareOf(share).Some? ==> 0.0 < ShareOf(share).value < 1.0
  {
  }

  /** The node of a window in a layout. */
  function NodeOf(ls: seq<Leaf>, w: WindowId): Option<NodeId>
  {
    if ls == [] then None else if ls[0].1 == w then Some(ls[0].0) else NodeOf(ls[1..], w)
  }

  lemma {:induction false} NodeOfIs(ls: seq<Leaf>, w: WindowId)
    ensures NodeOf(ls, w).Some? <==> exists leaf <- ls :: leaf.1 == w
    ensures NodeOf(ls, w).Some? ==> (NodeOf(ls, w).value, w) in ls
  {
    if ls != [] {
      NodeOfIs(ls[1..], w);
      assert ls == [ls[0]] + ls[1..];
    }
  }

  const CLOSE_ENOUGH: real := 0.000001
  const TOLERANCE: real := 0.000000001

  /** The windows of the estate a node is in. */
  function EstateLeaves(t: Tree, id: NodeId): seq<Leaf>
    requires Formed(t) && id in Ids(t.nodes)
  {
    EstateFound(t, id);
    LeavesOf(Find(t.nodes, EstateNode(t, id)))
  }

  function WindowsAmong(ls: seq<Leaf>): set<WindowId>
  {
    set leaf <- ls :: leaf.1
  }

  /** Sets, releases or refuses a share for the estate of a window's node. */
  function SetShare(t: Tree, locks: Locks, wid: WindowId, node: NodeId, share: real, overflow: Overflow): (Locks, Feedback)
    requires Formed(t) && node in Ids(t.nodes)
  {
    var current := EstateLock(t, locks, node);
    var cleared := locks - WindowsAmong(EstateLeaves(t, node));
    if current.Some? && Abs(current.value - share) < CLOSE_ENOUGH then
      (cleared, Feedback(wid, current.value, Released))
    else if TotalDown(t.nodes, locks) - OrZero(current) + share > 1.0 + TOLERANCE && overflow == Reject then
      (locks, Feedback(wid, share, Rejected))
    else
      (cleared[wid := share], Feedback(wid, share, Applied))
  }

  /** The command for a focused window; without one, or with an invalid share, nothing happens. */
  function Command(t: Tree, locks: Locks, focus: Option<WindowId>, share: Requested, overflow: Overflow): (Locks, Option<Feedback>)
    requires Sound(t)
  {
    if ShareOf(share).None? || focus.None? || NodeOf(Leaves(t.nodes), focus.value).None? then (locks, None)
    else
      FocusFound(t, focus.value);
      var (after, feedback) :=
        SetShare(t, locks, focus.value, NodeOf(Leaves(t.nodes), focus.value).value, ShareOf(share).value, overflow);
      (after, Some(feedback))
  }

  lemma FocusFound(t: Tree, w: WindowId)
    requires Formed(t) && NodeOf(Leaves(t.nodes), w).Some?
    ensures var id := NodeOf(Leaves(t.nodes), w).value;
            id in Ids(t.nodes) && Find(t.nodes, id).window == Some(w) && (id, w) in Leaves(t.nodes)
  {
    NodeOfIs(Leaves(t.nodes), w);
    LeafFound(t.nodes, (NodeOf(Leaves(t.nodes), w).value, w));
  }

  /** Each window is at one node. */
  ghost predicate OneNodeEach(t: Tree)
  {
    forall a <- Leaves(t.nodes), b <- Leaves(t.nodes) :: a.1 == b.1 ==> a.0 == b.0
  }

  /** What is in the focused window's estate, seen from the whole layout. */
  lemma EstateLeavesAre(t: Tree, id: NodeId)
    requires Sound(t) && id in Ids(t.nodes) && Find(t.nodes, id).window.Some?
    ensures EstateNode(t, id) in Ids(t.nodes)
    ensures (id, Find(t.nodes, id).window.value) in EstateLeaves(t, id)
    ensures forall leaf <- EstateLeaves(t, id) :: leaf in Leaves(t.nodes) && leaf.0 in IdsOf(Find(t.nodes, EstateNode(t, id)))
  {
    EstateFound(t, id);
    var e := EstateNode(t, id);
    var estate := Find(t.nodes, e);
    LeavesSplit(t.nodes, e);
    LeavesInside(estate.children);
    if id != e {
      FindDown(t.nodes, e, id);
      LeavesSplit(estate.children, id);
    }
  }

  lemma LocksOutside(t: Tree, locks: Locks, id: NodeId, wid: WindowId, share: real)
    requires Sound(t) && OneNodeEach(t) && id in Ids(t.nodes) && Find(t.nodes, id).window == Some(wid)
    ensures EstateNode(t, id) in Ids(t.nodes)
    ensures var cleared := locks - WindowsAmong(EstateLeaves(t, id));
            forall leaf <- Leaves(t.nodes) :: leaf.0 !in IdsOf(Find(t.nodes, EstateNode(t, id))) ==>
              Same(locks, cleared, leaf.1) && Same(locks, cleared[wid := share], leaf.1)
  {
    EstateLeavesAre(t, id);
    EstateFound(t, id);
    forall leaf <- Leaves(t.nodes) | leaf.0 !in IdsOf(Find(t.nodes, EstateNode(t, id)))
      ensures leaf.1 !in WindowsAmong(EstateLeaves(t, id)) && leaf.1 != wid
    {
      assert (id, wid) in Leaves(t.nodes);
    }
  }

  lemma {:induction false} NoLocksNone(ls: seq<Leaf>, locks: Locks)
    requires forall leaf <- ls :: leaf.1 !in locks
    ensures MaxLock(ls, locks) == None
  {
    if ls != [] {
      NoLocksNone(ls[1..], locks);
    }
  }

  lemma {:induction false} OneLock(ls: seq<Leaf>, locks: Locks, wid: WindowId)
    requires forall leaf <- ls :: leaf.1 in locks ==> leaf.1 == wid
    ensures MaxLock(ls, locks) == if wid in locks && wid in WindowsAmong(ls) then Some(locks[wid]) else None
  {
    if ls != [] {
      OneLock(ls[1..], locks, wid);
      assert ls == [ls[0]] + ls[1..];
    }
  }

  /** What the locks come to afterwards: the new share in place of what the estate held, or nothing. */
  lemma TotalAfter(t: Tree, locks: Locks, wid: WindowId, id: NodeId, share: real)
    requires Sound(t) && OneNodeEach(t) && id in Ids(t.nodes) && Find(t.nodes, id).window == Some(wid)
    ensures var cleared := locks - WindowsAmong(EstateLeaves(t, id));
            var current := OrZero(EstateLock(t, locks, id));
            TotalDown(t.nodes, cleared) == TotalDown(t.nodes, locks) - current &&
            TotalDown(t.nodes, cleared[wid := share]) == TotalDown(t.nodes, locks) - current + share
  {
    var ls := EstateLeaves(t, id);
    var cleared := locks - WindowsAmong(ls);
    EstateLeavesAre(t, id);
    EstateLockIs(t, locks, id);
    EstateBothWays(t, id);
    LocksOutside(t, locks, id, wid, share);
    TotalChange(t.nodes, id, locks, cleared, {t.root});
    TotalChange(t.nodes, id, locks, cleared[wid := share], {t.root});
    NoLocksNone(ls, cleared);
    OneLock(ls, cleared[wid := share], wid);
  }

  // What a command keeps.

  /** No lock is negative, and together they fit, up to the tolerance. */
  ghost predicate Fits(t: Tree, locks: Locks)
  {
    (forall w <- locks :: locks[w] > 0.0) && TotalDown(t.nodes, locks) <= 1.0 + TOLERANCE
  }

  lemma {:induction false} MaxLockPositive(ls: seq<Leaf>, locks: Locks)
    requires forall w <- locks :: locks[w] > 0.0
    ensures OrZero(MaxLock(ls, locks)) >= 0.0
  {
    if ls != [] {
      MaxLockPositive(ls[1..], locks);
    }
  }

  /** A share that is applied or released changes locks in the focused window's
      estate only, and one that is rejected changes none. */
  lemma SetShareLocal(t: Tree, locks: Locks, wid: WindowId, id: NodeId, share: real, overflow: Overflow, w: WindowId)
    requires Sound(t) && id in Ids(t.nodes) && Find(t.nodes, id).window == Some(wid)
    ensures var (locks', feedback) := SetShare(t, locks, wid, id, share, overflow);
            match feedback.outcome
            case Rejected => locks' == locks
            case Released => if w in WindowsAmong(EstateLeaves(t, id)) then w !in locks' else Same(locks, locks', w)
            case Applied =>
              if w == wid then w in locks' && locks'[w] == share
              else if w in WindowsAmong(EstateLeaves(t, id)) then w !in locks'
              else Same(locks, locks', w)
  {
    EstateLeavesAre(t, id);
  }

  /** The lock an estate shows is the share just applied to it. */
  lemma AppliedShows(t: Tree, locks: Locks, wid: WindowId, id: NodeId, share: real, overflow: Overflow)
    requires Sound(t) && id in Ids(t.nodes) && Find(t.nodes, id).window == Some(wid)
    ensures var (locks', feedback) := SetShare(t, locks, wid, id, share, overflow);
            (feedback.outcome == Applied ==> EstateLock(t, locks', id) == Some(share)) &&
            (feedback.outcome == Released ==> EstateLock(t, locks', id) == None)
  {
    var ls := EstateLeaves(t, id);
    var cleared := locks - WindowsAmong(ls);
    EstateLeavesAre(t, id);
    EstateLockIs(t, cleared, id);
    EstateLockIs(t, cleared[wid := share], id);
    NoLocksNone(ls, cleared);
    OneLock(ls, cleared[wid := share], wid);
  }

  /** With overflow rejected, no command makes the locks exceed the whole. */
  lemma SetShareFits(t: Tree, locks: Locks, wid: WindowId, id: NodeId, share: real)
    requires Sound(t) && OneNodeEach(t) && Fits(t, locks)
    requires id in Ids(t.nodes) && Find(t.nodes, id).window == Some(wid) && share > 0.0
    ensures Fits(t, SetShare(t, locks, wid, id, share, Reject).0)
  {
    TotalAfter(t, locks, wid, id, share);
    EstateLockIs(t, locks, id);
    MaxLockPositive(EstateLeaves(t, id), locks);
  }

  /** The same share twice gives an unlocked estate's windows their locks back: none. */
  lemma TwiceRestores(t: Tree, locks: Locks, wid: WindowId, id: NodeId, share: real, overflow: Overflow)
    requires Sound(t) && id in Ids(t.nodes) && Find(t.nodes, id).window == Some(wid)
    requires EstateLock(t, locks, id) == None
    requires SetShare(t, locks, wid, id, share, overflow).1.outcome == Applied
    ensures var once := SetShare(t, locks, wid, id, share, overflow).0;
            SetShare(t, once, wid, id, share, overflow) == (locks, Feedback(wid, share, Released))
  {
    var ls := EstateLeaves(t, id);
    EstateLeavesAre(t, id);
    EstateLockIs(t, locks, id);
    AppliedShows(t, locks, wid, id, share, overflow);
    NoneUnlocked(ls, locks);
    assert (locks - WindowsAmong(ls))[wid := share] - WindowsAmong(ls) == locks;
  }

  lemma {:induction false} NoneUnlocked(ls: seq<Leaf>, locks: Locks)
    requires MaxLock(ls, locks) == None
    ensures forall leaf <- ls :: leaf.1 !in locks
  {
    if ls != [] {
      NoneUnlocked(ls[1..], locks);
    }
  }

  // Runs.

  datatype Request = Request(focus: Option<WindowId>, share: Requested)

  function Commands(t: Tree, locks: Locks, requests: seq<Request>): Locks
    requires Sound(t)
    decreases |requests|
  {
    if requests == [] then locks
    else Commands(t, Command(t, locks, requests[0].focus, requests[0].share, Reject).0, requests[1..])
  }

  lemma {:induction false} CommandsFit(t: Tree, locks: Locks, requests: seq<Request>)
    requires Sound(t) && OneNodeEach(t) && Fits(t, locks)
    ensures Fits(t, Commands(t, locks, requests))
    decreases |requests|
  {
    if requests != [] {
      var focus, share := requests[0].focus, requests[0].share;
      if ShareOf(share).Some? && focus.Some? && NodeOf(Leaves(t.nodes), focus.value).Some? {
        FocusFound(t, focus.value);
        SharesAreShares(share);
        SetShareFits(t, locks, focus.value, NodeOf(Leaves(t.nodes), focus.value).value, ShareOf(share).value);
      }
      CommandsFit(t, Command(t, locks, focus, share, Reject).0, requests[1..]);
    }
  }

  lemma {:induction false} NoLocksNoTotal(ts: seq<Node>)
    ensures TotalDown(ts, map[]) == 0.0
  {
    if ts != [] {
      NoLocksNoTotal(ts[0].children);
      NoLocksNoTotal(ts[1..]);
      NoLocksNone(LeavesOf(ts[0]), map[]);
    }
  }

  /** From no locks, whatever windows are focused and whatever shares are asked
      for, the locks of a layout never come to more than the whole. */
  lemma LocksAlwaysFit(t: Tree, requests: seq<Request>)
    requires Sound(t) && OneNodeEach(t)
    ensures TotalDown(t.nodes, Commands(t, map[], requests)) <= 1.0 + TOLERANCE
  {
    NoLocksNoTotal(t.nodes);
    CommandsFit(t, map[], requests);
  }
}
