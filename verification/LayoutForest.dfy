/** The trees layouts are made of (`src/model/tree.rs`), as ordered forests of
    nodes with ids that stay with them, and the two ways they are changed: a
    node is taken out with all that is under it, and put in beside another. */
module LayoutForest {
  import opened Options
  import opened Windows

  type NodeId = nat

  datatype Orientation = Horizontally | Vertically

  datatype ContainerKind = Horizontal | Vertical | Tabbed | Stacked
  {
    function Orientation(): Orientation
    {
      if Horizontal? || Tabbed? then Horizontally else Vertically
    }

    predicate IsGroup() { Tabbed? || Stacked? }
  }

  /** A node: a container, or a leaf that holds a window. */
  datatype Node = Node(id: NodeId, kind: ContainerKind, window: Option<WindowId>, children: seq<Node>)

  /** A window and the node that holds it. */
  type Leaf = (NodeId, WindowId)

  function Ids(ts: seq<Node>): set<NodeId>
  {
    if ts == [] then {} else ({ts[0].id} + Ids(ts[0].children)) + Ids(ts[1..])
  }

  /** The ids in a node and under it. */
  function IdsOf(n: Node): set<NodeId>
  {
    {n.id} + Ids(n.children)
  }

  /** No id occurs twice. */
  predicate Distinct(ts: seq<Node>)
  {
    ts == [] ||
    (ts[0].id !in Ids(ts[0].children) && Distinct(ts[0].children) && Distinct(ts[1..]) && IdsOf(ts[0]) !! Ids(ts[1..]))
  }

  predicate DistinctIn(n: Node)
  {
    n.id !in Ids(n.children) && Distinct(n.children)
  }

  function Count(ts: seq<Node>): nat
  {
    if ts == [] then 0 else (1 + Count(ts[0].children)) + Count(ts[1..])
  }

  function CountOf(n: Node): nat
  {
    1 + Count(n.children)
  }

  function Own(n: Node): seq<Leaf>
  {
    if n.window.Some? then [(n.id, n.window.value)] else []
  }

  /** The windows of a forest from first to last. */
  function Leaves(ts: seq<Node>): seq<Leaf>
  {
    if ts == [] then [] else (Own(ts[0]) + Leaves(ts[0].children)) + Leaves(ts[1..])
  }

  /** The windows in a node and under it. */
  function LeavesOf(n: Node): seq<Leaf>
  {
    Own(n) + Leaves(n.children)
  }

  function Find(ts: seq<Node>, id: NodeId): (n: Node)
    requires id in Ids(ts)
    ensures n.id == id
  {
    if ts[0].id == id then ts[0] else if id in Ids(ts[0].children) then Find(ts[0].children, id) else Find(ts[1..], id)
  }

  /** The parent of a node; `above` is the parent of the forest. */
  function ParentOf(ts: seq<Node>, id: NodeId, above: NodeId): (p: NodeId)
    requires id in Ids(ts)
    ensures p == above || p in Ids(ts)
  {
    if ts[0].id == id then above
    else if id in Ids(ts[0].children) then ParentOf(ts[0].children, id, ts[0].id)
    else ParentOf(ts[1..], id, above)
  }

  /** The windows in front of a node. */
  function Before(ts: seq<Node>, id: NodeId): seq<Leaf>
    requires id in Ids(ts)
  {
    if ts[0].id == id then []
    else if id in Ids(ts[0].children) then Own(ts[0]) + Before(ts[0].children, id)
    else LeavesOf(ts[0]) + Before(ts[1..], id)
  }

  /** The windows behind a node and all that is under it. */
  function After(ts: seq<Node>, id: NodeId): seq<Leaf>
    requires id in Ids(ts)
  {
    if ts[0].id == id then Leaves(ts[1..])
    else if id in Ids(ts[0].children) then After(ts[0].children, id) + Leaves(ts[1..])
    else After(ts[1..], id)
  }

  /** The forest without a node and all that is under it. */
  function Without(ts: seq<Node>, id: NodeId): seq<Node>
  {
    if ts == [] then []
    else if ts[0].id == id then ts[1..]
    else if id in Ids(ts[0].children) then [ts[0].(children := Without(ts[0].children, id))] + ts[1..]
    else [ts[0]] + Without(ts[1..], id)
  }

  /** The forest with `x` next to `sibling`, behind it or in front of it. */
  function Beside(ts: seq<Node>, sibling: NodeId, x: Node, behind: bool): seq<Node>
    requires sibling in Ids(ts)
  {
    if ts[0].id == sibling then (if behind then [ts[0], x] else [x, ts[0]]) + ts[1..]
    else if sibling in Ids(ts[0].children) then [ts[0].(children := Beside(ts[0].children, sibling, x, behind))] + ts[1..]
    else [ts[0]] + Beside(ts[1..], sibling, x, behind)
  }

  /** Windows are leaves, and leaves are windows, except perhaps for `holes`. */
  predicate Proper(ts: seq<Node>, holes: set<NodeId>)
  {
    ts == [] ||
    (Proper(ts[0].children, holes) && Proper(ts[1..], holes) &&
     (ts[0].window.Some? ==> ts[0].children == []) &&
     (ts[0].children == [] && ts[0].id !in holes ==> ts[0].window.Some?))
  }

  /** The ids of the topmost nodes. */
  function Tops(ts: seq<Node>): set<NodeId>
  {
    if ts == [] then {} else {ts[0].id} + Tops(ts[1..])
  }

  /** The neighbour of a node on one side. */
  function NextTo(ts: seq<Node>, id: NodeId, behind: bool): Option<NodeId>
    requires id in Ids(ts)
  {
    if ts[0].id == id then (if behind && |ts| > 1 then Some(ts[1].id) else None)
    else if id in Ids(ts[0].children) then NextTo(ts[0].children, id, behind)
    else
      var rest := ts[1..];
      assert id in Ids(rest);
      if !behind && rest[0].id == id then Some(ts[0].id) else NextTo(rest, id, behind)
  }

  // Finding.

  lemma {:induction false} FindInside(ts: seq<Node>, id: NodeId)
    requires id in Ids(ts) && Distinct(ts)
    ensures IdsOf(Find(ts, id)) <= Ids(ts) && DistinctIn(Find(ts, id))
  {
    if ts[0].id == id {
    } else if id in Ids(ts[0].children) {
      FindInside(ts[0].children, id);
    } else {
      FindInside(ts[1..], id);
    }
  }

  lemma Regroup<T>(a: seq<T>, b: seq<T>, c: seq<T>, d: seq<T>, e: seq<T>)
    ensures (a + (b + c + d)) + e == (a + b) + c + (d + e)
    ensures a + (b + c + d) == (a + b) + c + d
  {
  }

  lemma Reassociate<T>(a: seq<T>, b: seq<T>, c: seq<T>, d: seq<T>)
    ensures (a + (b + c)) + d == (a + b) + (c + d)
    ensures a + (b + c) == (a + b) + c
  {
  }

  lemma Associate<T>(a: seq<T>, b: seq<T>, c: seq<T>)
    ensures a + (b + c) == (a + b) + c
  {
  }

  lemma LeavesCons(n: Node, ts: seq<Node>)
    ensures Leaves([n] + ts) == LeavesOf(n) + Leaves(ts)
  {
    assert ([n] + ts)[1..] == ts;
  }

  lemma ConsFacts(n: Node, ts: seq<Node>)
    ensures Ids([n] + ts) == IdsOf(n) + Ids(ts) && Tops([n] + ts) == {n.id} + Tops(ts)
    ensures Distinct([n] + ts) <==> DistinctIn(n) && Distinct(ts) && IdsOf(n) !! Ids(ts)
    ensures Leaves([n] + ts) == LeavesOf(n) + Leaves(ts)
  {
    assert ([n] + ts)[1..] == ts;
  }

  lemma FindCons(n: Node, ts: seq<Node>, id: NodeId)
    requires id in Ids([n] + ts)
    ensures id !in IdsOf(n) ==> id in Ids(ts)
    ensures Find([n] + ts, id) ==
            if id == n.id then n else if id in Ids(n.children) then Find(n.children, id) else Find(ts, id)
  {
    assert ([n] + ts)[1..] == ts;
  }

  lemma RootFacts(n: Node, holes: set<NodeId>)
    ensures Ids([n]) == IdsOf(n) && (Distinct([n]) <==> DistinctIn(n)) && Leaves([n]) == LeavesOf(n)
    ensures n.window.None? && n.id in holes ==> (Proper([n], holes) <==> Proper(n.children, holes))
  {
    assert [n][1..] == [];
  }

  lemma {:induction false} LeavesSplit(ts: seq<Node>, id: NodeId)
    requires id in Ids(ts)
    ensures Leaves(ts) == Before(ts, id) + LeavesOf(Find(ts, id)) + After(ts, id)
  {
    var first, rest := ts[0], ts[1..];
    if first.id == id {
      assert Leaves(ts) == [] + LeavesOf(first) + Leaves(rest);
    } else if id in Ids(first.children) {
      LeavesSplit(first.children, id);
      Regroup(Own(first), Before(first.children, id), LeavesOf(Find(first.children, id)), After(first.children, id), Leaves(rest));
    } else {
      LeavesSplit(rest, id);
      Regroup(LeavesOf(first), Before(rest, id), LeavesOf(Find(rest, id)), After(rest, id), []);
    }
  }

  // Taking out.

  lemma {:induction false} WithoutNone(ts: seq<Node>, id: NodeId)
    requires id !in Ids(ts)
    ensures Without(ts, id) == ts
  {
    if ts != [] {
      WithoutNone(ts[1..], id);
    }
  }

  lemma {:induction false} WithoutIds(ts: seq<Node>, id: NodeId)
    requires id in Ids(ts) && Distinct(ts)
    ensures Ids(Without(ts, id)) == Ids(ts) - IdsOf(Find(ts, id))
    ensures Distinct(Without(ts, id))
    ensures Count(Without(ts, id)) == Count(ts) - CountOf(Find(ts, id))
  {
    if ts[0].id == id {
    } else if id in Ids(ts[0].children) {
      WithoutIds(ts[0].children, id);
      FindInside(ts[0].children, id);
    } else {
      WithoutIds(ts[1..], id);
      FindInside(ts[1..], id);
    }
  }

  lemma {:induction false} WithoutLeaves(ts: seq<Node>, id: NodeId)
    requires id in Ids(ts)
    ensures Leaves(Without(ts, id)) == Before(ts, id) + After(ts, id)
  {
    var first, rest := ts[0], ts[1..];
    if first.id == id {
    } else if id in Ids(first.children) {
      WithoutLeaves(first.children, id);
      LeavesCons(first.(children := Without(first.children, id)), rest);
      Reassociate(Own(first), Before(first.children, id), After(first.children, id), Leaves(rest));
    } else {
      WithoutLeaves(rest, id);
      LeavesCons(first, Without(rest, id));
      Reassociate(LeavesOf(first), Before(rest, id), After(rest, id), []);
    }
  }

  // Putting in.

  lemma ConsIds(n: Node, ts: seq<Node>)
    ensures Ids([n] + ts) == IdsOf(n) + Ids(ts) && Count([n] + ts) == CountOf(n) + Count(ts)
    ensures Distinct([n] + ts) <==> DistinctIn(n) && Distinct(ts) && IdsOf(n) !! Ids(ts)
  {
    assert ([n] + ts)[1..] == ts;
  }

  lemma BesideIdsHere(n: Node, ts: seq<Node>, x: Node, behind: bool)
    requires Distinct([n] + ts) && DistinctIn(x) && IdsOf(x) !! Ids([n] + ts)
    ensures var now := (if behind then [n, x] else [x, n]) + ts;
            Ids(now) == Ids([n] + ts) + IdsOf(x) && Distinct(now) && Count(now) == Count([n] + ts) + CountOf(x)
  {
    var a, b := if behind then n else x, if behind then x else n;
    assert [a, b] + ts == [a] + ([b] + ts);
    ConsIds(n, ts);
    ConsIds(b, ts);
    ConsIds(a, [b] + ts);
  }

  lemma {:induction false} BesideIds(ts: seq<Node>, sibling: NodeId, x: Node, behind: bool)
    requires sibling in Ids(ts) && Distinct(ts) && DistinctIn(x) && IdsOf(x) !! Ids(ts)
    ensures Ids(Beside(ts, sibling, x, behind)) == Ids(ts) + IdsOf(x)
    ensures Distinct(Beside(ts, sibling, x, behind))
    ensures Count(Beside(ts, sibling, x, behind)) == Count(ts) + CountOf(x)
  {
    var first, rest := ts[0], ts[1..];
    assert ts == [first] + rest;
    if first.id == sibling {
      BesideIdsHere(first, rest, x, behind);
    } else if sibling in Ids(first.children) {
      BesideIds(first.children, sibling, x, behind);
      ConsIds(first.(children := Beside(first.children, sibling, x, behind)), rest);
    } else {
      BesideIds(rest, sibling, x, behind);
      ConsIds(first, Beside(rest, sibling, x, behind));
    }
  }

  /** A node and its new neighbour, in order. */
  function Pair(n: Node, x: Node, behind: bool): seq<Leaf>
  {
    if behind then LeavesOf(n) + LeavesOf(x) else LeavesOf(x) + LeavesOf(n)
  }

  lemma BesideLeavesHere(ts: seq<Node>, x: Node, behind: bool)
    requires ts != []
    ensures Leaves((if behind then [ts[0], x] else [x, ts[0]]) + ts[1..]) == Pair(ts[0], x, behind) + Leaves(ts[1..])
  {
    var a, b := if behind then ts[0] else x, if behind then x else ts[0];
    LeavesCons(a, [b] + ts[1..]);
    LeavesCons(b, ts[1..]);
    assert [a, b] + ts[1..] == [a] + ([b] + ts[1..]);
    assert LeavesOf(a) + (LeavesOf(b) + Leaves(ts[1..])) == (LeavesOf(a) + LeavesOf(b)) + Leaves(ts[1..]);
  }

  lemma {:induction false} BesideLeaves(ts: seq<Node>, sibling: NodeId, x: Node, behind: bool)
    requires sibling in Ids(ts)
    ensures Leaves(Beside(ts, sibling, x, behind)) ==
            Before(ts, sibling) + Pair(Find(ts, sibling), x, behind) + After(ts, sibling)
  {
    var first, rest := ts[0], ts[1..];
    var pair := Pair(Find(ts, sibling), x, behind);
    if first.id == sibling {
      BesideLeavesHere(ts, x, behind);
      assert [] + pair == pair;
    } else if sibling in Ids(first.children) {
      BesideLeaves(first.children, sibling, x, behind);
      LeavesCons(first.(children := Beside(first.children, sibling, x, behind)), rest);
      Regroup(Own(first), Before(first.children, sibling), pair, After(first.children, sibling), Leaves(rest));
    } else {
      BesideLeaves(rest, sibling, x, behind);
      LeavesCons(first, Beside(rest, sibling, x, behind));
      Regroup(LeavesOf(first), Before(rest, sibling), pair, After(rest, sibling), []);
    }
  }

  // Where things are.

  lemma {:induction false} TopsInside(ts: seq<Node>)
    ensures Tops(ts) <= Ids(ts)
  {
    if ts != [] {
      TopsInside(ts[1..]);
    }
  }

  lemma {:induction false} FindDown(ts: seq<Node>, p: NodeId, id: NodeId)
    requires Distinct(ts) && p in Ids(ts) && id in Ids(Find(ts, p).children)
    ensures id in Ids(ts) && Find(ts, id) == Find(Find(ts, p).children, id) && id != p
  {
    FindInside(ts, p);
    if ts[0].id == p {
    } else if p in Ids(ts[0].children) {
      FindInside(ts[0].children, p);
      FindDown(ts[0].children, p, id);
    } else {
      FindInside(ts[1..], p);
      FindDown(ts[1..], p, id);
    }
  }

  lemma {:induction false} ParentFacts(ts: seq<Node>, id: NodeId, above: NodeId)
    requires Distinct(ts) && id in Ids(ts) && above !in Ids(ts)
    ensures ParentOf(ts, id, above) == above <==> id in Tops(ts)
    ensures ParentOf(ts, id, above) in Ids(ts) ==> id in Tops(Find(ts, ParentOf(ts, id, above)).children)
    ensures ParentOf(ts, id, above) !in IdsOf(Find(ts, id))
  {
    var first, rest := ts[0], ts[1..];
    TopsInside(rest);
    FindInside(ts, id);
    if first.id == id {
    } else if id in Ids(first.children) {
      ParentFacts(first.children, id, first.id);
      FindInside(first.children, id);
    } else {
      ParentFacts(rest, id, above);
    }
  }

  lemma {:induction false} ParentIs(ts: seq<Node>, id: NodeId, above: NodeId, p: NodeId)
    requires Distinct(ts) && p in Ids(ts) && id in Tops(Find(ts, p).children)
    ensures id in Ids(ts) && ParentOf(ts, id, above) == p
  {
    TopsInside(Find(ts, p).children);
    FindDown(ts, p, id);
    FindInside(ts, p);
    if ts[0].id == p {
      ParentTop(ts[0].children, id, p);
    } else if p in Ids(ts[0].children) {
      FindInside(ts[0].children, p);
      ParentIs(ts[0].children, id, ts[0].id, p);
    } else {
      FindInside(ts[1..], p);
      ParentIs(ts[1..], id, above, p);
    }
  }

  lemma {:induction false} ParentTop(ts: seq<Node>, id: NodeId, above: NodeId)
    requires Distinct(ts) && id in Tops(ts)
    ensures id in Ids(ts) && ParentOf(ts, id, above) == above
  {
    TopsInside(ts[1..]);
    if ts[0].id != id {
      ParentTop(ts[1..], id, above);
    }
  }

  lemma {:induction false} FindWithout(ts: seq<Node>, id: NodeId, other: NodeId)
    requires Distinct(ts) && id in Ids(ts) && other in Ids(ts) && other !in IdsOf(Find(ts, id))
    ensures other in Ids(Without(ts, id))
    ensures Find(Without(ts, id), other) == Find(ts, other).(children := Without(Find(ts, other).children, id))
  {
    var first, rest := ts[0], ts[1..];
    WithoutIds(ts, id);
    FindInside(ts, other);
    FindInside(ts, id);
    if first.id == id {
      FindInside(rest, other);
      WithoutNone(Find(rest, other).children, id);
    } else if id in Ids(first.children) {
      WithoutIds(first.children, id);
      if other in Ids(first.children) {
        FindWithout(first.children, id, other);
      } else if other != first.id {
        FindInside(rest, other);
        WithoutNone(Find(rest, other).children, id);
      }
    } else {
      assert ([first] + Without(rest, id))[1..] == Without(rest, id);
      WithoutNone(first.children, id);
      if other in Ids(first.children) {
        FindInside(first.children, other);
        WithoutNone(Find(first.children, other).children, id);
      } else if other != first.id {
        FindWithout(rest, id, other);
      }
    }
  }

  lemma {:induction false} TopsWithout(ts: seq<Node>, id: NodeId)
    requires Distinct(ts)
    ensures Tops(Without(ts, id)) == Tops(ts) - {id}
  {
    if ts != [] {
      TopsInside(ts[1..]);
      if ts[0].id != id && id !in Ids(ts[0].children) {
        TopsWithout(ts[1..], id);
        assert ([ts[0]] + Without(ts[1..], id))[1..] == Without(ts[1..], id);
      }
    }
  }

  /** The children a node has after `x` went in. */
  function Joined(ts: seq<Node>, sibling: NodeId, x: Node, behind: bool): seq<Node>
  {
    if sibling in Ids(ts) then Beside(ts, sibling, x, behind) else ts
  }

  lemma FindPast(x: Node, ts: seq<Node>, id: NodeId)
    requires id in Ids(ts) && id !in IdsOf(x)
    ensures id in Ids([x] + ts) && Find([x] + ts, id) == Find(ts, id)
  {
    assert ([x] + ts)[1..] == ts;
  }

  lemma {:induction false} FindBeside(ts: seq<Node>, sibling: NodeId, x: Node, behind: bool, other: NodeId)
    requires Distinct(ts) && DistinctIn(x) && IdsOf(x) !! Ids(ts) && sibling in Ids(ts) && other in Ids(ts)
    ensures other in Ids(Beside(ts, sibling, x, behind))
    ensures Find(Beside(ts, sibling, x, behind), other) ==
            Find(ts, other).(children := Joined(Find(ts, other).children, sibling, x, behind))
  {
    var first, rest, now := ts[0], ts[1..], Beside(ts, sibling, x, behind);
    BesideIds(ts, sibling, x, behind);
    FindInside(ts, other);
    if first.id == sibling {
      if behind {
        assert now[1..] == [x] + rest;
        if other in Ids(rest) {
          FindPast(x, rest, other);
        }
      } else {
        FindPast(x, ts, other);
        assert now == [x] + ts;
      }
      if other in Ids(first.children) {
        FindInside(first.children, other);
      } else if other != first.id {
        FindInside(rest, other);
      }
    } else if sibling in Ids(first.children) {
      assert now[1..] == rest;
      if other in Ids(first.children) {
        FindBeside(first.children, sibling, x, behind, other);
      } else if other != first.id {
        FindInside(rest, other);
      }
    } else {
      assert now[1..] == Beside(rest, sibling, x, behind);
      if other in Ids(first.children) {
        FindInside(first.children, other);
      } else if other != first.id {
        FindBeside(rest, sibling, x, behind, other);
      }
    }
  }

  lemma {:induction false} TopsBeside(ts: seq<Node>, sibling: NodeId, x: Node, behind: bool)
    requires Distinct(ts) && sibling in Ids(ts)
    ensures Tops(Beside(ts, sibling, x, behind)) == Tops(ts) + if sibling in Tops(ts) then {x.id} else {}
  {
    var first, rest, now := ts[0], ts[1..], Beside(ts, sibling, x, behind);
    TopsInside(rest);
    if first.id == sibling {
      if behind {
        assert now[1..] == [x] + rest && now[1..][1..] == rest;
      } else {
        assert now[1..] == ts;
      }
    } else if sibling in Ids(first.children) {
      assert now[1..] == rest;
    } else {
      assert now[1..] == Beside(rest, sibling, x, behind);
      TopsBeside(rest, sibling, x, behind);
    }
  }

  // Windows are leaves and leaves are windows.

  lemma {:induction false} ProperMore(ts: seq<Node>, holes: set<NodeId>, more: set<NodeId>)
    requires Proper(ts, holes) && holes * Ids(ts) <= more
    ensures Proper(ts, more)
  {
    if ts != [] {
      ProperMore(ts[0].children, holes, more);
      ProperMore(ts[1..], holes, more);
    }
  }

  /** A hole that has children or a window is none. */
  lemma {:induction false} ProperFilled(ts: seq<Node>, holes: set<NodeId>, id: NodeId)
    requires Distinct(ts) && Proper(ts, holes + {id}) && id in Ids(ts)
    requires Find(ts, id).children != [] || Find(ts, id).window.Some?
    ensures Proper(ts, holes)
  {
    var first, rest := ts[0], ts[1..];
    if first.id == id {
      ProperMore(first.children, holes + {id}, holes);
      ProperMore(rest, holes + {id}, holes);
    } else if id in Ids(first.children) {
      ProperFilled(first.children, holes, id);
      ProperMore(rest, holes + {id}, holes);
    } else {
      ProperMore(first.children, holes + {id}, holes);
      ProperFilled(rest, holes, id);
    }
  }

  lemma {:induction false} ProperFound(ts: seq<Node>, holes: set<NodeId>, id: NodeId)
    requires Proper(ts, holes) && id in Ids(ts)
    ensures Proper([Find(ts, id)], holes)
  {
    if ts[0].id == id {
    } else if id in Ids(ts[0].children) {
      ProperFound(ts[0].children, holes, id);
    } else {
      ProperFound(ts[1..], holes, id);
    }
  }

  lemma {:induction false} ProperWithout(ts: seq<Node>, holes: set<NodeId>, id: NodeId, above: NodeId)
    requires Distinct(ts) && Proper(ts, holes) && id in Ids(ts)
    ensures Proper(Without(ts, id), holes + {ParentOf(ts, id, above)})
  {
    var first, rest := ts[0], ts[1..];
    var more := holes + {ParentOf(ts, id, above)};
    if first.id == id {
      ProperMore(rest, holes, more);
    } else if id in Ids(first.children) {
      ProperWithout(first.children, holes, id, first.id);
      ProperMore(rest, holes, more);
      if Without(first.children, id) == [] {
        EmptiedFromTop(first.children, id, first.id);
      }
    } else {
      ProperWithout(rest, holes, id, above);
      ProperMore(first.children, holes, more);
      assert ([first] + Without(rest, id))[1..] == Without(rest, id);
    }
  }

  lemma {:induction false} EmptiedFromTop(ts: seq<Node>, id: NodeId, above: NodeId)
    requires id in Ids(ts) && Without(ts, id) == []
    ensures ParentOf(ts, id, above) == above
  {
  }

  lemma {:induction false} ProperBeside(ts: seq<Node>, holes: set<NodeId>, sibling: NodeId, x: Node, behind: bool)
    requires Proper(ts, holes) && Proper([x], holes) && sibling in Ids(ts)
    ensures Proper(Beside(ts, sibling, x, behind), holes)
  {
    var first, rest, now := ts[0], ts[1..], Beside(ts, sibling, x, behind);
    if first.id == sibling {
      if behind {
        assert now[1..] == [x] + rest && now[1..][1..] == rest;
      } else {
        assert now[1..] == ts;
      }
    } else if sibling in Ids(first.children) {
      assert now[1..] == rest;
      ProperBeside(first.children, holes, sibling, x, behind);
      assert Beside(first.children, sibling, x, behind) != [];
    } else {
      assert now[1..] == Beside(rest, sibling, x, behind);
      ProperBeside(rest, holes, sibling, x, behind);
    }
  }

  // Order.

  /** What is in front of and behind a node, seen from a node above it. */
  lemma BeforeDown(ts: seq<Node>, above: NodeId, id: NodeId)
    requires Distinct(ts) && above in Ids(ts) && id in Ids(Find(ts, above).children)
    ensures id in Ids(ts)
    ensures Before(ts, id) == Before(ts, above) + (Own(Find(ts, above)) + Before(Find(ts, above).children, id))
    ensures After(ts, id) == After(Find(ts, above).children, id) + After(ts, above)
  {
    FindDown(ts, above, id);
    InFrontDown(ts, above, id);
    AtBackDown(ts, above, id);
  }

  lemma {:induction false} InFrontDown(ts: seq<Node>, above: NodeId, id: NodeId)
    requires Distinct(ts) && above in Ids(ts) && id in Ids(Find(ts, above).children) && id in Ids(ts)
    ensures Before(ts, id) == Before(ts, above) + (Own(Find(ts, above)) + Before(Find(ts, above).children, id))
  {
    var first, rest := ts[0], ts[1..];
    FindInside(ts, above);
    if first.id == above {
    } else if above in Ids(first.children) {
      FindInside(first.children, above);
      FindDown(first.children, above, id);
      InFrontDown(first.children, above, id);
      var top := Find(first.children, above);
      Associate(Own(first), Before(first.children, above), Own(top) + Before(top.children, id));
    } else {
      FindInside(rest, above);
      FindDown(rest, above, id);
      InFrontDown(rest, above, id);
      var top := Find(rest, above);
      Associate(LeavesOf(first), Before(rest, above), Own(top) + Before(top.children, id));
    }
  }

  lemma {:induction false} AtBackDown(ts: seq<Node>, above: NodeId, id: NodeId)
    requires Distinct(ts) && above in Ids(ts) && id in Ids(Find(ts, above).children) && id in Ids(ts)
    ensures After(ts, id) == After(Find(ts, above).children, id) + After(ts, above)
  {
    var first, rest := ts[0], ts[1..];
    FindInside(ts, above);
    if first.id == above {
    } else if above in Ids(first.children) {
      FindInside(first.children, above);
      FindDown(first.children, above, id);
      AtBackDown(first.children, above, id);
      Associate(After(Find(first.children, above).children, id), After(first.children, above), Leaves(rest));
    } else {
      FindInside(rest, above);
      FindDown(rest, above, id);
      AtBackDown(rest, above, id);
    }
  }

  /** Taking out a node leaves what is around the nodes above it. */
  lemma {:induction false} AroundAbove(ts: seq<Node>, above: NodeId, id: NodeId)
    requires Distinct(ts) && above in Ids(ts) && id in Ids(Find(ts, above).children)
    ensures id in Ids(ts) && above in Ids(Without(ts, id))
    ensures Before(Without(ts, id), above) == Before(ts, above)
    ensures After(Without(ts, id), above) == After(ts, above)
  {
    var first, rest, now := ts[0], ts[1..], Without(ts, id);
    FindInside(ts, above);
    FindDown(ts, above, id);
    if first.id == above {
      assert now[1..] == rest;
    } else if above in Ids(first.children) {
      FindInside(first.children, above);
      AroundAbove(first.children, above, id);
      assert now[1..] == rest;
    } else {
      FindInside(rest, above);
      AroundAbove(rest, above, id);
      assert now[1..] == Without(rest, id);
    }
  }

  // Neighbours, and what comes along.

  lemma {:induction false} Neighbours(ts: seq<Node>, id: NodeId, behind: bool, above: NodeId)
    requires Distinct(ts) && id in Ids(ts) && NextTo(ts, id, behind).Some?
    ensures var n := NextTo(ts, id, behind).value;
            n in Ids(ts) && n !in IdsOf(Find(ts, id)) && id !in IdsOf(Find(ts, n)) &&
            ParentOf(ts, n, above) == ParentOf(ts, id, above)
  {
    var first, rest := ts[0], ts[1..];
    var n := NextTo(ts, id, behind).value;
    if first.id == id {
      assert n == rest[0].id;
    } else if id in Ids(first.children) {
      Neighbours(first.children, id, behind, first.id);
      FindInside(first.children, id);
      FindInside(first.children, n);
    } else if !behind && rest[0].id == id {
      assert Find(rest, id) == rest[0];
    } else {
      Neighbours(rest, id, behind, above);
    }
  }

  lemma {:induction false} FindJoined(ts: seq<Node>, sibling: NodeId, x: Node, behind: bool, id: NodeId)
    requires Distinct(ts) && DistinctIn(x) && IdsOf(x) !! Ids(ts) && sibling in Ids(ts) && id in IdsOf(x)
    ensures id in Ids(Beside(ts, sibling, x, behind))
    ensures Find(Beside(ts, sibling, x, behind), id) == Find([x], id)
  {
    var first, rest, now := ts[0], ts[1..], Beside(ts, sibling, x, behind);
    BesideIds(ts, sibling, x, behind);
    if first.id == sibling {
      if behind {
        assert now[1..] == [x] + rest;
        assert id in Ids([x]);
        assert Find([x] + rest, id) == Find([x], id);
      }
    } else if sibling in Ids(first.children) {
      BesideIds(first.children, sibling, x, behind);
      FindJoined(first.children, sibling, x, behind, id);
    } else {
      assert now[1..] == Beside(rest, sibling, x, behind);
      FindJoined(rest, sibling, x, behind, id);
    }
  }

  /** What lies beyond a node and its neighbour on that side. */
  lemma {:induction false} NeighbourOrder(ts: seq<Node>, id: NodeId, behind: bool)
    requires Distinct(ts) && id in Ids(ts) && NextTo(ts, id, behind).Some? && NextTo(ts, id, behind).value in Ids(ts)
    ensures var n := NextTo(ts, id, behind).value;
            if behind then After(ts, id) == LeavesOf(Find(ts, n)) + After(ts, n)
            else Before(ts, id) == Before(ts, n) + LeavesOf(Find(ts, n))
  {
    var first, rest := ts[0], ts[1..];
    var n := NextTo(ts, id, behind).value;
    Neighbours(ts, id, behind, 0);
    if first.id == id {
      assert n == rest[0].id;
    } else if id in Ids(first.children) {
      Neighbours(first.children, id, behind, 0);
      NeighbourOrder(first.children, id, behind);
      Associate(LeavesOf(Find(ts, n)), After(first.children, n), Leaves(rest));
      Associate(Own(first), Before(first.children, n), LeavesOf(Find(ts, n)));
    } else if !behind && rest[0].id == id {
      assert Before(rest, id) == [];
    } else {
      Neighbours(rest, id, behind, 0);
      NeighbourOrder(rest, id, behind);
      Associate(LeavesOf(first), Before(rest, n), LeavesOf(Find(ts, n)));
    }
  }

  /** Taking out a node leaves what lies beyond its neighbour. */
  lemma {:induction false} BeyondNeighbour(ts: seq<Node>, id: NodeId, behind: bool)
    requires Distinct(ts) && id in Ids(ts) && NextTo(ts, id, behind).Some?
    ensures var n := NextTo(ts, id, behind).value;
            n in Ids(ts) && n in Ids(Without(ts, id)) &&
            Find(Without(ts, id), n) == Find(ts, n) &&
            if behind then After(Without(ts, id), n) == After(ts, n) else Before(Without(ts, id), n) == Before(ts, n)
  {
    var first, rest, now := ts[0], ts[1..], Without(ts, id);
    var n := NextTo(ts, id, behind).value;
    Neighbours(ts, id, behind, 0);
    if first.id == id {
      assert n == rest[0].id;
    } else if id in Ids(first.children) {
      Neighbours(first.children, id, behind, 0);
      BeyondNeighbour(first.children, id, behind);
      assert now[1..] == rest;
    } else if !behind && rest[0].id == id {
      assert n == first.id && now[0] == first;
    } else {
      Neighbours(rest, id, behind, 0);
      BeyondNeighbour(rest, id, behind);
      assert now[1..] == Without(rest, id);
    }
  }

  // Undoing.

  lemma {:induction false} WithoutBeside(ts: seq<Node>, sibling: NodeId, x: Node, behind: bool)
    requires sibling in Ids(ts) && x.id !in Ids(ts)
    ensures Without(Beside(ts, sibling, x, behind), x.id) == ts
  {
    var first, rest, now := ts[0], ts[1..], Beside(ts, sibling, x, behind);
    if first.id == sibling {
      if behind {
        assert now[1..] == [x] + rest;
        assert Without([x] + rest, x.id) == rest;
      } else {
        assert now[1..] == ts;
      }
    } else if sibling in Ids(first.children) {
      WithoutBeside(first.children, sibling, x, behind);
      BesideHolds(first.children, sibling, x, behind);
      assert now[1..] == rest;
    } else {
      WithoutBeside(rest, sibling, x, behind);
      assert now[1..] == Beside(rest, sibling, x, behind);
    }
  }

  lemma {:induction false} BesideHolds(ts: seq<Node>, sibling: NodeId, x: Node, behind: bool)
    requires sibling in Ids(ts)
    ensures x.id in Ids(Beside(ts, sibling, x, behind))
  {
    var first, rest, now := ts[0], ts[1..], Beside(ts, sibling, x, behind);
    if first.id == sibling {
      if behind {
        assert now[1..] == [x] + rest;
      }
    } else if sibling in Ids(first.children) {
      BesideHolds(first.children, sibling, x, behind);
    } else {
      BesideHolds(rest, sibling, x, behind);
      assert now[1..] == Beside(rest, sibling, x, behind);
    }
  }

  /** A node in front of or behind its neighbour, put back there. */
  lemma PutBackHere(a: Node, b: Node, ts: seq<Node>)
    requires a.id != b.id && b.id !in IdsOf(a)
    ensures b.id in Ids([b] + ts) && Beside([b] + ts, b.id, a, false) == [a] + ([b] + ts)
    ensures a.id in Ids([a] + ts) && Beside([a] + ts, a.id, b, true) == [a] + ([b] + ts)
  {
    assert ([b] + ts)[1..] == ts && ([a] + ts)[1..] == ts;
  }

  lemma BesidePast(n: Node, ts: seq<Node>, sibling: NodeId, x: Node, behind: bool)
    requires sibling !in IdsOf(n) && sibling in Ids(ts)
    ensures sibling in Ids([n] + ts) && Beside([n] + ts, sibling, x, behind) == [n] + Beside(ts, sibling, x, behind)
  {
    assert ([n] + ts)[1..] == ts;
  }

  lemma BesideUnder(n: Node, ts: seq<Node>, sibling: NodeId, x: Node, behind: bool)
    requires sibling != n.id && sibling in Ids(n.children)
    ensures sibling in Ids([n] + ts)
    ensures Beside([n] + ts, sibling, x, behind) == [n.(children := Beside(n.children, sibling, x, behind))] + ts
  {
    assert ([n] + ts)[1..] == ts;
  }

  /** A node put back on its side of its neighbour is where it was. */
  lemma {:induction false} PutBack(ts: seq<Node>, id: NodeId, behind: bool)
    requires Distinct(ts) && id in Ids(ts) && NextTo(ts, id, behind).Some?
    ensures var n := NextTo(ts, id, behind).value;
            n in Ids(Without(ts, id)) && Beside(Without(ts, id), n, Find(ts, id), !behind) == ts
  {
    var first, rest := ts[0], ts[1..];
    var n := NextTo(ts, id, behind).value;
    Neighbours(ts, id, behind, 0);
    assert ts == [first] + rest;
    if first.id == id {
      assert rest == [rest[0]] + rest[1..];
      PutBackHere(first, rest[0], rest[1..]);
    } else if id in Ids(first.children) {
      Neighbours(first.children, id, behind, 0);
      PutBack(first.children, id, behind);
      WithoutIds(first.children, id);
      BesideUnder(first.(children := Without(first.children, id)), rest, n, Find(ts, id), !behind);
    } else if !behind && rest[0].id == id {
      assert rest == [rest[0]] + rest[1..];
      PutBackHere(first, rest[0], rest[1..]);
    } else {
      Neighbours(rest, id, behind, 0);
      PutBack(rest, id, behind);
      BesidePast(first, Without(rest, id), n, Find(ts, id), !behind);
    }
  }

  /** A node put next to another is its neighbour. */
  lemma {:induction false} NextToPlaced(ts: seq<Node>, sibling: NodeId, x: Node, behind: bool)
    requires Distinct(ts) && DistinctIn(x) && IdsOf(x) !! Ids(ts) && sibling in Ids(ts)
    ensures x.id in Ids(Beside(ts, sibling, x, behind))
    ensures NextTo(Beside(ts, sibling, x, behind), x.id, !behind) == Some(sibling)
  {
    var first, rest, now := ts[0], ts[1..], Beside(ts, sibling, x, behind);
    BesideHolds(ts, sibling, x, behind);
    if first.id == sibling {
      if behind {
        assert now[1..] == [x] + rest;
      } else {
        assert now[1..] == ts;
      }
    } else if sibling in Ids(first.children) {
      BesideHolds(first.children, sibling, x, behind);
      NextToPlaced(first.children, sibling, x, behind);
      assert now[1..] == rest;
    } else {
      BesideHolds(rest, sibling, x, behind);
      NextToPlaced(rest, sibling, x, behind);
      assert now[1..] == Beside(rest, sibling, x, behind);
      if rest[0].id == sibling && behind {
        assert Beside(rest, sibling, x, behind)[0] == rest[0];
      }
      assert behind ==> now[1].id != x.id;
    }
  }

  // One more at the end.

  lemma {:induction false} AppendIds(ts: seq<Node>, x: Node)
    requires Distinct(ts) && DistinctIn(x) && IdsOf(x) !! Ids(ts)
    ensures Ids(ts + [x]) == Ids(ts) + IdsOf(x) && Distinct(ts + [x]) && Tops(ts + [x]) == Tops(ts) + {x.id}
    ensures Count(ts + [x]) == Count(ts) + CountOf(x)
  {
    if ts == [] {
      assert [x][1..] == [];
    } else {
      AppendIds(ts[1..], x);
      assert (ts + [x])[1..] == ts[1..] + [x];
    }
  }

  lemma {:induction false} AppendLeaves(ts: seq<Node>, x: Node)
    ensures Leaves(ts + [x]) == Leaves(ts) + LeavesOf(x)
  {
    if ts == [] {
      LeavesCons(x, []);
    } else {
      AppendLeaves(ts[1..], x);
      assert (ts + [x])[1..] == ts[1..] + [x];
      Associate(LeavesOf(ts[0]), Leaves(ts[1..]), LeavesOf(x));
    }
  }

  lemma {:induction false} AppendFind(ts: seq<Node>, x: Node, id: NodeId)
    requires id in Ids(ts)
    ensures id in Ids(ts + [x]) && Find(ts + [x], id) == Find(ts, id)
  {
    assert (ts + [x])[1..] == ts[1..] + [x];
    if ts[0].id != id && id !in Ids(ts[0].children) {
      AppendFind(ts[1..], x, id);
    }
  }

  lemma {:induction false} AppendProper(ts: seq<Node>, x: Node, holes: set<NodeId>)
    requires Proper(ts, holes) && Proper([x], holes)
    ensures Proper(ts + [x], holes)
  {
    if ts != [] {
      AppendProper(ts[1..], x, holes);
      assert (ts + [x])[1..] == ts[1..] + [x];
    } else {
      assert ts + [x] == [x];
    }
  }

  /** A window is where its node is. */
  lemma {:induction false} LeafFound(ts: seq<Node>, leaf: Leaf)
    requires Distinct(ts) && leaf in Leaves(ts)
    ensures leaf.0 in Ids(ts) && Find(ts, leaf.0).window == Some(leaf.1)
  {
    var first, rest := ts[0], ts[1..];
    if leaf in Own(first) {
    } else if leaf in Leaves(first.children) {
      LeafFound(first.children, leaf);
    } else {
      LeafFound(rest, leaf);
    }
  }
}
