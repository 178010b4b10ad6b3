/** Which windows of a layout show (`src/model/layout_tree.rs`, `is_visible`
    and `visible_windows_under`), and which ones come to show when a node is
    selected (`select_returning_surfaced_windows`). A group shows only the
    child it selects. */
module LayoutVisibility {
  import opened Options
  import opened Windows
  import opened LayoutForest
  import opened LayoutTrees
  import opened LayoutMoves

  // From a node up.

  /** A node's parent shows it. */
  predicate Open(t: Tree, id: NodeId)
    requires Formed(t) && id in Ids(t.nodes)
  {
    id == t.root ||
    (ParentInTree(t, id);
     Find(t.nodes, Parent(t, id)).kind.IsGroup() ==> LocalSelection(t.selection, Parent(t, id)) == Some(id))
  }

  lemma Upward(t: Tree, id: NodeId)
    requires Formed(t) && id in Ids(t.nodes) && id != t.root
    ensures Parent(t, id) in Ids(t.nodes)
    ensures Count(t.nodes) - CountOf(Find(t.nodes, Parent(t, id))) < Count(t.nodes) - CountOf(Find(t.nodes, id))
    ensures 0 <= Count(t.nodes) - CountOf(Find(t.nodes, Parent(t, id)))
  {
    ParentInTree(t, id);
    Bigger(t.nodes, Parent(t, id), id);
    FoundCounts(t.nodes, Parent(t, id));
  }

  /** Every node on the way up to `top` is shown by its parent. */
  predicate UpTo(t: Tree, id: NodeId, top: NodeId)
    requires Formed(t) && id in Ids(t.nodes)
    decreases Count(t.nodes) - CountOf(Find(t.nodes, id))
  {
    id == top || (id != t.root && Open(t, id) && (Upward(t, id); UpTo(t, Parent(t, id), top)))
  }

  predicate IsVisible(t: Tree, id: NodeId)
    requires Formed(t) && id in Ids(t.nodes)
  {
    UpTo(t, id, t.root)
  }

  // From a node down.

  /** Which of a node's children show: all, or at most one. */
  datatype Pass = All | Only(child: Option<NodeId>)

  predicate Passes(pass: Pass, id: NodeId) { pass.All? || pass.child == Some(id) }

  function PassOf(n: Node, s: Selection): Pass
  {
    if n.kind.IsGroup() then Only(LocalSelection(s, n.id)) else All
  }

  /** The nodes that show in a forest. */
  function Visible(ts: seq<Node>, s: Selection, pass: Pass): set<NodeId>
  {
    if ts == [] then {}
    else (if Passes(pass, ts[0].id) then {ts[0].id} + Visible(ts[0].children, s, PassOf(ts[0], s)) else {})
         + Visible(ts[1..], s, pass)
  }

  lemma {:induction false} VisibleInside(ts: seq<Node>, s: Selection, pass: Pass)
    ensures Visible(ts, s, pass) <= Ids(ts)
  {
    if ts != [] {
      VisibleInside(ts[0].children, s, PassOf(ts[0], s));
      VisibleInside(ts[1..], s, pass);
    }
  }

  /** A node shows when its parent shows and shows it. */
  lemma {:induction false} VisibleStep(ts: seq<Node>, s: Selection, pass: Pass, id: NodeId, above: NodeId)
    requires Distinct(ts) && id in Ids(ts) && above !in Ids(ts)
    ensures var p := ParentOf(ts, id, above);
            id in Visible(ts, s, pass) <==>
            if p == above then Passes(pass, id)
            else p in Visible(ts, s, pass) && Passes(PassOf(Find(ts, p), s), id)
  {
    var first, rest := ts[0], ts[1..];
    VisibleInside(first.children, s, PassOf(first, s));
    VisibleInside(rest, s, pass);
    ParentFacts(ts, id, above);
    if first.id == id {
    } else if id in Ids(first.children) {
      ParentFacts(first.children, id, first.id);
      VisibleStep(first.children, s, PassOf(first, s), id, first.id);
    } else {
      ParentFacts(rest, id, above);
      VisibleStep(rest, s, pass, id, above);
    }
  }

  /** What shows in a forest does so without what is around it. */
  lemma {:induction false} VisibleAlone(n: Node, s: Selection)
    requires DistinctIn(n)
    ensures n.id in Visible([n], s, All) && Visible([n], s, All) <= IdsOf(n)
  {
    assert [n][1..] == [];
    VisibleInside(n.children, s, PassOf(n, s));
  }

  lemma {:induction false} ParentWithin(ts: seq<Node>, x: NodeId, id: NodeId, above: NodeId)
    requires Distinct(ts) && x in Ids(ts) && id in Ids(Find(ts, x).children)
    ensures id in Ids(ts) && ParentOf(ts, id, above) == ParentOf(Find(ts, x).children, id, x)
  {
    FindDown(ts, x, id);
    FindInside(ts, x);
    if ts[0].id == x {
    } else if x in Ids(ts[0].children) {
      FindInside(ts[0].children, x);
      ParentWithin(ts[0].children, x, id, ts[0].id);
    } else {
      FindInside(ts[1..], x);
      ParentWithin(ts[1..], x, id, above);
    }
  }

  /** Looking from the node up and from `top` down comes to the same. */
  lemma {:induction false} BothWays(t: Tree, id: NodeId, top: NodeId)
    requires Formed(t) && top in Ids(t.nodes) && id in Ids(t.nodes)
    ensures UpTo(t, id, top) <==> id in Visible([Find(t.nodes, top)], t.selection, All)
    decreases Count(t.nodes) - CountOf(Find(t.nodes, id))
  {
    var n := Find(t.nodes, top);
    FindInside(t.nodes, top);
    VisibleAlone(n, t.selection);
    if id == t.root {
      if id != top {
        RootOutside(t, top);
      }
    } else {
      Upward(t, id);
      BothWays(t, Parent(t, id), top);
      if id in Ids(n.children) {
        StepWithin(t, id, top);
      } else if id != top && Parent(t, id) in IdsOf(n) {
        ParentInTree(t, id);
        UnderTop(t, id, top);
      }
    }
  }

  lemma StepWithin(t: Tree, id: NodeId, top: NodeId)
    requires Formed(t) && top in Ids(t.nodes) && id in Ids(Find(t.nodes, top).children)
    ensures id in Ids(t.nodes) && id != t.root && id != top && Parent(t, id) in IdsOf(Find(t.nodes, top))
    ensures Parent(t, id) in Ids(t.nodes)
    ensures id in Visible([Find(t.nodes, top)], t.selection, All) <==>
            Parent(t, id) in Visible([Find(t.nodes, top)], t.selection, All) && Open(t, id)
  {
    var n := Find(t.nodes, top);
    FindInside(t.nodes, top);
    FindDown(t.nodes, top, id);
    ParentWithin(t.nodes, top, id, t.root);
    NotUnder(t.nodes, top, id);
    UnderRoot(t, top);
    ParentInTree(t, id);
    assert [n][1..] == [];
    VisibleStep(n.children, t.selection, PassOf(n, t.selection), id, top);
    VisibleInside(n.children, t.selection, PassOf(n, t.selection));
    if Parent(t, id) != top {
      FindDown(t.nodes, top, Parent(t, id));
    }
  }

  lemma UnderTop(t: Tree, id: NodeId, top: NodeId)
    requires Formed(t) && top in Ids(t.nodes) && id in Ids(t.nodes) && id != t.root
    ensures Parent(t, id) in IdsOf(Find(t.nodes, top)) ==> id in Ids(Find(t.nodes, top).children)
  {
    ParentInTree(t, id);
    if Parent(t, id) in Ids(Find(t.nodes, top).children) {
      ChildInside(t.nodes, top, Parent(t, id), id);
    }
  }

  /** A layout shows the nodes that are visible, and no others. */
  lemma VisibleAgrees(t: Tree, id: NodeId)
    requires Formed(t) && id in Ids(t.nodes)
    ensures IsVisible(t, id) <==> id in Visible(t.nodes, t.selection, All)
  {
    UnderRoot(t, id);
    assert [Find(t.nodes, t.root)] == t.nodes;
    BothWays(t, id, t.root);
  }

  // The walk with a stack.

  lemma {:induction false} VisibleJoined(a: seq<Node>, b: seq<Node>, s: Selection, pass: Pass)
    ensures Visible(a + b, s, pass) == Visible(a, s, pass) + Visible(b, s, pass)
  {
    if a == [] {
      assert a + b == b;
    } else {
      VisibleJoined(a[1..], b, s, pass);
      assert (a + b)[1..] == a[1..] + b;
    }
  }

  lemma {:induction false} Joining(a: seq<Node>, b: seq<Node>)
    ensures Ids(a + b) == Ids(a) + Ids(b) && Count(a + b) == Count(a) + Count(b)
    ensures Distinct(a + b) <==> Distinct(a) && Distinct(b) && Ids(a) !! Ids(b)
  {
    if a == [] {
      assert a + b == b;
    } else {
      Joining(a[1..], b);
      assert (a + b)[1..] == a[1..] + b;
    }
  }

  /** The child with an id, in a list of its own. */
  function Pick(ts: seq<Node>, id: NodeId): seq<Node>
  {
    if ts == [] then [] else if ts[0].id == id then [ts[0]] else Pick(ts[1..], id)
  }

  /** The children a node shows. */
  function ShownChildren(n: Node, s: Selection): seq<Node>
  {
    if !n.kind.IsGroup() then n.children
    else match LocalSelection(s, n.id)
      case Some(c) => Pick(n.children, c)
      case None => []
  }

  lemma {:induction false} VisibleNone(ts: seq<Node>, s: Selection, pass: Pass)
    requires pass.Only? && forall id <- Tops(ts) :: pass.child != Some(id)
    ensures Visible(ts, s, pass) == {}
  {
    if ts != [] {
      VisibleNone(ts[1..], s, pass);
    }
  }

  lemma {:induction false} PickShows(ts: seq<Node>, s: Selection, id: NodeId)
    requires Distinct(ts)
    ensures Visible(Pick(ts, id), s, All) == Visible(ts, s, Only(Some(id)))
    ensures Distinct(Pick(ts, id)) && Ids(Pick(ts, id)) <= Ids(ts) && Count(Pick(ts, id)) <= Count(ts)
  {
    if ts != [] {
      PickShows(ts[1..], s, id);
      if ts[0].id == id {
        TopsInside(ts[1..]);
        VisibleNone(ts[1..], s, Only(Some(id)));
        assert [ts[0]][1..] == [];
      }
    }
  }

  lemma ShownChildrenShow(n: Node, s: Selection)
    requires DistinctIn(n)
    ensures var kids := ShownChildren(n, s);
            Visible(kids, s, All) == Visible(n.children, s, PassOf(n, s)) &&
            Distinct(kids) && Ids(kids) <= Ids(n.children) && Count(kids) <= Count(n.children)
  {
    if n.kind.IsGroup() {
      match LocalSelection(s, n.id)
      case Some(c) => PickShows(n.children, s, c);
      case None => VisibleNone(n.children, s, Only(None));
    }
  }

  /** What the stack shows is its last node and what the rest and that node's children show. */
  lemma StackStep(rest: seq<Node>, top: Node, s: Selection)
    requires Distinct(rest + [top])
    ensures var next := rest + ShownChildren(top, s);
            Visible(rest + [top], s, All) == {top.id} + Visible(next, s, All) &&
            top.id !in Ids(next) && Distinct(next) && Count(next) < Count(rest + [top])
  {
    Joining(rest, [top]);
    Joining(rest, ShownChildren(top, s));
    ShownChildrenShow(top, s);
    VisibleJoined(rest, [top], s, All);
    VisibleJoined(rest, ShownChildren(top, s), s, All);
    assert [top][1..] == [];
  }

  function WindowsAt(ns: seq<Node>): seq<WindowId>
  {
    if ns == [] then []
    else (if ns[0].window.Some? then [ns[0].window.value] else []) + WindowsAt(ns[1..])
  }

  lemma {:induction false} WindowsMore(ns: seq<Node>, n: Node)
    ensures WindowsAt(ns + [n]) == WindowsAt(ns) + if n.window.Some? then [n.window.value] else []
  {
    if ns != [] {
      WindowsMore(ns[1..], n);
      assert (ns + [n])[1..] == ns[1..] + [n];
    }
  }

  predicate EachOnce(ns: seq<Node>)
  {
    forall i, j :: 0 <= i < j < |ns| ==> ns[i].id != ns[j].id
  }

  function IdsAt(ns: seq<Node>): set<NodeId>
  {
    set n <- ns :: n.id
  }

  lemma OneMore(ns: seq<Node>, n: Node)
    requires EachOnce(ns) && n.id !in IdsAt(ns)
    ensures EachOnce(ns + [n]) && IdsAt(ns + [n]) == IdsAt(ns) + {n.id}
  {
    assert forall m <- ns :: m.id in IdsAt(ns);
  }

  /** These are nodes of the forest as they are there. */
  predicate Among(ns: seq<Node>, ts: seq<Node>)
  {
    forall n <- ns :: n.id in Ids(ts) && Find(ts, n.id) == n
  }

  lemma {:induction false} FindTop(ts: seq<Node>, n: Node)
    requires Distinct(ts) && n in ts
    ensures n.id in Ids(ts) && Find(ts, n.id) == n
  {
    if n != ts[0] {
      FindTop(ts[1..], n);
    }
  }

  lemma {:induction false} PickAmong(ts: seq<Node>, id: NodeId)
    ensures forall n <- Pick(ts, id) :: n in ts
  {
    if ts != [] {
      PickAmong(ts[1..], id);
    }
  }

  lemma ShownAmong(ts: seq<Node>, top: Node, s: Selection)
    requires Distinct(ts) && top.id in Ids(ts) && Find(ts, top.id) == top
    ensures Among(ShownChildren(top, s), ts)
  {
    forall c <- ShownChildren(top, s) ensures c.id in Ids(ts) && Find(ts, c.id) == c {
      if top.kind.IsGroup() && LocalSelection(s, top.id).Some? {
        PickAmong(top.children, LocalSelection(s, top.id).value);
      }
      FindInside(ts, top.id);
      FindTop(top.children, c);
      FindDown(ts, top.id, c.id);
    }
  }

  /** What the walk keeps: what it has popped and what its stack shows is what the node shows. */
  ghost predicate Walked(n: Node, s: Selection, stack: seq<Node>, popped: seq<Node>)
  {
    Distinct(stack) && EachOnce(popped) && IdsAt(popped) !! Ids(stack) &&
    IdsAt(popped) + Visible(stack, s, All) == Visible([n], s, All)
  }

  lemma WalkStep(n: Node, s: Selection, rest: seq<Node>, top: Node, popped: seq<Node>)
    requires Walked(n, s, rest + [top], popped)
    ensures Walked(n, s, rest + ShownChildren(top, s), popped + [top])
  {
    StackStep(rest, top, s);
    Joining(rest, [top]);
    Joining(rest, ShownChildren(top, s));
    ShownChildrenShow(top, s);
    assert [top][1..] == [];
    OneMore(popped, top);
  }

  lemma AmongStep(n: Node, s: Selection, rest: seq<Node>, top: Node, popped: seq<Node>)
    requires DistinctIn(n) && Among(rest + [top], [n]) && Among(popped, [n])
    ensures Among(rest + ShownChildren(top, s), [n]) && Among(popped + [top], [n])
  {
    assert top in rest + [top] && forall m <- rest :: m in rest + [top];
    ShownAmong([n], top, s);
  }

  lemma WalkStarts(n: Node, s: Selection)
    requires DistinctIn(n)
    ensures Walked(n, s, [n], [])
  {
    assert [n][1..] == [];
  }

  /** The walk pops every visible node once and no other, and lists their windows as it goes. */
  method VisibleWindowsUnder(n: Node, s: Selection) returns (windows: seq<WindowId>, popped: seq<Node>)
    requires DistinctIn(n)
    ensures windows == WindowsAt(popped)
    ensures Among(popped, [n]) && EachOnce(popped) && IdsAt(popped) == Visible([n], s, All)
  {
    var stack := [n];
    windows, popped := [], [];
    WalkStarts(n, s);
    while stack != []
      invariant Among(stack, [n]) && Among(popped, [n])
      invariant Walked(n, s, stack, popped) && windows == WindowsAt(popped)
      decreases Count(stack)
    {
      var top, rest := stack[|stack| - 1], stack[..|stack| - 1];
      assert stack == rest + [top];
      StackStep(rest, top, s);
      WalkStep(n, s, rest, top, popped);
      AmongStep(n, s, rest, top, popped);
      WindowsMore(popped, top);
      stack := rest + ShownChildren(top, s);
      if top.window.Some? {
        windows := windows + [top.window.value];
      }
      popped := popped + [top];
    }
  }

  /** The check from the node up. */
  method CheckVisible(t: Tree, id: NodeId) returns (visible: bool)
    requires Formed(t) && id in Ids(t.nodes)
    ensures visible <==> IsVisible(t, id)
  {
    var node := id;
    while node != t.root
      invariant node in Ids(t.nodes) && (IsVisible(t, node) <==> IsVisible(t, id))
      decreases Count(t.nodes) - CountOf(Find(t.nodes, node))
    {
      Upward(t, node);
      var parent := Parent(t, node);
      if Find(t.nodes, parent).kind.IsGroup() && LocalSelection(t.selection, parent) != Some(node) {
        return false;
      }
      node := parent;
    }
    return true;
  }

  // Selecting a node.

  /** Selecting the node in its parent would change what the parent has selected,
      as `select_locally` reports it. */
  predicate Changes(t: Tree, id: NodeId)
    requires Formed(t) && id in Ids(t.nodes)
  {
    !(Parent(t, id) in t.selection && t.selection[Parent(t, id)].child == id)
  }

  /** The highest node on the way up that a group comes to show by that report. */
  function Highest(t: Tree, id: NodeId, best: NodeId): NodeId
    requires Formed(t) && id in Ids(t.nodes)
    decreases Count(t.nodes) - CountOf(Find(t.nodes, id))
  {
    if id == t.root then best
    else
      Upward(t, id);
      Highest(t, Parent(t, id),
              if Changes(t, id) && Find(t.nodes, Parent(t, id)).kind.IsGroup() then id else best)
  }

  /** The highest node on the way up that its parent does not show. */
  function TopHidden(t: Tree, id: NodeId, best: Option<NodeId>): Option<NodeId>
    requires Formed(t) && id in Ids(t.nodes)
    decreases Count(t.nodes) - CountOf(Find(t.nodes, id))
  {
    if id == t.root then best
    else
      Upward(t, id);
      TopHidden(t, Parent(t, id), if Open(t, id) then best else Some(id))
  }

  /** After the node, and every node above it, is selected in its parent. */
  function Selecting(t: Tree, id: NodeId): Tree
    requires Formed(t) && id in Ids(t.nodes)
  {
    t.(selection := SelectUp(t, id, t.root))
  }

  predicate OnPath(t: Tree, id: NodeId, a: NodeId)
  {
    a in Ids(t.nodes) && id in IdsOf(Find(t.nodes, a))
  }

  lemma PathUp(t: Tree, id: NodeId, a: NodeId)
    requires Formed(t) && OnPath(t, id, a) && a != t.root
    ensures id in Ids(t.nodes) && OnPath(t, id, Parent(t, a)) && id in Ids(Find(t.nodes, Parent(t, a)).children)
    ensures a in Ids(Find(t.nodes, Parent(t, a)).children)
  {
    ParentInTree(t, a);
    FindInside(t.nodes, a);
    var p := Find(t.nodes, Parent(t, a));
    FindDown(t.nodes, p.id, a);
    FindInside(t.nodes, p.id);
    FindInside(p.children, a);
  }

  /** Selections that are not on the way up stay. */
  lemma {:induction false} SelectUpOff(t: Tree, id: NodeId, stop: NodeId, p: NodeId)
    requires Formed(t) && id in Ids(t.nodes) && p in Ids(t.nodes) && id !in Ids(Find(t.nodes, p).children)
    ensures LocalSelection(SelectUp(t, id, stop), p) == LocalSelection(t.selection, p)
    decreases Count(t.nodes) - CountOf(Find(t.nodes, id))
  {
    if id != stop && id != t.root {
      Upward(t, id);
      ParentInTree(t, id);
      UnderTop(t, id, p);
      SelectUpOff(t.(selection := t.selection[Parent(t, id) := Selected(id, false)]), Parent(t, id), stop, p);
    }
  }

  /** A node that was selected where it was is selected where a move takes it. */
  lemma MovedStaysSelected(t: Tree, id: NodeId, dir: Direction, spare: NodeId)
    requires Sound(t) && id in Ids(t.nodes) && id != t.root && spare !in Ids(t.nodes)
    requires LocalSelection(t.selection, Parent(t, id)) == Some(id) && Move(t, id, dir, spare).Some?
    ensures var t' := Move(t, id, dir, spare).value;
            Formed(t') && id in Ids(t'.nodes) && id != t'.root && LocalSelection(t'.selection, Parent(t', id)) == Some(id)
  {
    MoveKeeps(t, id, dir, spare);
    MoveInnerForms(t, id, dir, spare);
    MovedIsNoRoot(t, id, dir, spare);
    ParentInTree(t, id);
    var t1, stop := MoveInner(t, id, dir, spare).value, Parent(t, id);
    ParentInTree(t1, id);
    Upward(t1, id);
    FindInside(t1.nodes, Parent(t1, id));
    FindInside(t.nodes, stop);
    var t2 := t1.(selection := t1.selection[Parent(t1, id) := Selected(id, false)]);
    SelectUpOff(t2, Parent(t1, id), stop, Parent(t1, id));
    assert id != stop;
    assert SelectUp(t1, id, stop) == SelectUp(t2, Parent(t1, id), stop);
  }

  lemma MovedIsNoRoot(t: Tree, id: NodeId, dir: Direction, spare: NodeId)
    requires Formed(t) && id in Ids(t.nodes) && id != t.root && spare !in Ids(t.nodes)
    requires MoveInner(t, id, dir, spare).Some?
    ensures MoveInner(t, id, dir, spare).value.root != id
  {
    if Goal(t, id, dir).Some? {
      GoalMovable(t, id, dir);
      GoForms(t, id, Goal(t, id, dir).value, dir);
    } else {
      NestedForms(t, spare, KindFor(dir.Orientation()));
      RootOutside(t, id);
      UnderRoot(t, id);
      GoForms(Nested(t, spare, KindFor(dir.Orientation())), id, Ahead(t.root), dir);
    }
  }

  /** Every node on the way up is selected by its parent. */
  lemma {:induction false} SelectUpOn(t: Tree, id: NodeId, a: NodeId)
    requires Formed(t) && id in Ids(t.nodes) && OnPath(t, id, a) && a != t.root
    ensures LocalSelection(SelectUp(t, id, t.root), Parent(t, a)) == Some(a)
    decreases Count(t.nodes) - CountOf(Find(t.nodes, id))
  {
    if id == t.root {
      RootOutside(t, a);
    } else {
      Upward(t, id);
      ParentInTree(t, id);
      FindInside(t.nodes, Parent(t, id));
      var t1 := t.(selection := t.selection[Parent(t, id) := Selected(id, false)]);
      if a == id {
        SelectUpOff(t1, Parent(t, id), t.root, Parent(t, id));
      } else {
        ParentInside(t.nodes, a, id, t.root);
        SelectUpOn(t1, Parent(t, id), a);
      }
    }
  }

  lemma SelectingForms(t: Tree, id: NodeId)
    requires Formed(t) && id in Ids(t.nodes)
    ensures Formed(Selecting(t, id))
  {
    SelectUpPoints(t, id, t.root);
  }

  /** Selecting shows the nodes on the way up and hides their neighbours in groups. */
  lemma SelectingOpens(t: Tree, id: NodeId, b: NodeId)
    requires Formed(t) && id in Ids(t.nodes) && b in Ids(t.nodes)
    ensures Formed(Selecting(t, id))
    ensures OnPath(t, id, b) ==> Open(Selecting(t, id), b)
    ensures Open(Selecting(t, id), b) && !OnPath(t, id, b) ==> Open(t, b)
    ensures b != t.root && !OnPath(t, id, b) && id in Ids(Find(t.nodes, Parent(t, b)).children) ==>
              (Find(t.nodes, Parent(t, b)).kind.IsGroup() ==> !Open(Selecting(t, id), b))
    ensures b != t.root && id !in Ids(Find(t.nodes, Parent(t, b)).children) ==>
              (Open(Selecting(t, id), b) <==> Open(t, b))
  {
    SelectingForms(t, id);
    if b != t.root {
      ParentInTree(t, b);
      var p := Parent(t, b);
      if OnPath(t, id, b) {
        SelectUpOn(t, id, b);
        PathUp(t, id, b);
      } else if id in Ids(Find(t.nodes, p).children) {
        var a := Toward(t, id, p);
        SelectUpOn(t, id, a);
      } else {
        SelectUpOff(t, id, t.root, p);
      }
    }
  }

  /** The child of `p` on the way up from a node under it. */
  lemma {:induction false} Toward(t: Tree, id: NodeId, p: NodeId) returns (a: NodeId)
    requires Formed(t) && id in Ids(t.nodes) && p in Ids(t.nodes) && id in Ids(Find(t.nodes, p).children)
    ensures OnPath(t, id, a) && a != t.root && Parent(t, a) == p
    decreases Count(t.nodes) - CountOf(Find(t.nodes, id))
  {
    StepWithin(t, id, p);
    if Parent(t, id) == p {
      a := id;
    } else {
      Upward(t, id);
      a := Toward(t, Parent(t, id), p);
      ParentInTree(t, id);
      UnderTop(t, id, a);
    }
  }

  // Ways up.

  lemma UpToUnder(t: Tree, n: NodeId, x: NodeId)
    requires Formed(t) && n in Ids(t.nodes) && x in Ids(t.nodes) && UpTo(t, n, x)
    ensures n in IdsOf(Find(t.nodes, x))
  {
    BothWays(t, n, x);
    FindInside(t.nodes, x);
    VisibleAlone(Find(t.nodes, x), t.selection);
  }

  lemma {:induction false} UpToJoins(t: Tree, n: NodeId, x: NodeId, y: NodeId)
    requires Formed(t) && n in Ids(t.nodes) && x in Ids(t.nodes) && UpTo(t, n, x) && UpTo(t, x, y)
    ensures UpTo(t, n, y)
    decreases Count(t.nodes) - CountOf(Find(t.nodes, n))
  {
    if n != x {
      Upward(t, n);
      UpToJoins(t, Parent(t, n), x, y);
    }
  }

  lemma {:induction false} UpToSplits(t: Tree, n: NodeId, x: NodeId, y: NodeId)
    requires Formed(t) && x in Ids(t.nodes) && y in Ids(t.nodes)
    requires n in IdsOf(Find(t.nodes, x)) && x in IdsOf(Find(t.nodes, y))
    ensures n in Ids(t.nodes) && (UpTo(t, n, y) ==> UpTo(t, n, x) && UpTo(t, x, y))
    decreases CountOf(Find(t.nodes, x)) + Count(t.nodes) - (if n in Ids(t.nodes) then CountOf(Find(t.nodes, n)) else 0)
  {
    FindInside(t.nodes, x);
    if n != x && UpTo(t, n, y) {
      StepWithin(t, n, x);
      Upward(t, n);
      if n == y {
        NotUnder(t.nodes, x, n);
      }
      UpToSplits(t, Parent(t, n), x, y);
    }
  }

  /** Nodes on the way up show once the node is selected. */
  lemma {:induction false} PathShows(t: Tree, id: NodeId, a: NodeId, top: NodeId)
    requires Formed(t) && id in Ids(t.nodes) && OnPath(t, id, a) && top in Ids(t.nodes) && a in IdsOf(Find(t.nodes, top))
    ensures Formed(Selecting(t, id)) && UpTo(Selecting(t, id), a, top)
    decreases Count(t.nodes) - CountOf(Find(t.nodes, a))
  {
    SelectingForms(t, id);
    if a != top {
      StepWithin(t, a, top);
      Upward(t, a);
      PathUp(t, id, a);
      SelectingOpens(t, id, a);
      PathShows(t, id, Parent(t, a), top);
    }
  }

  // What comes to show.

  /** What is under a node is under the nodes above that. */
  lemma UnderUnder(ts: seq<Node>, x: NodeId, y: NodeId, z: NodeId)
    requires Distinct(ts) && y in Ids(ts) && z in Ids(ts) && x in IdsOf(Find(ts, y)) && y in IdsOf(Find(ts, z))
    ensures x in Ids(ts) && x in IdsOf(Find(ts, z))
  {
    FindInside(ts, z);
    if y != z {
      FindDown(ts, z, y);
      FindInside(Find(ts, z).children, y);
    }
  }

  /** The highest hidden node is on the way up and hidden, and every hidden node on the way up is under it. */
  lemma {:induction false} TopHiddenIs(t: Tree, id: NodeId, a: NodeId, best: Option<NodeId>)
    requires Formed(t) && OnPath(t, id, a)
    requires best.Some? ==> OnPath(t, id, best.value) && !Open(t, best.value) && best.value in IdsOf(Find(t.nodes, a))
    ensures id in Ids(t.nodes)
    ensures var top := TopHidden(t, a, best);
            (top.Some? ==> OnPath(t, id, top.value) && !Open(t, top.value)) &&
            (best.Some? ==> top.Some? && best.value in IdsOf(Find(t.nodes, top.value)))
    decreases Count(t.nodes) - CountOf(Find(t.nodes, a))
  {
    FindInside(t.nodes, a);
    if a != t.root {
      PathUp(t, id, a);
      Upward(t, a);
      var p := Parent(t, a);
      if best.Some? {
        UnderUnder(t.nodes, best.value, a, p);
      }
      var next := if Open(t, a) then best else Some(a);
      TopHiddenIs(t, id, p, next);
      if best.Some? && !Open(t, a) {
        UnderUnder(t.nodes, best.value, a, TopHidden(t, p, next).value);
      }
    }
  }

  /** A hidden node on the way up is under the highest one. */
  lemma {:induction false} HiddenUnderTop(t: Tree, id: NodeId, a: NodeId, b: NodeId, best: Option<NodeId>)
    requires Formed(t) && OnPath(t, id, a) && OnPath(t, id, b) && !Open(t, b) && a in IdsOf(Find(t.nodes, b))
    requires best.Some? ==> OnPath(t, id, best.value) && !Open(t, best.value) && best.value in IdsOf(Find(t.nodes, a))
    ensures var top := TopHidden(t, a, best);
            top.Some? && top.value in Ids(t.nodes) && b in IdsOf(Find(t.nodes, top.value))
    decreases Count(t.nodes) - CountOf(Find(t.nodes, a))
  {
    FindInside(t.nodes, a);
    if a == t.root {
      if b != t.root {
        RootOutside(t, b);
      }
    } else {
      PathUp(t, id, a);
      Upward(t, a);
      var p := Parent(t, a);
      if best.Some? {
        UnderUnder(t.nodes, best.value, a, p);
      }
      var next := if Open(t, a) then best else Some(a);
      if a == b {
        TopHiddenIs(t, id, p, next);
      } else {
        ParentInside(t.nodes, b, a, t.root);
        HiddenUnderTop(t, id, p, b, next);
      }
    }
  }

  /** The node whose windows are returned is on the way up, under the highest hidden node if there is one. */
  lemma {:induction false} HighestIs(t: Tree, id: NodeId, a: NodeId, best: NodeId, hidden: Option<NodeId>)
    requires Formed(t) && OnPath(t, id, a) && OnPath(t, id, best) && best in IdsOf(Find(t.nodes, a))
    requires hidden.Some? ==> OnPath(t, id, hidden.value) && best in IdsOf(Find(t.nodes, hidden.value)) && hidden.value in IdsOf(Find(t.nodes, a))
    ensures OnPath(t, id, Highest(t, a, best))
    ensures var top := TopHidden(t, a, hidden);
            top.Some? ==> top.value in Ids(t.nodes) && Highest(t, a, best) in IdsOf(Find(t.nodes, top.value))
    decreases Count(t.nodes) - CountOf(Find(t.nodes, a))
  {
    FindInside(t.nodes, a);
    if a != t.root {
      PathUp(t, id, a);
      Upward(t, a);
      var p := Parent(t, a);
      UnderUnder(t.nodes, best, a, p);
      if hidden.Some? {
        UnderUnder(t.nodes, hidden.value, a, p);
      }
      var changed := Changes(t, a) && Find(t.nodes, p).kind.IsGroup();
      assert changed ==> !Open(t, a);
      HighestIs(t, id, p, if changed then a else best, if Open(t, a) then hidden else Some(a));
    }
  }

  /** The nodes that selecting a node brings to show. */
  predicate Surfaces(t: Tree, id: NodeId, n: NodeId)
    requires Formed(t) && id in Ids(t.nodes) && n in Ids(t.nodes)
  {
    SelectingForms(t, id);
    IsVisible(Selecting(t, id), n) && !IsVisible(t, n)
  }

  /** The nodes whose windows are returned. */
  predicate Returned(t: Tree, id: NodeId, n: NodeId)
    requires Formed(t) && id in Ids(t.nodes) && n in Ids(t.nodes)
  {
    SelectingForms(t, id);
    UpTo(Selecting(t, id), n, Highest(t, id, id))
  }

  lemma OnOwnPath(t: Tree, id: NodeId)
    requires Formed(t) && id in Ids(t.nodes)
    ensures OnPath(t, id, id) && OnPath(t, id, t.root)
  {
    UnderRoot(t, id);
  }

  /** Every returned window shows afterwards. */
  lemma ReturnedShow(t: Tree, id: NodeId, n: NodeId)
    requires Formed(t) && id in Ids(t.nodes) && n in Ids(t.nodes) && Returned(t, id, n)
    ensures Formed(Selecting(t, id)) && IsVisible(Selecting(t, id), n)
  {
    var top := Highest(t, id, id);
    SelectingForms(t, id);
    OnOwnPath(t, id);
    HighestIs(t, id, id, id, None);
    UnderRoot(t, top);
    PathShows(t, id, top, t.root);
    UpToJoins(Selecting(t, id), n, top, t.root);
  }

  /** A node that shows only afterwards has a hidden node above it, on the way up from the selected one. */
  lemma {:induction false} Unhidden(t: Tree, id: NodeId, n: NodeId) returns (b: NodeId)
    requires Formed(t) && id in Ids(t.nodes) && n in Ids(t.nodes)
    requires Formed(Selecting(t, id)) && IsVisible(Selecting(t, id), n) && !IsVisible(t, n)
    ensures OnPath(t, id, b) && !Open(t, b) && n in IdsOf(Find(t.nodes, b))
    decreases Count(t.nodes) - CountOf(Find(t.nodes, n))
  {
    Upward(t, n);
    SelectingOpens(t, id, n);
    if Open(t, n) {
      b := Unhidden(t, id, Parent(t, n));
      ParentInTree(t, n);
      UnderTop(t, n, b);
    } else {
      b := n;
    }
  }

  /** What comes to show is what shows, afterwards, under the highest hidden node on the way up. */
  lemma SurfacesUnderTop(t: Tree, id: NodeId, n: NodeId)
    requires Formed(t) && id in Ids(t.nodes) && n in Ids(t.nodes)
    ensures Formed(Selecting(t, id))
    ensures var top := TopHidden(t, id, None);
            Surfaces(t, id, n) <==> top.Some? && UpTo(Selecting(t, id), n, top.value)
  {
    SelectingForms(t, id);
    OnOwnPath(t, id);
    TopHiddenIs(t, id, id, None);
    var top, t' := TopHidden(t, id, None), Selecting(t, id);
    if Surfaces(t, id, n) {
      var b := Unhidden(t, id, n);
      HiddenUnderTop(t, id, id, b, None);
      UnderUnder(t.nodes, n, b, top.value);
      UnderRoot(t, top.value);
      UpToSplits(t', n, top.value, t.root);
    }
    if top.Some? && UpTo(t', n, top.value) {
      UnderRoot(t, top.value);
      PathShows(t, id, top.value, t.root);
      UpToJoins(t', n, top.value, t.root);
      UpToUnder(t', n, top.value);
      UpToSplits(t, n, top.value, t.root);
    }
  }

  // Whether all of that is returned.

  predicate HoldsWindow(t: Tree, n: NodeId)
    requires n in Ids(t.nodes)
  {
    Find(t.nodes, n).window.Some?
  }

  /** A window that shows, within the parent of `a`, next to `a`. */
  predicate ShowsBeside(t: Tree, a: NodeId, n: NodeId)
    requires Formed(t) && a in Ids(t.nodes) && a != t.root && n in Ids(t.nodes)
  {
    ParentInTree(t, a);
    HoldsWindow(t, n) && n !in IdsOf(Find(t.nodes, a)) &&
    !Find(t.nodes, Parent(t, a)).kind.IsGroup() && UpTo(t, n, Parent(t, a))
  }

  /** No window shows next to the nodes from `low` up to just below `top`. */
  ghost predicate NothingBeside(t: Tree, low: NodeId, top: NodeId)
    requires Formed(t) && low in Ids(t.nodes) && top in Ids(t.nodes)
  {
    forall a <- Ids(t.nodes), n <- Ids(t.nodes) ::
      a != t.root && low in IdsOf(Find(t.nodes, a)) && a in Ids(Find(t.nodes, top).children) ==> !ShowsBeside(t, a, n)
  }

  lemma OffPath(t: Tree, id: NodeId, a: NodeId, n: NodeId)
    requires Formed(t) && OnPath(t, id, a) && a != t.root
    requires n in Ids(Find(t.nodes, Parent(t, a)).children) && n !in IdsOf(Find(t.nodes, a))
    ensures n in Ids(t.nodes) && !OnPath(t, id, n)
  {
    var p := Parent(t, a);
    ParentInTree(t, a);
    FindDown(t.nodes, p, n);
    NotUnder(t.nodes, p, n);
    if a in Ids(Find(t.nodes, n).children) {
      ParentInside(t.nodes, n, a, t.root);
    }
    if OnPath(t, id, n) {
      if a !in IdsOf(Find(t.nodes, n)) {
        Apart(t.nodes, a, n);
      }
    }
  }

  /** Selecting changes nothing beside the nodes on the way up. */
  lemma {:induction false} BesideStays(t: Tree, id: NodeId, a: NodeId, n: NodeId)
    requires Formed(t) && OnPath(t, id, a) && id in Ids(t.nodes) && a != t.root
    requires n in IdsOf(Find(t.nodes, Parent(t, a))) && n !in IdsOf(Find(t.nodes, a))
    requires !Find(t.nodes, Parent(t, a)).kind.IsGroup()
    ensures n in Ids(t.nodes) && Formed(Selecting(t, id))
    ensures UpTo(Selecting(t, id), n, Parent(t, a)) <==> UpTo(t, n, Parent(t, a))
    decreases CountOf(Find(t.nodes, Parent(t, a))) + Count(t.nodes) - (if n in Ids(t.nodes) then CountOf(Find(t.nodes, n)) else 0)
  {
    var p := Parent(t, a);
    SelectingForms(t, id);
    ParentInTree(t, a);
    FindInside(t.nodes, p);
    if n != p {
      OffPath(t, id, a, n);
      StepWithin(t, n, p);
      Upward(t, n);
      SelectingOpens(t, id, n);
      var q := Parent(t, n);
      UnderTop(t, n, a);
      if q != p {
        OffPath(t, id, a, q);
      }
      BesideStays(t, id, a, q);
    }
  }

  /** With nothing beside them, what shows at the top shows all the way down. */
  lemma {:induction false} NarrowsDown(t: Tree, id: NodeId, low: NodeId, a: NodeId, top: NodeId, n: NodeId)
    requires Sound(t) && id in Ids(t.nodes) && n in Ids(t.nodes) && HoldsWindow(t, n)
    requires OnPath(t, id, low) && OnPath(t, id, top) && OnPath(t, id, a)
    requires low in IdsOf(Find(t.nodes, a)) && a in IdsOf(Find(t.nodes, top))
    requires NothingBeside(t, low, top)
    requires Formed(Selecting(t, id)) && UpTo(Selecting(t, id), n, top)
    ensures UpTo(Selecting(t, id), n, a)
    decreases Count(t.nodes) - CountOf(Find(t.nodes, a))
  {
    if a != top {
      var t' := Selecting(t, id);
      StepWithin(t, a, top);
      Upward(t, a);
      var p := Parent(t, a);
      PathUp(t, id, a);
      UnderUnder(t.nodes, low, a, p);
      NarrowsDown(t, id, low, p, top, n);
      UpToUnder(t', n, p);
      assert !ShowsBeside(t, a, n);
      NotInParent(t, id, a, n);
      if n in IdsOf(Find(t.nodes, a)) {
        UpToSplits(t', n, a, p);
      } else if Find(t.nodes, p).kind.IsGroup() {
        InGroup(t, id, a, n);
      } else {
        BesideStays(t, id, a, n);
      }
    }
  }

  lemma NotInParent(t: Tree, id: NodeId, a: NodeId, n: NodeId)
    requires Sound(t) && a in Ids(t.nodes) && a != t.root && n in Ids(t.nodes) && HoldsWindow(t, n)
    ensures n != Parent(t, a)
  {
    ParentInTree(t, a);
    ProperFound(t.nodes, {t.root}, n);
  }

  /** In a group, nothing shows but what is under the selected child. */
  lemma InGroup(t: Tree, id: NodeId, a: NodeId, n: NodeId)
    requires Formed(t) && id in Ids(t.nodes) && OnPath(t, id, a) && a != t.root
    requires n in Ids(Find(t.nodes, Parent(t, a)).children) && n !in IdsOf(Find(t.nodes, a))
    requires Find(t.nodes, Parent(t, a)).kind.IsGroup()
    ensures Formed(Selecting(t, id)) && n in Ids(t.nodes) && !UpTo(Selecting(t, id), n, Parent(t, a))
  {
    var p, t' := Parent(t, a), Selecting(t, id);
    SelectingForms(t, id);
    ParentInTree(t, a);
    PathUp(t, id, a);
    FindDown(t.nodes, p, n);
    var b := Toward(t, n, p);
    PathUp(t, n, b);
    if b in Ids(Find(t.nodes, a).children) {
      ParentInside(t.nodes, a, b, t.root);
    }
    OffPath(t, id, a, b);
    SelectingOpens(t, id, b);
    FindInside(t.nodes, p);
    UpToSplits(t', n, b, p);
  }

  /** Every window that comes to show is returned exactly when no node on the
      way up was hidden, or nothing shows beside the nodes between the one whose
      windows are returned and the highest hidden one. */
  lemma SurfacedComplete(t: Tree, id: NodeId)
    requires Sound(t) && id in Ids(t.nodes)
    ensures OnPath(t, id, Highest(t, id, id))
    ensures TopHidden(t, id, None).Some? ==> OnPath(t, id, TopHidden(t, id, None).value)
    ensures (forall n <- Ids(t.nodes) :: HoldsWindow(t, n) && Surfaces(t, id, n) ==> Returned(t, id, n)) <==>
            (TopHidden(t, id, None).None? || NothingBeside(t, Highest(t, id, id), TopHidden(t, id, None).value))
  {
    OnOwnPath(t, id);
    HighestIs(t, id, id, id, None);
    TopHiddenIs(t, id, id, None);
    SelectingForms(t, id);
    var top, low := TopHidden(t, id, None), Highest(t, id, id);
    if top.None? || NothingBeside(t, low, top.value) {
      forall n <- Ids(t.nodes) | HoldsWindow(t, n) && Surfaces(t, id, n) ensures Returned(t, id, n) {
        SurfacesUnderTop(t, id, n);
        NarrowsDown(t, id, low, low, top.value, n);
      }
    } else {
      MissedWindow(t, id);
    }
  }

  lemma MissedWindow(t: Tree, id: NodeId)
    requires Sound(t) && id in Ids(t.nodes) && OnPath(t, id, Highest(t, id, id))
    requires TopHidden(t, id, None).Some? && TopHidden(t, id, None).value in Ids(t.nodes)
    requires !NothingBeside(t, Highest(t, id, id), TopHidden(t, id, None).value)
    ensures exists n <- Ids(t.nodes) :: HoldsWindow(t, n) && Surfaces(t, id, n) && !Returned(t, id, n)
  {
    var top, low, t' := TopHidden(t, id, None).value, Highest(t, id, id), Selecting(t, id);
    var a, n :| a in Ids(t.nodes) && n in Ids(t.nodes) && a != t.root && low in IdsOf(Find(t.nodes, a)) &&
      a in Ids(Find(t.nodes, top).children) && ShowsBeside(t, a, n);
    var p := Parent(t, a);
    SelectingForms(t, id);
    UnderUnder(t.nodes, id, low, a);
    ParentInTree(t, a);
    UpToUnder(t, n, p);
    BesideStays(t, id, a, n);
    PathUp(t, id, a);
    ParentInside(t.nodes, top, a, t.root);
    PathShows(t, id, p, top);
    UpToJoins(t', n, p, top);
    SurfacesUnderTop(t, id, n);
    if Returned(t, id, n) {
      UpToUnder(t', n, low);
      UnderUnder(t.nodes, n, low, a);
    }
  }

  /** A group that is itself selected, with a container of two windows in it. */
  function SelectedGroup(): Tree
  {
    var first := Node(4, Horizontal, Some(WindowId(1, 1)), []);
    var second := Node(5, Horizontal, Some(WindowId(1, 2)), []);
    var group := Node(2, Tabbed, None, [Node(3, Vertical, None, [first, second])]);
    Tree([Node(1, Horizontal, None, [group])], 1, map[1 := Selected(2, false), 2 := Selected(3, true), 3 := Selected(4, false)])
  }

  lemma SelectedGroupForms()
    ensures var t := SelectedGroup();
            var group := t.nodes[0].children;
            var inner := group[0].children;
            var pair := inner[0].children;
            Ids(pair) == {4, 5} && Tops(pair) == {4, 5} && Ids(inner) == {3, 4, 5} && Tops(inner) == {3} &&
            Ids(group) == {2, 3, 4, 5} && Tops(group) == {2} && Ids(t.nodes) == {1, 2, 3, 4, 5} &&
            Distinct(t.nodes) && Proper(t.nodes, {1})
  {
    var t := SelectedGroup();
    var group := t.nodes[0].children;
    var inner := group[0].children;
    var pair := inner[0].children;
    var first, second := pair[0], pair[1];
    assert group == [group[0]] && inner == [inner[0]] && pair == [first] + [second];
    assert pair[1..] == [second];
    LeafFacts(first);
    LeafFacts(second);
    ConsFacts(first, [second]);
    NodeFacts(inner[0]);
    NodeFacts(group[0]);
    NodeFacts(t.nodes[0]);
    assert Proper(pair, {1});
  }

  lemma SelectedGroupIs()
    ensures var t := SelectedGroup();
            Sound(t) && Ids(t.nodes) == {1, 2, 3, 4, 5} &&
            Parent(t, 2) == 1 && Parent(t, 3) == 2 && Parent(t, 4) == 3 && Parent(t, 5) == 3 &&
            Find(t.nodes, 5).window == Some(WindowId(1, 2)) && Find(t.nodes, 4).children == [] &&
            Find(t.nodes, 3).kind == Vertical && Find(t.nodes, 2).kind == Tabbed && Find(t.nodes, 1).kind == Horizontal
  {
    var t := SelectedGroup();
    var group := t.nodes[0].children;
    var inner := group[0].children;
    var pair := inner[0].children;
    SelectedGroupForms();
    assert pair[1..] == [pair[1]];
    assert Find(pair, 4) == pair[0] && Find(pair, 5) == pair[1];
    FindDown(t.nodes, 1, 2);
    FindDown(t.nodes, 2, 3);
    FindDown(t.nodes, 3, 4);
    FindDown(t.nodes, 3, 5);
    ParentIs(t.nodes, 2, 1, 1);
    ParentIs(t.nodes, 3, 1, 2);
    ParentIs(t.nodes, 4, 1, 3);
    ParentIs(t.nodes, 5, 1, 3);
  }

  lemma NodeFacts(n: Node)
    ensures Ids([n]) == IdsOf(n) && Tops([n]) == {n.id} && (Distinct([n]) <==> DistinctIn(n))
    ensures n.children != [] && n.window.None? ==> forall holes :: Proper([n], holes) <==> Proper(n.children, holes)
  {
    assert [n][1..] == [];
  }

  lemma LeafFacts(n: Node)
    requires n.children == [] && n.window.Some?
    ensures Ids([n]) == {n.id} && Tops([n]) == {n.id} && Distinct([n]) && forall holes :: Proper([n], holes)
  {
    assert [n][1..] == [];
  }

  /** A window that comes to show and is not returned: selecting the first of the
      two windows in the group shows both, and only the first is returned. */
  lemma SurfacedMissesOne()
    ensures var t := SelectedGroup();
            Sound(t) && 4 in Ids(t.nodes) && 5 in Ids(t.nodes) && HoldsWindow(t, 5) &&
            Surfaces(t, 4, 5) && !Returned(t, 4, 5)
  {
    var t := SelectedGroup();
    SelectedGroupIs();
    SelectingForms(t, 4);
    assert TopHidden(t, 1, Some(3)) == Some(3);
    assert TopHidden(t, 2, Some(3)) == Some(3);
    assert TopHidden(t, 3, None) == Some(3);
    assert TopHidden(t, 4, None) == Some(3);
    SurfacesUnderTop(t, 4, 5);
    assert UpTo(Selecting(t, 4), 3, 3);
    assert UpTo(Selecting(t, 4), 5, 3);
    assert Highest(t, 1, 4) == 4;
    assert Highest(t, 2, 4) == 4;
    assert Highest(t, 3, 4) == 4;
    assert Highest(t, 4, 4) == 4;
    if Returned(t, 4, 5) {
      UpToUnder(Selecting(t, 4), 5, 4);
    }
  }
}
