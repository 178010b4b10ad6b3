/** Bringing a layout in line with an app's windows on screen
    (`src/actor/layout.rs`, `WindowsOnScreenUpdated`): each listed window is
    floated, tiled or left alone, and the app's other windows leave the layout. */
module LayoutReconcile {
  import opened Options
  import opened Windows
  import opened LayoutForest
  import opened LayoutTrees
  import opened LayoutSync
  import opened LayoutColumns
  import opened LayoutPlaces
  import opened SizeShares

  /** What the window rules and heuristics make of a window. */
  datatype WindowClass = Untracked | FloatByDefault | Regular

  /** A window on screen: its position from the left, and its class. */
  datatype Listed = Listed(wid: WindowId, x: real, kind: WindowClass)

  /** What the layout manager keeps, for one space's layout. */
  datatype Manager = Manager(
    tree: Tree, spare: NodeId, scroll: bool, newColumn: bool,
    floating: set<WindowId>, frames: Frames,
    active: map<(Space, int), set<WindowId>>, lastFocus: Option<WindowId>)

  function Wids(ls: seq<Listed>): seq<WindowId>
  {
    if ls == [] then [] else [ls[0].wid] + Wids(ls[1..])
  }

  lemma {:induction false} WidsAre(ls: seq<Listed>, w: WindowId)
    ensures w in Wids(ls) <==> exists l <- ls :: l.wid == w
  {
    if ls != [] {
      WidsAre(ls[1..], w);
      assert ls == [ls[0]] + ls[1..];
    }
  }

  /** The class of a window; the last mention counts. */
  function KindOf(ls: seq<Listed>, w: WindowId): WindowClass
  {
    if ls == [] then Untracked
    else if ls[0].wid == w && w !in Wids(ls[1..]) then ls[0].kind
    else KindOf(ls[1..], w)
  }

  function FromLeft(): (Listed, Listed) -> bool
  {
    (a: Listed, b: Listed) => a.x <= b.x
  }

  function Sorted(ls: seq<Listed>): seq<Listed>
  {
    Sort(ls, FromLeft())
  }

  // What becomes of a listed window.

  datatype Verdict = Floats | Stays | Ignored | BecomesFloating | Tiles | Scrolls

  function Judge(m: Manager, ls: seq<Listed>, w: WindowId): Verdict
  {
    if w in m.floating then Floats
    else if NodeOf(Leaves(m.tree.nodes), w).Some? then Stays
    else match KindOf(ls, w)
      case Untracked => Ignored
      case FloatByDefault => BecomesFloating
      case Regular => if m.scroll then Scrolls else Tiles
  }

  /** The windows with some verdicts, in order. */
  function Chosen(m: Manager, ls: seq<Listed>, ws: seq<WindowId>, verdicts: set<Verdict>): seq<WindowId>
  {
    if ws == [] then []
    else (if Judge(m, ls, ws[0]) in verdicts then [ws[0]] else []) + Chosen(m, ls, ws[1..], verdicts)
  }

  lemma {:induction false} ChosenAre(m: Manager, ls: seq<Listed>, ws: seq<WindowId>, verdicts: set<Verdict>, w: WindowId)
    ensures w in Chosen(m, ls, ws, verdicts) <==> w in ws && Judge(m, ls, w) in verdicts
  {
    if ws != [] {
      ChosenAre(m, ls, ws[1..], verdicts, w);
      assert ws == [ws[0]] + ws[1..];
    }
  }

  /** Frames to restore, for windows that have none yet. */
  function Remembered(frames: Frames, ls: seq<Listed>): Frames
    decreases |ls|
  {
    if ls == [] then frames
    else Remembered(if ls[0].wid in frames then frames else frames[ls[0].wid := ls[0].x], ls[1..])
  }

  function ToSet(ws: seq<WindowId>): set<WindowId>
  {
    set w <- ws
  }

  ghost predicate Consistent(m: Manager)
  {
    Sound(m.tree) && Unused(m.tree, m.spare)
  }

  /** A floating window of the app that is no longer listed is not the last one focused. */
  function FocusAfter(focus: Option<WindowId>, app: int, ls: seq<Listed>): Option<WindowId>
  {
    if focus.Some? && focus.value.pid == app && focus.value !in Wids(ls) then None else focus
  }

  // How often a window is in the layout afterwards.

  lemma {:induction false} OccursSame(a: seq<Leaf>, b: seq<Leaf>, w: WindowId)
    requires multiset(a) == multiset(b)
    ensures Occurs(a, w) == Occurs(b, w)
    decreases |a|
  {
    if a == [] {
      assert |multiset(b)| == |multiset(a)| == 0;
    } else {
      assert a[0] in multiset(b);
      var i :| 0 <= i < |b| && b[i] == a[0];
      TakenOut(a, b, i);
      OccursSame(a[1..], b[..i] + b[i + 1..], w);
      assert a == [a[0]] + a[1..] && b == b[..i] + [b[i]] + b[i + 1..];
      OccursOne(a[0], a[1..], w);
      OccursTaken(b[..i], b[i], b[i + 1..], w);
    }
  }

  lemma TakenOut(a: seq<Leaf>, b: seq<Leaf>, i: nat)
    requires a != [] && i < |b| && b[i] == a[0] && multiset(a) == multiset(b)
    ensures multiset(a[1..]) == multiset(b[..i] + b[i + 1..])
  {
    var p, q := b[..i], b[i + 1..];
    assert a == [a[0]] + a[1..];
    assert b == p + ([b[i]] + q);
    forall y ensures multiset(a[1..])[y] == multiset(p + q)[y] {
      assert multiset(a)[y] == multiset([a[0]])[y] + multiset(a[1..])[y];
      assert multiset(b)[y] == multiset(p)[y] + (multiset([b[i]])[y] + multiset(q)[y]);
    }
  }

  lemma OccursTaken(a: seq<Leaf>, leaf: Leaf, b: seq<Leaf>, w: WindowId)
    ensures Occurs(a + [leaf] + b, w) == (if leaf.1 == w then 1 else 0) + Occurs(a + b, w)
  {
    OccursJoined(a + [leaf], b, w);
    OccursJoined(a, [leaf], w);
    OccursJoined(a, b, w);
    OccursOne(leaf, [], w);
    assert [leaf] + [] == [leaf];
  }

  lemma GainsCounts(t: Tree, t': Tree, leaf: Leaf, w: WindowId)
    requires Gains(t, t', leaf)
    ensures Occurs(Leaves(t'.nodes), w) == (if leaf.1 == w then 1 else 0) + Occurs(Leaves(t.nodes), w)
  {
    OccursSame(Leaves(t'.nodes), [leaf] + Leaves(t.nodes), w);
    OccursOne(leaf, Leaves(t.nodes), w);
  }

  /** Adding windows to a scroll layout adds just those. */
  lemma {:induction false} AddAllCounts(t: Tree, ws: seq<WindowId>, newColumn: bool, spare: NodeId, w: WindowId)
    requires Sound(t) && Unused(t, spare)
    ensures Occurs(Leaves(AddAllScrolling(t, ws, newColumn, spare).nodes), w) == Occurs(Leaves(t.nodes), w) + Times(ws, w)
    decreases |ws|
  {
    if ws != [] {
      AddScrollingSound(t, ws[0], newColumn, spare);
      var t' := AddScrolling(t, ws[0], newColumn, spare);
      GainsCounts(t, t', ScrollLeaf(t, ws[0], newColumn, spare), w);
      AddAllCounts(t', ws[1..], newColumn, spare + 2, w);
      TimesFirst(ws, w);
    }
  }

  /** And it moves no leaf out. */
  lemma {:induction false} AddAllSpares(t: Tree, ws: seq<WindowId>, newColumn: bool, spare: NodeId, leaf: Leaf)
    requires Sound(t) && Unused(t, spare) && leaf.1 !in ws
    ensures multiset(Leaves(AddAllScrolling(t, ws, newColumn, spare).nodes))[leaf] == multiset(Leaves(t.nodes))[leaf]
    decreases |ws|
  {
    if ws != [] {
      AddScrollingSound(t, ws[0], newColumn, spare);
      AddAllSpares(AddScrolling(t, ws[0], newColumn, spare), ws[1..], newColumn, spare + 2, leaf);
    }
  }

  lemma {:induction false} OfTimes(ls: seq<Leaf>, app: int, leaf: Leaf)
    ensures multiset(Of(ls, app, false))[leaf] == if leaf.1.pid == app then 0 else multiset(ls)[leaf]
  {
    if ls != [] {
      OfTimes(ls[1..], app, leaf);
      assert ls == [ls[0]] + ls[1..];
    }
  }

  /** How often a leaf is in a tree. */
  function At(t: Tree, leaf: Leaf): nat
  {
    multiset(Leaves(t.nodes))[leaf]
  }

  /** What setting an app's windows comes to: those windows, and no change to others. */
  lemma SetWindowsFacts(t: Tree, app: int, tiled: seq<WindowId>, spare: NodeId)
    requires Sound(t) && Unused(t, spare) && forall w <- tiled :: w.pid == app
    ensures var t' := SetWindowsForApp(t, app, tiled, spare);
            (forall w: WindowId :: w.pid == app ==> Occurs(Leaves(t'.nodes), w) == Times(tiled, w)) &&
            (forall leaf: Leaf :: leaf.1.pid != app ==> At(t', leaf) == At(t, leaf))
  {
    var t' := SetWindowsForApp(t, app, tiled, spare);
    forall w: WindowId | w.pid == app ensures Occurs(Leaves(t'.nodes), w) == Times(tiled, w) {
      WindowsAsDesired(t, app, tiled, spare, w);
    }
    OthersUntouched(t, app, tiled, spare);
    forall leaf: Leaf | leaf.1.pid != app ensures At(t', leaf) == At(t, leaf) {
      OfTimes(Leaves(t'.nodes), app, leaf);
      OfTimes(Leaves(t.nodes), app, leaf);
    }
  }

  /** What adding windows to a scroll layout comes to. */
  lemma AddAllFacts(t: Tree, ws: seq<WindowId>, newColumn: bool, spare: NodeId)
    requires Sound(t) && Unused(t, spare)
    ensures var t' := AddAllScrolling(t, ws, newColumn, spare);
            (forall w :: Occurs(Leaves(t'.nodes), w) == Occurs(Leaves(t.nodes), w) + Times(ws, w)) &&
            (forall leaf: Leaf :: leaf.1 !in ws ==> At(t', leaf) == At(t, leaf))
  {
    var t' := AddAllScrolling(t, ws, newColumn, spare);
    forall w ensures Occurs(Leaves(t'.nodes), w) == Occurs(Leaves(t.nodes), w) + Times(ws, w) {
      AddAllCounts(t, ws, newColumn, spare, w);
    }
    forall leaf: Leaf | leaf.1 !in ws ensures At(t', leaf) == At(t, leaf) {
      AddAllSpares(t, ws, newColumn, spare, leaf);
    }
  }

  /** What putting columns in order comes to. */
  lemma ByPositionFacts(t: Tree, frames: Frames)
    requires Sound(t)
    ensures var t' := ByPosition(t, frames);
            (forall w :: Occurs(Leaves(t'.nodes), w) == Occurs(Leaves(t.nodes), w)) &&
            (forall leaf: Leaf :: At(t', leaf) == At(t, leaf))
  {
    ByPositionSound(t, frames);
    forall w ensures Occurs(Leaves(ByPosition(t, frames).nodes), w) == Occurs(Leaves(t.nodes), w) {
      OccursSame(Leaves(ByPosition(t, frames).nodes), Leaves(t.nodes), w);
    }
  }

  lemma ChosenPids(m: Manager, ls: seq<Listed>, app: int, verdicts: set<Verdict>)
    requires forall l <- ls :: l.wid.pid == app
    ensures forall w <- Chosen(m, ls, Wids(ls), verdicts) :: w.pid == app
  {
    forall w <- Chosen(m, ls, Wids(ls), verdicts) ensures w.pid == app {
      ChosenAre(m, ls, Wids(ls), verdicts, w);
      WidsAre(ls, w);
    }
  }

  // What the update comes to.

  lemma SortedSame(listed: seq<Listed>)
    ensures forall l :: l in Sorted(listed) <==> l in listed
    ensures |Sorted(listed)| == |listed|
  {
    var ls := Sorted(listed);
    assert IsOrder(FromLeft());
    SortSorts(listed, FromLeft());
    assert forall l :: l in ls <==> l in multiset(ls);
    assert forall l :: l in listed <==> l in multiset(listed);
    assert |ls| == |multiset(ls)| == |multiset(listed)| == |listed|;
  }

  predicate IsListed(listed: seq<Listed>, w: WindowId)
  {
    exists l <- listed :: l.wid == w
  }

  lemma IsListedSorted(listed: seq<Listed>, w: WindowId)
    ensures IsListed(listed, w) <==> w in Wids(Sorted(listed))
  {
    SortedSame(listed);
    WidsAre(Sorted(listed), w);
  }

  predicate Tiled(m: Manager, w: WindowId)
  {
    NodeOf(Leaves(m.tree.nodes), w).Some?
  }

  lemma {:induction false} TiledOccurs(ls: seq<Leaf>, w: WindowId)
    ensures NodeOf(ls, w).Some? <==> Occurs(ls, w) > 0
  {
    if ls != [] {
      TiledOccurs(ls[1..], w);
      assert ls == [ls[0]] + ls[1..];
      OccursOne(ls[0], ls[1..], w);
    }
  }

  lemma TimesIn(ws: seq<WindowId>, w: WindowId)
    ensures Times(ws, w) > 0 <==> w in ws
  {
  }

  lemma {:induction false} ChosenTimes(m: Manager, ls: seq<Listed>, ws: seq<WindowId>, verdicts: set<Verdict>, w: WindowId)
    ensures Times(Chosen(m, ls, ws, verdicts), w) == if Judge(m, ls, w) in verdicts then Times(ws, w) else 0
  {
    if ws != [] {
      ChosenTimes(m, ls, ws[1..], verdicts, w);
      TimesFirst(ws, w);
      if Judge(m, ls, ws[0]) in verdicts {
        TimesFirst(Chosen(m, ls, ws, verdicts), w);
      }
    }
  }

  lemma WidsCons(l: Listed, ls: seq<Listed>)
    ensures Wids([l] + ls) == [l.wid] + Wids(ls)
  {
    assert ([l] + ls)[1..] == ls;
  }

  lemma {:induction false} WidsInserted(l: Listed, ls: seq<Listed>, w: WindowId)
    ensures Times(Wids(InsertSorted(l, ls, FromLeft())), w) == (if l.wid == w then 1 else 0) + Times(Wids(ls), w)
  {
    if ls == [] || FromLeft()(l, ls[0]) {
      WidsCons(l, ls);
      TimesFirst([l.wid] + Wids(ls), w);
      assert ls == [] ==> [l] + ls == [l];
    } else {
      var rest := ls[1..];
      WidsInserted(l, rest, w);
      WidsCons(ls[0], InsertSorted(l, rest, FromLeft()));
      TimesFirst(Wids(ls), w);
      TimesFirst([ls[0].wid] + Wids(InsertSorted(l, rest, FromLeft())), w);
    }
  }

  /** Sorting does not change how often a window is listed. */
  lemma {:induction false} WidsSorted(listed: seq<Listed>, w: WindowId)
    ensures Times(Wids(Sorted(listed)), w) == Times(Wids(listed), w)
  {
    if listed != [] {
      WidsSorted(listed[1..], w);
      WidsInserted(listed[0], Sorted(listed[1..]), w);
      TimesFirst(Wids(listed), w);
    }
  }

  // What an update comes to.

  /** How often a window is listed. */
  function Mentions(listed: seq<Listed>, w: WindowId): nat
  {
    Times(Wids(listed), w)
  }

  /** At how many nodes a window is. */
  function NodesOf(m: Manager, w: WindowId): nat
  {
    Occurs(Leaves(m.tree.nodes), w)
  }

  /** What becomes of the app's windows. One that is not listed leaves the
      layout. One that is listed floats if it did; is tiled if it was and did
      not float; and if it was neither, goes by its class. A tiled window is at
      as many nodes as it is listed times. */
  ghost predicate WindowsRight(m: Manager, m': Manager, app: int, listed: seq<Listed>)
  {
    forall w: WindowId :: w.pid == app ==>
      var kind := KindOf(Sorted(listed), w);
      (Tiled(m', w) <==> IsListed(listed, w) && w !in m.floating && (Tiled(m, w) || kind == Regular)) &&
      NodesOf(m', w) == (if Tiled(m', w) then Mentions(listed, w) else 0) &&
      (w in m'.floating <==> w in m.floating || (IsListed(listed, w) && !Tiled(m, w) && kind == FloatByDefault))
  }

  /** Other apps' windows stay where they are, floating or at their nodes. */
  ghost predicate OthersStay(m: Manager, m': Manager, app: int)
  {
    (forall leaf: Leaf :: leaf.1.pid != app ==> At(m'.tree, leaf) == At(m.tree, leaf)) &&
    (forall w: WindowId :: w.pid != app ==> (w in m'.floating <==> w in m.floating))
  }

  /** The app's active floating windows on the space are its listed ones that
      float; no other app's and no other space's change. */
  ghost predicate ActiveRight(m: Manager, m': Manager, space: Space, app: int, listed: seq<Listed>)
  {
    (space, app) in m'.active && m'.active == m.active[(space, app) := m'.active[(space, app)]] &&
    forall w :: w in m'.active[(space, app)] <==> IsListed(listed, w) && w in m'.floating
  }

  /** A window is listed that comes into the layout. */
  ghost predicate HasNew(m: Manager, listed: seq<Listed>)
  {
    exists l <- listed :: l.wid !in m.floating && !Tiled(m, l.wid) && KindOf(Sorted(listed), l.wid) == Regular
  }

  /** When a window comes into the layout its columns are put in order; otherwise
      the app's windows are merged into it as it is. */
  ghost predicate ColumnsRight(m: Manager, m': Manager, app: int, listed: seq<Listed>)
  {
    Consistent(m) && Consistent(m') &&
    if HasNew(m, listed) then LeftToRight(m'.tree, m'.frames)
    else exists ws :: m'.tree == SetWindowsForApp(m.tree, app, ws, m.spare)
  }

  /** The layout is in line with the windows on screen. */
  ghost predicate Reconciled(m: Manager, m': Manager, space: Space, app: int, listed: seq<Listed>)
  {
    Consistent(m') && WindowsRight(m, m', app, listed) && OthersStay(m, m', app) && ColumnsRight(m, m', app, listed) &&
    ActiveRight(m, m', space, app, listed) &&
    m'.frames == Remembered(m.frames, Sorted(listed)) &&
    m'.lastFocus == FocusAfter(m.lastFocus, app, Sorted(listed)) &&
    m'.scroll == m.scroll && m'.newColumn == m.newColumn
  }

  /** Every listed window ends up floating, or tiled, or is an untracked one that was neither. */
  lemma ListedIsOneOf(m: Manager, m': Manager, space: Space, app: int, listed: seq<Listed>, w: WindowId)
    requires Reconciled(m, m', space, app, listed) && w.pid == app && IsListed(listed, w)
    ensures !(Tiled(m', w) && w in m'.floating)
    ensures !Tiled(m', w) && w !in m'.floating <==>
              w !in m.floating && !Tiled(m, w) && KindOf(Sorted(listed), w) == Untracked
    ensures w in m'.active[(space, app)] <==> w in m'.floating
  {
  }

  /** Where no window is listed twice, each tiled one of the app is at exactly one node. */
  lemma TiledOnce(m: Manager, m': Manager, space: Space, app: int, listed: seq<Listed>, w: WindowId)
    requires Reconciled(m, m', space, app, listed) && w.pid == app && Tiled(m', w)
    requires forall i, j :: 0 <= i < j < |listed| ==> listed[i].wid != listed[j].wid
    ensures NodesOf(m', w) == 1
  {
    MentionedOnce(listed, w);
    WidsAre(listed, w);
    TimesIn(Wids(listed), w);
  }

  lemma {:induction false} MentionedOnce(listed: seq<Listed>, w: WindowId)
    requires forall i, j :: 0 <= i < j < |listed| ==> listed[i].wid != listed[j].wid
    ensures Mentions(listed, w) <= 1
  {
    if listed != [] {
      MentionedOnce(listed[1..], w);
      TimesFirst(Wids(listed), w);
      WidsAre(listed[1..], w);
      TimesIn(Wids(listed[1..]), w);
    }
  }

  /** A second update with the same list settles: no window of the app goes to or
      leaves the layout, its active floating windows are the same, and so are the
      frames to restore and the last focus. */
  lemma SecondUpdateSettles(m: Manager, m': Manager, m'': Manager, space: Space, app: int, listed: seq<Listed>, w: WindowId)
    requires Reconciled(m, m', space, app, listed) && Reconciled(m', m'', space, app, listed) && w.pid == app
    ensures NodesOf(m'', w) == NodesOf(m', w) && (w in m''.floating <==> w in m'.floating)
    ensures m''.active == m'.active && m''.frames == m'.frames && m''.lastFocus == m'.lastFocus
  {
    RememberedTwice(m.frames, Sorted(listed));
    NodesSettle(m, m', m'', app, listed, w);
    ActiveSettles(m, m', m'', space, app, listed);
  }

  lemma NodesSettle(m: Manager, m': Manager, m'': Manager, app: int, listed: seq<Listed>, w: WindowId)
    requires WindowsRight(m, m', app, listed) && WindowsRight(m', m'', app, listed) && w.pid == app
    ensures NodesOf(m'', w) == NodesOf(m', w) && (w in m''.floating <==> w in m'.floating)
  {
  }

  lemma ActiveSettles(m: Manager, m': Manager, m'': Manager, space: Space, app: int, listed: seq<Listed>)
    requires WindowsRight(m, m', app, listed) && WindowsRight(m', m'', app, listed) && OthersStay(m', m'', app)
    requires ActiveRight(m, m', space, app, listed) && ActiveRight(m', m'', space, app, listed)
    ensures m''.active == m'.active
  {
    forall w: WindowId ensures w in m''.floating <==> w in m'.floating {
      if w.pid == app {
        NodesSettle(m, m', m'', app, listed, w);
      }
    }
    assert m''.active[(space, app)] == m'.active[(space, app)];
  }

  /** A frame to restore is the one remembered before, or else the first listed from the left. */
  lemma {:induction false} FramesStay(frames: Frames, ls: seq<Listed>, w: WindowId)
    ensures w in frames ==> w in Remembered(frames, ls) && Remembered(frames, ls)[w] == frames[w]
    ensures w in Remembered(frames, ls) <==> w in frames || w in Wids(ls)
    ensures w in Remembered(frames, ls) && w !in frames ==>
              exists i :: 0 <= i < |ls| && ls[i].wid == w && ls[i].x == Remembered(frames, ls)[w] &&
                forall j :: 0 <= j < i ==> ls[j].wid != w
    decreases |ls|
  {
    if ls != [] {
      var next := if ls[0].wid in frames then frames else frames[ls[0].wid := ls[0].x];
      FramesStay(next, ls[1..], w);
      if w in Remembered(frames, ls) && w !in frames && ls[0].wid != w {
        var i :| 0 <= i < |ls[1..]| && ls[1..][i].wid == w && ls[1..][i].x == Remembered(frames, ls)[w] &&
          forall j :: 0 <= j < i ==> ls[1..][j].wid != w;
        assert ls[i + 1] == ls[1..][i];
        assert forall j :: 0 < j < |ls| ==> ls[j] == ls[1..][j - 1];
      }
    }
  }

  lemma {:induction false} RememberedAll(frames: Frames, ls: seq<Listed>)
    requires forall w <- Wids(ls) :: w in frames
    ensures Remembered(frames, ls) == frames
    decreases |ls|
  {
    if ls != [] {
      assert ls[0].wid in Wids(ls);
      RememberedAll(frames, ls[1..]);
    }
  }

  lemma RememberedTwice(frames: Frames, ls: seq<Listed>)
    ensures Remembered(Remembered(frames, ls), ls) == Remembered(frames, ls)
  {
    forall w <- Wids(ls) ensures w in Remembered(frames, ls) {
      FramesStay(frames, ls, w);
    }
    RememberedAll(Remembered(frames, ls), ls);
  }

  lemma SortedFromLeft(listed: seq<Listed>)
    ensures multiset(Sorted(listed)) == multiset(listed)
    ensures forall i, j :: 0 <= i < j < |Sorted(listed)| ==> Sorted(listed)[i].x <= Sorted(listed)[j].x
  {
    SortSorts(listed, FromLeft());
    forall i, j | 0 <= i < j < |Sorted(listed)| ensures Sorted(listed)[i].x <= Sorted(listed)[j].x {
      assert FromLeft()(Sorted(listed)[i], Sorted(listed)[j]);
    }
  }

  lemma InSorted(listed: seq<Listed>, l: Listed)
    ensures l in Sorted(listed) <==> l in listed
  {
    SortedFromLeft(listed);
    assert l in Sorted(listed) <==> l in multiset(Sorted(listed));
  }

  /** The frames to restore: those known before stay, and a window listed for the
      first time is remembered where it is, or at its leftmost mention. */
  lemma FramesAre(m: Manager, m': Manager, space: Space, app: int, listed: seq<Listed>, w: WindowId)
    requires Reconciled(m, m', space, app, listed)
    ensures w in m'.frames <==> w in m.frames || exists l <- listed :: l.wid == w
    ensures w in m.frames ==> m'.frames[w] == m.frames[w]
    ensures w in m'.frames && w !in m.frames ==>
              exists l <- listed :: l.wid == w && l.x == m'.frames[w] && forall k <- listed :: k.wid == w ==> l.x <= k.x
  {
    var ls := Sorted(listed);
    FramesStay(m.frames, ls, w);
    ListedSorted(listed, w);
    if w in m'.frames && w !in m.frames {
      var i :| 0 <= i < |ls| && ls[i].wid == w && ls[i].x == m'.frames[w] && forall j :: 0 <= j < i ==> ls[j].wid != w;
      FirstIsLeftmost(listed, w, i);
    }
  }

  lemma ListedSorted(listed: seq<Listed>, w: WindowId)
    ensures w in Wids(Sorted(listed)) <==> exists l <- listed :: l.wid == w
  {
    WidsAre(Sorted(listed), w);
    forall l ensures l in Sorted(listed) <==> l in listed {
      InSorted(listed, l);
    }
  }

  lemma FirstIsLeftmost(listed: seq<Listed>, w: WindowId, i: nat)
    requires i < |Sorted(listed)| && Sorted(listed)[i].wid == w && forall j :: 0 <= j < i ==> Sorted(listed)[j].wid != w
    ensures Sorted(listed)[i] in listed && forall k <- listed :: k.wid == w ==> Sorted(listed)[i].x <= k.x
  {
    var ls := Sorted(listed);
    SortedFromLeft(listed);
    InSorted(listed, ls[i]);
    forall k <- listed | k.wid == w ensures ls[i].x <= k.x {
      InSorted(listed, k);
      var j :| 0 <= j < |ls| && ls[j] == k;
    }
  }

  lemma LastIsRightmost(listed: seq<Listed>, w: WindowId, i: nat)
    requires i < |Sorted(listed)| && Sorted(listed)[i].wid == w && forall j :: i < j < |Sorted(listed)| ==> Sorted(listed)[j].wid != w
    ensures Sorted(listed)[i] in listed && forall k <- listed :: k.wid == w ==> k.x <= Sorted(listed)[i].x
  {
    var ls := Sorted(listed);
    SortedFromLeft(listed);
    InSorted(listed, ls[i]);
    forall k <- listed | k.wid == w ensures k.x <= ls[i].x {
      InSorted(listed, k);
      var j :| 0 <= j < |ls| && ls[j] == k;
    }
  }

  /** The last floating window focused is forgotten just when it is the app's and
      no longer listed. */
  lemma FocusIs(m: Manager, m': Manager, space: Space, app: int, listed: seq<Listed>)
    requires Reconciled(m, m', space, app, listed)
    ensures m'.lastFocus ==
            if m.lastFocus.Some? && m.lastFocus.value.pid == app && (forall l <- listed :: l.wid != m.lastFocus.value) then None
            else m.lastFocus
  {
    if m.lastFocus.Some? {
      ListedSorted(listed, m.lastFocus.value);
    }
  }

  lemma {:induction false} KindAt(ls: seq<Listed>, w: WindowId)
    requires w in Wids(ls)
    ensures exists i :: 0 <= i < |ls| && ls[i].wid == w && ls[i].kind == KindOf(ls, w) && forall j :: i < j < |ls| ==> ls[j].wid != w
  {
    if ls[0].wid == w && w !in Wids(ls[1..]) {
      WidsAre(ls[1..], w);
      assert forall j :: 0 < j < |ls| ==> ls[j] == ls[1..][j - 1] && ls[j] in ls[1..];
    } else {
      KindAt(ls[1..], w);
      var i :| 0 <= i < |ls[1..]| && ls[1..][i].wid == w && ls[1..][i].kind == KindOf(ls[1..], w) &&
        forall j :: i < j < |ls[1..]| ==> ls[1..][j].wid != w;
      assert ls[i + 1] == ls[1..][i];
      assert forall j :: 0 < j < |ls| ==> ls[j] == ls[1..][j - 1];
    }
  }

  /** The class of a listed window is the one it is listed with, or that of its
      rightmost mention. */
  lemma KindIs(listed: seq<Listed>, w: WindowId)
    requires exists l <- listed :: l.wid == w
    ensures exists l <- listed :: l.wid == w && l.kind == KindOf(Sorted(listed), w) && forall k <- listed :: k.wid == w ==> k.x <= l.x
  {
    var ls := Sorted(listed);
    ListedSorted(listed, w);
    KindAt(ls, w);
    var i :| 0 <= i < |ls| && ls[i].wid == w && ls[i].kind == KindOf(ls, w) && forall j :: i < j < |ls| ==> ls[j].wid != w;
    LastIsRightmost(listed, w, i);
  }
}
