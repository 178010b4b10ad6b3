/** The layout manager's own state and how it handles the windows an app has on
    screen (`src/actor/layout.rs`). */
module LayoutManagerState {
  import opened Options
  import opened Windows
  import opened LayoutForest
  import opened LayoutSync
  import opened LayoutColumns
  import opened LayoutPlaces
  import opened LayoutReconcile
  import opened LayoutTreeState
  import opened SizeShares

  class LayoutManager {
    const tree: LayoutTree
    var scroll: bool
    var newColumn: bool
    var floating: set<WindowId>
    var frames: Frames
    var active: map<(Space, int), set<WindowId>>
    var lastFocus: Option<WindowId>

    constructor (tree: LayoutTree, scroll: bool, newColumn: bool)
      requires tree.Valid()
      ensures this.tree == tree && Valid()
    {
      this.tree, this.scroll, this.newColumn := tree, scroll, newColumn;
      floating, frames, active, lastFocus := {}, map[], map[], None;
    }

    function Now(): Manager
      reads this, tree
    {
      Manager(tree.Now(), tree.spare, scroll, newColumn, floating, frames, active, lastFocus)
    }

    ghost predicate Valid()
      reads this, tree
    {
      tree.Valid()
    }

    /** Remembers where windows were that are not remembered yet. */
    method RememberFrames(ls: seq<Listed>)
      modifies this`frames
      ensures frames == Remembered(old(frames), ls)
    {
      for i := 0 to |ls|
        invariant Remembered(frames, ls[i..]) == Remembered(old(frames), ls)
      {
        assert ls[i..][0] == ls[i] && ls[i..][1..] == ls[i + 1..];
        if ls[i].wid !in frames {
          frames := frames[ls[i].wid := ls[i].x];
        }
      }
    }

    /** Puts a listed window on its pile. */
    method SiftOne(ls: seq<Listed>, piles: Piles, w: WindowId) returns (after: Piles)
      ensures after == Toss(Now(), ls, piles, w)
    {
      if w in floating {
        return piles.(present := piles.present + {w});
      }
      if NodeOf(Leaves(tree.nodes), w).Some? {
        return piles.(tiled := piles.tiled + [w]);
      }
      match KindOf(ls, w) {
        case Untracked =>
          return piles;
        case FloatByDefault =>
          return piles.(floated := piles.floated + [w]);
        case Regular =>
          if scroll {
            return piles.(scrolled := piles.scrolled + [w]);
          }
          return piles.(tiled := piles.tiled + [w], anyNew := true);
      }
    }

    /** Goes through the listed windows and puts each on its pile. */
    method Sift(ls: seq<Listed>) returns (piles: Piles)
      ensures piles == PilesOf(Now(), ls, Wids(ls))
    {
      var wids := Wids(ls);
      piles := Piles([], [], [], {}, false);
      for i := 0 to |wids|
        invariant piles == PilesOf(Now(), ls, wids[..i])
      {
        PilesNext(Now(), ls, wids, i);
        piles := SiftOne(ls, piles, wids[i]);
      }
      assert wids[..|wids|] == wids;
    }

    // Each change to the layout's tree, by what it does to the windows in it.

    method SetTiled(app: int, tiled: seq<WindowId>)
      requires Valid() && forall w <- tiled :: w.pid == app
      modifies tree`nodes, tree`selection, tree`spare
      ensures Valid()
      ensures forall w: WindowId :: w.pid == app ==> Holds(w) == Times(tiled, w)
      ensures forall leaf: Leaf :: leaf.1.pid != app ==> At(tree.Now(), leaf) == At(old(tree.Now()), leaf)
      ensures tree.Now() == SetWindowsForApp(old(tree.Now()), app, tiled, old(tree.spare))
    {
      SetWindowsFacts(tree.Now(), app, tiled, tree.spare);
      tree.SetWindows(app, tiled);
    }

    method PutInOrder()
      requires Valid()
      modifies tree`nodes
      ensures Valid()
      ensures forall w: WindowId :: Holds(w) == old(Holds(w))
      ensures forall leaf: Leaf :: At(tree.Now(), leaf) == At(old(tree.Now()), leaf)
      ensures LeftToRight(tree.Now(), frames)
    {
      ByPositionFacts(tree.Now(), frames);
      ColumnsGoLeftToRight(tree.Now(), frames);
      tree.ReorderByPosition(frames);
    }

    method AddScrolled(ws: seq<WindowId>)
      requires Valid()
      modifies tree`nodes, tree`spare
      ensures Valid()
      ensures forall w: WindowId :: Holds(w) == old(Holds(w)) + Times(ws, w)
      ensures forall leaf: Leaf :: leaf.1 !in ws ==> At(tree.Now(), leaf) == At(old(tree.Now()), leaf)
      ensures ws == [] ==> tree.Now() == old(tree.Now())
    {
      AddAllFacts(tree.Now(), ws, newColumn, tree.spare);
      AddOneByOne(ws);
    }

    method AddOneByOne(ws: seq<WindowId>)
      requires Valid()
      modifies tree`nodes, tree`spare
      ensures Valid() && tree.Now() == AddAllScrolling(old(tree.Now()), ws, newColumn, old(tree.spare))
    {
      var rest := ws;
      while rest != []
        invariant Valid()
        invariant AddAllScrolling(tree.Now(), rest, newColumn, tree.spare) ==
                  AddAllScrolling(old(tree.Now()), ws, newColumn, old(tree.spare))
        decreases |rest|
      {
        AddScrollingSound(tree.Now(), rest[0], newColumn, tree.spare);
        tree.AddToScroll(rest[0], newColumn);
        rest := rest[1..];
      }
    }

    /** How often the layout holds a window. */
    ghost function Holds(w: WindowId): nat
      reads tree
    {
      Occurs(Leaves(tree.nodes), w)
    }

    /** Tiles some windows, adds some to a scroll layout, and puts the columns
        in order if the layout has new windows. */
    method UpdateTree(app: int, piles: Piles)
      requires Valid()
      requires (forall w <- piles.tiled :: w.pid == app) && (forall w <- piles.scrolled :: w.pid == app)
      modifies tree`nodes, tree`selection, tree`spare
      ensures Valid()
      ensures forall w: WindowId :: w.pid == app ==> Holds(w) == Times(piles.tiled, w) + Times(piles.scrolled, w)
      ensures forall leaf: Leaf :: leaf.1.pid != app ==> At(tree.Now(), leaf) == At(old(tree.Now()), leaf)
      ensures Orders(scroll, piles) ==> LeftToRight(tree.Now(), frames)
      ensures NothingNew(scroll, piles) ==> tree.Now() == SetWindowsForApp(old(tree.Now()), app, piles.tiled, old(tree.spare))
    {
      SetTiled(app, piles.tiled);
      if !scroll && piles.anyNew {
        PutInOrder();
      }
      AddScrolled(piles.scrolled);
      if scroll && piles.scrolled != [] {
        PutInOrder();
      }
    }

    method ForgetFocus(app: int, ls: seq<Listed>)
      modifies this`lastFocus
      ensures lastFocus == FocusAfter(old(lastFocus), app, ls)
    {
      if lastFocus.Some? && lastFocus.value.pid == app && lastFocus.value !in Wids(ls) {
        lastFocus := None;
      }
    }

    /** Does what the piles say. */
    method Follow(space: Space, app: int, piles: Piles)
      requires Valid()
      requires (forall w <- piles.tiled :: w.pid == app) && (forall w <- piles.scrolled :: w.pid == app)
      modifies this`active, this`floating, tree`nodes, tree`selection, tree`spare
      ensures Valid() && FollowsPiles(old(Now()), Now(), space, app, piles)
    {
      UpdateTree(app, piles);
      active := active[(space, app) := piles.present];
      AddFloating(space, app, piles.floated);
    }

    method Settle(space: Space, app: int, listed: seq<Listed>)
      requires Valid() && forall l <- listed :: l.wid.pid == app
      modifies this`active, this`floating, tree`nodes, tree`selection, tree`spare
      ensures Valid()
      ensures FollowsPiles(old(Now()), Now(), space, app, PilesOf(old(Now()), Sorted(listed), Wids(Sorted(listed))))
    {
      PilesPids(Now(), listed, app);
      var piles := Sift(Sorted(listed));
      Follow(space, app, piles);
    }

    /** Remembers frames and forgets the focus, before anything is tiled or floated. */
    method Prepare(app: int, listed: seq<Listed>)
      requires Valid()
      modifies this`frames, this`lastFocus
      ensures Valid()
      ensures Now() == old(Now()).(frames := Remembered(old(frames), Sorted(listed)), lastFocus := FocusAfter(old(lastFocus), app, Sorted(listed)))
    {
      RememberFrames(Sorted(listed));
      ForgetFocus(app, Sorted(listed));
    }

    /** Handles the list of an app's windows on a space. */
    method WindowsOnScreenUpdated(space: Space, app: int, listed: seq<Listed>)
      requires Valid() && forall l <- listed :: l.wid.pid == app
      modifies this`frames, this`lastFocus, this`active, this`floating, tree`nodes, tree`selection, tree`spare
      ensures Valid() && Reconciled(old(Now()), Now(), space, app, listed)
    {
      ghost var before := Now();
      Prepare(app, listed);
      ghost var during := Now();
      Settle(space, app, listed);
      UpdateRight(before, during, Now(), space, app, listed);
    }

    /** Notes windows as floating, on the space and in general. */
    method AddFloating(space: Space, app: int, ws: seq<WindowId>)
      requires (space, app) in active
      modifies this`active, this`floating
      ensures floating == old(floating) + ToSet(ws)
      ensures active == old(active)[(space, app) := old(active)[(space, app)] + ToSet(ws)]
    {
      ghost var present := active[(space, app)];
      assert ws[..0] == [] && present + ToSet([]) == present;
      for i := 0 to |ws|
        invariant (space, app) in active
        invariant floating == old(floating) + ToSet(ws[..i])
        invariant active == old(active)[(space, app) := present + ToSet(ws[..i])]
      {
        assert ws[..i + 1] == ws[..i] + [ws[i]];
        assert ToSet(ws[..i + 1]) == ToSet(ws[..i]) + {ws[i]};
        assert present + ToSet(ws[..i + 1]) == (present + ToSet(ws[..i])) + {ws[i]};
        active := active[(space, app) := active[(space, app)] + {ws[i]}];
        floating := floating + {ws[i]};
      }
      assert ws[..|ws|] == ws;
    }
  }

  /** What the listed windows are sorted into: those to tile, those to add to a
      scroll layout, those to float, those that float, and whether any is new. */
  datatype Piles = Piles(tiled: seq<WindowId>, scrolled: seq<WindowId>, floated: seq<WindowId>, present: set<WindowId>, anyNew: bool)

  function PilesOf(m: Manager, ls: seq<Listed>, ws: seq<WindowId>): Piles
  {
    Piles(Chosen(m, ls, ws, {Stays, Tiles}), Chosen(m, ls, ws, {Scrolls}), Chosen(m, ls, ws, {BecomesFloating}),
          ToSet(Chosen(m, ls, ws, {Floats})), Chosen(m, ls, ws, {Tiles}) != [])
  }

  /** Windows are added, so the columns are put in order. */
  predicate Orders(scroll: bool, piles: Piles)
  {
    if scroll then piles.scrolled != [] else piles.anyNew && piles.scrolled == []
  }

  predicate NothingNew(scroll: bool, piles: Piles)
  {
    piles.scrolled == [] && (scroll || !piles.anyNew)
  }

  function Toss(m: Manager, ls: seq<Listed>, piles: Piles, w: WindowId): Piles
  {
    TossBy(piles, Judge(m, ls, w), w)
  }

  lemma PilesPids(m: Manager, listed: seq<Listed>, app: int)
    requires forall l <- listed :: l.wid.pid == app
    ensures forall w <- PilesOf(m, Sorted(listed), Wids(Sorted(listed))).tiled :: w.pid == app
    ensures forall w <- PilesOf(m, Sorted(listed), Wids(Sorted(listed))).scrolled :: w.pid == app
    ensures forall w <- PilesOf(m, Sorted(listed), Wids(Sorted(listed))).floated :: w.pid == app
  {
    SortedSame(listed);
    ChosenPids(m, Sorted(listed), app, {Stays, Tiles});
    ChosenPids(m, Sorted(listed), app, {Scrolls});
    ChosenPids(m, Sorted(listed), app, {BecomesFloating});
  }

  /** What is on the piles, window by window. */
  lemma OnPiles(m: Manager, listed: seq<Listed>, w: WindowId)
    ensures var piles := PilesOf(m, Sorted(listed), Wids(Sorted(listed)));
            var verdict := Judge(m, Sorted(listed), w);
            (w in piles.tiled <==> IsListed(listed, w) && (verdict == Stays || verdict == Tiles)) &&
            (w in piles.scrolled <==> IsListed(listed, w) && verdict == Scrolls) &&
            (w in piles.floated <==> IsListed(listed, w) && verdict == BecomesFloating) &&
            (w in piles.present <==> IsListed(listed, w) && verdict == Floats)
  {
    var ls := Sorted(listed);
    IsListedSorted(listed, w);
    ChosenAre(m, ls, Wids(ls), {Stays, Tiles}, w);
    ChosenAre(m, ls, Wids(ls), {Scrolls}, w);
    ChosenAre(m, ls, Wids(ls), {BecomesFloating}, w);
    ChosenAre(m, ls, Wids(ls), {Floats}, w);
  }

  /** The manager after its windows went where the piles say. */
  ghost predicate FollowsPiles(m: Manager, m': Manager, space: Space, app: int, piles: Piles)
  {
    (forall w: WindowId :: w.pid == app ==> NodesOf(m', w) == Times(piles.tiled, w) + Times(piles.scrolled, w)) &&
    (forall leaf: Leaf :: leaf.1.pid != app ==> At(m'.tree, leaf) == At(m.tree, leaf)) &&
    Consistent(m) && Consistent(m') &&
    (Orders(m.scroll, piles) ==> LeftToRight(m'.tree, m'.frames)) &&
    (NothingNew(m.scroll, piles) ==> m'.tree == SetWindowsForApp(m.tree, app, piles.tiled, m.spare)) &&
    m'.floating == m.floating + ToSet(piles.floated) &&
    m'.active == m.active[(space, app) := piles.present + ToSet(piles.floated)]
  }

  lemma SameStart(m: Manager, during: Manager, m': Manager, space: Space, app: int, piles: Piles)
    requires during.tree == m.tree && during.spare == m.spare && during.scroll == m.scroll
    requires during.floating == m.floating && during.active == m.active
    requires FollowsPiles(during, m', space, app, piles)
    ensures FollowsPiles(m, m', space, app, piles)
  {
  }

  predicate GoesIn(verdict: Verdict)
  {
    verdict.Stays? || verdict.Tiles? || verdict.Scrolls?
  }

  /** How often a window is on the piles that go into the layout. */
  lemma PilesCount(m: Manager, listed: seq<Listed>, w: WindowId)
    ensures var piles := PilesOf(m, Sorted(listed), Wids(Sorted(listed)));
            Times(piles.tiled, w) + Times(piles.scrolled, w) ==
            if GoesIn(Judge(m, Sorted(listed), w)) then Mentions(listed, w) else 0
  {
    var ls := Sorted(listed);
    WidsSorted(listed, w);
    ChosenTimes(m, ls, Wids(ls), {Stays, Tiles}, w);
    ChosenTimes(m, ls, Wids(ls), {Scrolls}, w);
  }

  /** The verdicts in terms of what was before. */
  lemma VerdictIs(m: Manager, ls: seq<Listed>, w: WindowId)
    ensures GoesIn(Judge(m, ls, w)) <==> w !in m.floating && (Tiled(m, w) || KindOf(ls, w) == Regular)
    ensures Judge(m, ls, w) == BecomesFloating <==> w !in m.floating && !Tiled(m, w) && KindOf(ls, w) == FloatByDefault
    ensures Judge(m, ls, w) == Floats <==> w in m.floating
  {
  }

  lemma MentionsListed(listed: seq<Listed>, w: WindowId)
    ensures Mentions(listed, w) > 0 <==> IsListed(listed, w)
  {
    WidsAre(listed, w);
    TimesIn(Wids(listed), w);
  }

  lemma TiledRight(m: Manager, m': Manager, listed: seq<Listed>, w: WindowId)
    requires NodesOf(m', w) == if GoesIn(Judge(m, Sorted(listed), w)) then Mentions(listed, w) else 0
    ensures Tiled(m', w) <==>
            IsListed(listed, w) && w !in m.floating && (Tiled(m, w) || KindOf(Sorted(listed), w) == Regular)
    ensures NodesOf(m', w) == if Tiled(m', w) then Mentions(listed, w) else 0
  {
    VerdictIs(m, Sorted(listed), w);
    MentionsListed(listed, w);
    TiledOccurs(Leaves(m'.tree.nodes), w);
  }

  /** Following the piles brings the layout in line. */
  lemma SortedOut(m: Manager, m': Manager, space: Space, app: int, listed: seq<Listed>)
    requires forall l <- listed :: l.wid.pid == app
    requires FollowsPiles(m, m', space, app, PilesOf(m, Sorted(listed), Wids(Sorted(listed))))
    ensures WindowsRight(m, m', app, listed) && OthersStay(m, m', app) && ActiveRight(m, m', space, app, listed)
    ensures ColumnsRight(m, m', app, listed)
  {
    var piles := PilesOf(m, Sorted(listed), Wids(Sorted(listed)));
    NewOnPiles(m, listed);
    PilesPids(m, listed, app);
    forall w: WindowId
      ensures w in m'.floating <==>
                w in m.floating || (IsListed(listed, w) && !Tiled(m, w) && KindOf(Sorted(listed), w) == FloatByDefault)
      ensures w in m'.active[(space, app)] <==> IsListed(listed, w) && w in m'.floating
    {
      OnPiles(m, listed, w);
      VerdictIs(m, Sorted(listed), w);
    }
    forall w: WindowId | w.pid == app
      ensures Tiled(m', w) <==>
              IsListed(listed, w) && w !in m.floating && (Tiled(m, w) || KindOf(Sorted(listed), w) == Regular)
      ensures NodesOf(m', w) == if Tiled(m', w) then Mentions(listed, w) else 0
    {
      PilesCount(m, listed, w);
      TiledRight(m, m', listed, w);
    }
  }

  lemma SomeChosen(m: Manager, ls: seq<Listed>, verdict: Verdict)
    ensures Chosen(m, ls, Wids(ls), {verdict}) != [] <==> exists l <- ls :: Judge(m, ls, l.wid) == verdict
  {
    var chosen := Chosen(m, ls, Wids(ls), {verdict});
    if chosen != [] {
      ChosenAre(m, ls, Wids(ls), {verdict}, chosen[0]);
      WidsAre(ls, chosen[0]);
    }
    if l :| l in ls && Judge(m, ls, l.wid) == verdict {
      WidsAre(ls, l.wid);
      ChosenAre(m, ls, Wids(ls), {verdict}, l.wid);
    }
  }

  /** There is something new on the piles just when a window is listed that comes into the layout. */
  lemma NewOnPiles(m: Manager, listed: seq<Listed>)
    ensures var piles := PilesOf(m, Sorted(listed), Wids(Sorted(listed)));
            if HasNew(m, listed) then Orders(m.scroll, piles) else NothingNew(m.scroll, piles)
  {
    var ls := Sorted(listed);
    SomeChosen(m, ls, Scrolls);
    SomeChosen(m, ls, Tiles);
    NewJudged(m, listed);
  }

  lemma NewJudged(m: Manager, listed: seq<Listed>)
    ensures var ls := Sorted(listed);
            HasNew(m, listed) <==> exists l <- ls :: Judge(m, ls, l.wid) == if m.scroll then Scrolls else Tiles
    ensures forall l <- Sorted(listed) :: Judge(m, Sorted(listed), l.wid) != if m.scroll then Tiles else Scrolls
  {
    var ls := Sorted(listed);
    forall l ensures l in ls <==> l in listed {
      InSorted(listed, l);
    }
    forall w: WindowId
      ensures Judge(m, ls, w) == (if m.scroll then Scrolls else Tiles) <==> w !in m.floating && !Tiled(m, w) && KindOf(ls, w) == Regular
    {
    }
  }

  lemma ToSetMore(ws: seq<WindowId>, w: WindowId)
    ensures ToSet(ws + [w]) == ToSet(ws) + {w}
  {
  }

  lemma PilesNext(m: Manager, ls: seq<Listed>, ws: seq<WindowId>, i: nat)
    requires i < |ws|
    ensures PilesOf(m, ls, ws[..i + 1]) == Toss(m, ls, PilesOf(m, ls, ws[..i]), ws[i])
  {
    ChosenNext(m, ls, ws, i, {Stays, Tiles});
    ChosenNext(m, ls, ws, i, {Scrolls});
    ChosenNext(m, ls, ws, i, {BecomesFloating});
    ChosenNext(m, ls, ws, i, {Floats});
    ChosenNext(m, ls, ws, i, {Tiles});
    ToSetMore(Chosen(m, ls, ws[..i], {Floats}), ws[i]);
    TossedOn(PilesOf(m, ls, ws[..i]), PilesOf(m, ls, ws[..i + 1]), Judge(m, ls, ws[i]), ws[i]);
  }

  /** A window goes on the piles of its verdict. */
  function TossBy(piles: Piles, verdict: Verdict, w: WindowId): Piles
  {
    match verdict
    case Floats => piles.(present := piles.present + {w})
    case Stays => piles.(tiled := piles.tiled + [w])
    case Ignored => piles
    case BecomesFloating => piles.(floated := piles.floated + [w])
    case Tiles => piles.(tiled := piles.tiled + [w], anyNew := true)
    case Scrolls => piles.(scrolled := piles.scrolled + [w])
  }

  lemma TossedOn(a: Piles, b: Piles, verdict: Verdict, w: WindowId)
    requires b.tiled == if verdict in {Stays, Tiles} then a.tiled + [w] else a.tiled
    requires b.scrolled == if verdict in {Scrolls} then a.scrolled + [w] else a.scrolled
    requires b.floated == if verdict in {BecomesFloating} then a.floated + [w] else a.floated
    requires b.present == if verdict in {Floats} then a.present + {w} else a.present
    requires b.anyNew == (verdict in {Tiles} || a.anyNew)
    ensures b == TossBy(a, verdict, w)
  {
  }

  lemma ChosenCons(m: Manager, ls: seq<Listed>, w: WindowId, ws: seq<WindowId>, verdicts: set<Verdict>)
    ensures Chosen(m, ls, [w] + ws, verdicts) ==
            if Judge(m, ls, w) in verdicts then [w] + Chosen(m, ls, ws, verdicts) else Chosen(m, ls, ws, verdicts)
  {
    assert ([w] + ws)[1..] == ws;
  }

  lemma {:induction false} ChosenMore(m: Manager, ls: seq<Listed>, ws: seq<WindowId>, w: WindowId, verdicts: set<Verdict>)
    ensures Chosen(m, ls, ws + [w], verdicts) ==
            if Judge(m, ls, w) in verdicts then Chosen(m, ls, ws, verdicts) + [w] else Chosen(m, ls, ws, verdicts)
  {
    if ws == [] {
      assert [] + [w] == [w] + [];
      ChosenCons(m, ls, w, [], verdicts);
    } else {
      var first, rest := ws[0], ws[1..];
      ChosenMore(m, ls, rest, w, verdicts);
      assert ws + [w] == [first] + (rest + [w]) && ws == [first] + rest;
      ChosenCons(m, ls, first, rest + [w], verdicts);
      ChosenCons(m, ls, first, rest, verdicts);
      Associate([first], Chosen(m, ls, rest, verdicts), [w]);
    }
  }

  lemma ChosenNext(m: Manager, ls: seq<Listed>, ws: seq<WindowId>, i: nat, verdicts: set<Verdict>)
    requires i < |ws|
    ensures Chosen(m, ls, ws[..i + 1], verdicts) ==
            if Judge(m, ls, ws[i]) in verdicts then Chosen(m, ls, ws[..i], verdicts) + [ws[i]]
            else Chosen(m, ls, ws[..i], verdicts)
  {
    assert ws[..i + 1] == ws[..i] + [ws[i]];
    ChosenMore(m, ls, ws[..i], ws[i], verdicts);
  }

  lemma SamePiles(m: Manager, m': Manager, ls: seq<Listed>)
    requires m'.tree == m.tree && m'.floating == m.floating && m'.scroll == m.scroll
    ensures PilesOf(m', ls, Wids(ls)) == PilesOf(m, ls, Wids(ls))
  {
    SameChosen(m, m', ls, Wids(ls), {Stays, Tiles});
    SameChosen(m, m', ls, Wids(ls), {Scrolls});
    SameChosen(m, m', ls, Wids(ls), {BecomesFloating});
    SameChosen(m, m', ls, Wids(ls), {Floats});
    SameChosen(m, m', ls, Wids(ls), {Tiles});
  }

  lemma {:induction false} SameChosen(m: Manager, m': Manager, ls: seq<Listed>, ws: seq<WindowId>, verdicts: set<Verdict>)
    requires m'.tree == m.tree && m'.floating == m.floating && m'.scroll == m.scroll
    ensures Chosen(m', ls, ws, verdicts) == Chosen(m, ls, ws, verdicts)
  {
    if ws != [] {
      SameChosen(m, m', ls, ws[1..], verdicts);
    }
  }

  lemma SettledRight(m: Manager, during: Manager, m': Manager, space: Space, app: int, listed: seq<Listed>)
    requires forall l <- listed :: l.wid.pid == app
    requires during.tree == m.tree && during.spare == m.spare && during.scroll == m.scroll
    requires during.floating == m.floating && during.active == m.active
    requires FollowsPiles(during, m', space, app, PilesOf(during, Sorted(listed), Wids(Sorted(listed))))
    ensures WindowsRight(m, m', app, listed) && OthersStay(m, m', app) && ActiveRight(m, m', space, app, listed)
    ensures ColumnsRight(m, m', app, listed)
  {
    SamePiles(m, during, Sorted(listed));
    SameStart(m, during, m', space, app, PilesOf(m, Sorted(listed), Wids(Sorted(listed))));
    SortedOut(m, m', space, app, listed);
  }

  /** What was remembered and forgotten first, and what became of the windows then. */
  lemma UpdateRight(m: Manager, during: Manager, m': Manager, space: Space, app: int, listed: seq<Listed>)
    requires forall l <- listed :: l.wid.pid == app
    requires during == m.(frames := Remembered(m.frames, Sorted(listed)), lastFocus := FocusAfter(m.lastFocus, app, Sorted(listed)))
    requires m'.frames == during.frames && m'.lastFocus == during.lastFocus && m'.scroll == m.scroll && m'.newColumn == m.newColumn
    requires FollowsPiles(during, m', space, app, PilesOf(during, Sorted(listed), Wids(Sorted(listed))))
    ensures Reconciled(m, m', space, app, listed)
  {
    SettledRight(m, during, m', space, app, listed);
  }
}
