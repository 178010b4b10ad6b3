/** What the reactor does with frames, pass by pass and report by report
    (`src/actor/reactor.rs`): which targets are written, what a report made while
    the mouse is down says, and what is held off until it is released. */
module FramePasses {
  import opened Options
  import opened Windows
  import opened FrameWrites
  import opened FrameProtocol

  // Which targets are written.

  /** The last five attempts at this frame followed soon after each other. */
  predicate GivenUp(r: Reactor, wid: WindowId, frame: Frame, now: int)
  {
    wid in r.attempts && r.attempts[wid].target == frame && now - r.attempts[wid].last <= 2000 && 5 <= r.attempts[wid].count
  }

  /** The window is known, is not where it is to be, is not being resized, and is
      on no space that is not shown. */
  predicate Misplaced(r: Reactor, wid: WindowId, frame: Frame, around: Surroundings)
  {
    wid in r.windows && r.windows[wid].frame != frame && r.resizing != Some(wid) && wid !in around.elsewhere
  }

  predicate ToWrite(r: Reactor, wid: WindowId, frame: Frame, around: Surroundings)
  {
    Misplaced(r, wid, frame, around) && wid.pid in around.apps && !GivenUp(r, wid, frame, around.now)
  }

  /** How often this frame has been attempted now. */
  function CountedNow(r: Reactor, wid: WindowId, frame: Frame, now: int): nat
  {
    if wid in r.attempts && r.attempts[wid].target == frame && now - r.attempts[wid].last <= 2000
    then (if r.attempts[wid].count < 4294967295 then r.attempts[wid].count + 1 else 4294967295) else 1
  }

  predicate CountsFit(r: Reactor)
  {
    forall wid <- r.attempts :: r.attempts[wid].count <= 4294967295
  }

  /** The windows that are not among the targets are left alone. */
  ghost predicate SameBut(r: Reactor, r': Reactor, targets: seq<(WindowId, Frame)>)
  {
    r'.windows.Keys == r.windows.Keys && r'.resizing == r.resizing && r'.inDrag == r.inDrag && r'.minSizes == r.minSizes &&
    forall wid: WindowId :: (forall i :: 0 <= i < |targets| ==> targets[i].0 != wid) ==> SameFor(r, r', wid)
  }

  predicate SameFor(r: Reactor, r': Reactor, wid: WindowId)
  {
    (wid in r.windows ==> wid in r'.windows && r'.windows[wid] == r.windows[wid]) &&
    (wid in r.attempts <==> wid in r'.attempts) && (wid in r.attempts ==> r'.attempts[wid] == r.attempts[wid])
  }

  /** What becomes of one target. */
  predicate TargetDone(r: Reactor, r': Reactor, wid: WindowId, frame: Frame, around: Surroundings)
  {
    (wid in r.windows ==>
       wid in r'.windows &&
       r'.windows[wid] == if ToWrite(r, wid, frame, around) then ReactorWindow(frame, r.windows[wid].lastSent + 1) else r.windows[wid]) &&
    if Misplaced(r, wid, frame, around)
    then wid in r'.attempts && r'.attempts[wid] == FrameAttempt(frame, CountedNow(r, wid, frame, around.now), around.now)
    else (wid in r.attempts <==> wid in r'.attempts) && (wid in r.attempts ==> r'.attempts[wid] == r.attempts[wid])
  }

  /** The writes a pass makes, target by target. */
  function WritesFor(r: Reactor, targets: seq<(WindowId, Frame)>, around: Surroundings): seq<Write>
  {
    if targets == [] then []
    else
      var n := |targets| - 1;
      var (wid, frame) := targets[n];
      WritesFor(r, targets[..n], around) +
      if ToWrite(r, wid, frame, around) then [SetWindowFrame(wid, frame, r.windows[wid].lastSent + 1)] else []
  }

  /** Each window has one target. */
  ghost predicate OneEach(targets: seq<(WindowId, Frame)>)
  {
    forall i, j :: 0 <= i < j < |targets| ==> targets[i].0 != targets[j].0
  }

  lemma OneTargetDone(r: Reactor, wid: WindowId, frame: Frame, around: Surroundings)
    requires CountsFit(r)
    ensures var (r', writes) := WriteOne(r, wid, frame, around);
            SameBut(r, r', [(wid, frame)]) && TargetDone(r, r', wid, frame, around) && CountsFit(r') &&
            writes == if ToWrite(r, wid, frame, around) then [SetWindowFrame(wid, frame, r.windows[wid].lastSent + 1)] else []
  {
    var r' := WriteOne(r, wid, frame, around).0;
    forall other: WindowId | other != wid ensures SameFor(r, r', other) {
    }
    assert [(wid, frame)][0].0 == wid;
  }

  lemma SameToo(r: Reactor, s: Reactor, r': Reactor, wid: WindowId, frame: Frame, around: Surroundings)
    requires SameFor(r, s, wid) && TargetDone(s, r', wid, frame, around) && s.windows.Keys == r.windows.Keys && s.resizing == r.resizing
    ensures TargetDone(r, r', wid, frame, around)
    ensures ToWrite(s, wid, frame, around) <==> ToWrite(r, wid, frame, around)
  {
  }

  lemma DoneStays(r: Reactor, s: Reactor, r': Reactor, wid: WindowId, frame: Frame, around: Surroundings)
    requires TargetDone(r, s, wid, frame, around) && SameFor(s, r', wid)
    ensures TargetDone(r, r', wid, frame, around)
  {
  }

  /** Every pass writes just the frames of windows that are not in place, that can
      be reached, and that have not been given up; under the next id, in order.
      It counts an attempt for each that is not in place, written or not. */
  lemma {:induction false} PassWrites(r: Reactor, targets: seq<(WindowId, Frame)>, around: Surroundings)
    requires CountsFit(r) && OneEach(targets)
    ensures var (r', writes) := WriteAll(r, targets, around);
            writes == WritesFor(r, targets, around) && SameBut(r, r', targets) && CountsFit(r') &&
            forall i :: 0 <= i < |targets| ==> TargetDone(r, r', targets[i].0, targets[i].1, around)
    decreases |targets|
  {
    if targets != [] {
      var n := |targets| - 1;
      var first := targets[..n];
      assert OneEach(first);
      PassWrites(r, first, around);
      var s := WriteAll(r, first, around).0;
      var r' := WriteAll(r, targets, around).0;
      var (wid, frame) := targets[n];
      OneTargetDone(s, wid, frame, around);
      assert SameFor(r, s, wid) by {
        forall i | 0 <= i < n ensures first[i].0 != wid {
        }
      }
      SameToo(r, s, r', wid, frame, around);
      OthersDone(r, s, r', targets, around);
    }
  }

  lemma OthersDone(r: Reactor, s: Reactor, r': Reactor, targets: seq<(WindowId, Frame)>, around: Surroundings)
    requires targets != [] && OneEach(targets)
    requires SameBut(r, s, targets[..|targets| - 1]) && SameBut(s, r', [targets[|targets| - 1]])
    requires var first := targets[..|targets| - 1]; forall i :: 0 <= i < |first| ==> TargetDone(r, s, first[i].0, first[i].1, around)
    ensures SameBut(r, r', targets)
    ensures forall i :: 0 <= i < |targets| - 1 ==> TargetDone(r, r', targets[i].0, targets[i].1, around)
  {
    var n := |targets| - 1;
    forall i | 0 <= i < n ensures TargetDone(r, r', targets[i].0, targets[i].1, around) {
      assert targets[..n][i] == targets[i] && targets[i].0 != targets[n].0;
      assert SameFor(s, r', targets[i].0);
      DoneStays(r, s, r', targets[i].0, targets[i].1, around);
    }
    forall wid: WindowId | forall i :: 0 <= i < |targets| ==> targets[i].0 != wid ensures SameFor(r, r', wid) {
      assert SameFor(r, s, wid) && SameFor(s, r', wid);
    }
  }

  // What a report says.

  /** A report that is not older than the last write, and no answer to one. */
  predicate Fresh(r: Reactor, e: Report)
  {
    e.wid in r.windows && !e.requested && e.lastSeen % 4294967296 == r.windows[e.wid].lastSent % 4294967296
  }

  /** The user resizes a window: with the button down its size is another one. */
  predicate Resizes(r: Reactor, e: Report)
  {
    Fresh(r, e) && e.mouse == Some(Down) &&
    (e.frame.width != r.windows[e.wid].frame.width || e.frame.height != r.windows[e.wid].frame.height)
  }

  /** The user drags a window: with the button down it is elsewhere, at its size. */
  predicate Drags(r: Reactor, e: Report)
  {
    Fresh(r, e) && e.mouse == Some(Down) && e.frame != r.windows[e.wid].frame &&
    e.frame.width == r.windows[e.wid].frame.width && e.frame.height == r.windows[e.wid].frame.height
  }

  lemma ReportSays(r: Reactor, e: Report)
    requires e.wid in r.windows
    ensures TakeIn(r, e).resizing == if Resizes(r, e) then Some(e.wid) else if e.mouse == Some(Up) then None else r.resizing
    ensures TakeIn(r, e).inDrag <==> r.inDrag || Drags(r, e)
    ensures TakeIn(r, e).windows == if Fresh(r, e) then r.windows[e.wid := r.windows[e.wid].(frame := e.frame)] else r.windows
  {
  }

  /** An answer that tells of a greater minimum than is known. */
  predicate Teaches(r: Reactor, e: Report)
  {
    e.wid in r.windows && e.requested && e.lastSeen % 4294967296 == r.windows[e.wid].lastSent % 4294967296 &&
    var asked := r.windows[e.wid].frame;
    (asked.width + 1.0 < e.frame.width && (e.wid in r.minSizes ==> r.minSizes[e.wid].width < e.frame.width)) ||
    (asked.height + 1.0 < e.frame.height && (e.wid in r.minSizes ==> r.minSizes[e.wid].height < e.frame.height))
  }

  /** The layout is brought up to date when a window is found elsewhere than known,
      or has a greater minimum than known, unless a drag is under way or begins. */
  lemma RelayoutIs(r: Reactor, e: Report)
    requires e.wid in r.windows && 0.0 <= r.windows[e.wid].frame.width && 0.0 <= r.windows[e.wid].frame.height
    requires e.wid in r.minSizes ==> 0.0 <= r.minSizes[e.wid].width && 0.0 <= r.minSizes[e.wid].height
    requires 0.0 <= e.frame.width && 0.0 <= e.frame.height
    ensures Relayouts(r, e) <==>
            !r.inDrag && !Drags(r, e) && ((Fresh(r, e) && e.frame != r.windows[e.wid].frame) || Teaches(r, e))
  {
    ReportSays(r, e);
    if e.requested && Current(r, e) {
      AnswerTeaches(r, e);
    }
  }

  lemma AnswerTeaches(r: Reactor, e: Report)
    requires e.wid in r.windows && e.requested && Current(r, e)
    requires 0.0 <= r.windows[e.wid].frame.width && 0.0 <= r.windows[e.wid].frame.height
    requires e.wid in r.minSizes ==> 0.0 <= r.minSizes[e.wid].width && 0.0 <= r.minSizes[e.wid].height
    requires 0.0 <= e.frame.width && 0.0 <= e.frame.height
    ensures Learned(r, e) != Relaxed(r.minSizes, e.wid, e.frame) <==> Teaches(r, e)
  {
    var relaxed, learned := Relaxed(r.minSizes, e.wid, e.frame), Learned(r, e);
    if e.wid in relaxed && e.wid in learned && learned[e.wid] == relaxed[e.wid] {
      assert learned == relaxed;
    }
  }

  function Smaller(a: real, b: real): real { if b < a then b else a }

  /** The least width known after a report: what came back larger than asked, or
      else no more than before and no more than the window is. Nothing known is zero. */
  function LeastWidth(r: Reactor, e: Report): real
    requires e.wid in r.windows
  {
    if e.requested && r.windows[e.wid].frame.width + 1.0 < e.frame.width then e.frame.width
    else if e.wid in r.minSizes then Smaller(r.minSizes[e.wid].width, e.frame.width) else 0.0
  }

  function LeastHeight(r: Reactor, e: Report): real
    requires e.wid in r.windows
  {
    if e.requested && r.windows[e.wid].frame.height + 1.0 < e.frame.height then e.frame.height
    else if e.wid in r.minSizes then Smaller(r.minSizes[e.wid].height, e.frame.height) else 0.0
  }

  /** Just what is known of minimum sizes after a report that is not older than
      the last write; older ones teach nothing. */
  lemma MinimumsAre(r: Reactor, e: Report)
    requires e.wid in r.windows && 0.0 <= r.windows[e.wid].frame.width && 0.0 <= r.windows[e.wid].frame.height
    requires e.wid in r.minSizes ==> 0.0 <= r.minSizes[e.wid].width && 0.0 <= r.minSizes[e.wid].height
    requires 0.0 <= e.frame.width && 0.0 <= e.frame.height
    ensures var sizes, current := TakeIn(r, e).minSizes, e.lastSeen % 4294967296 == r.windows[e.wid].lastSent % 4294967296;
            var least := MinSize(LeastWidth(r, e), LeastHeight(r, e));
            sizes == if current && (e.wid in r.minSizes || least != MinSize(0.0, 0.0)) then r.minSizes[e.wid := least] else r.minSizes
  {
  }

  // On runs.

  /** The button is found to be up. */
  predicate LetsGo(s: System, a: Action)
  {
    a.Release? || (a.TakeReport? && s.reports != [] && s.reports[0].mouse == Some(Up))
  }

  predicate ResizesAt(s: System, a: Action, wid: WindowId)
  {
    a.TakeReport? && s.reports != [] && s.reports[0].wid == wid && Resizes(s.reactor, s.reports[0])
  }

  predicate DragsAt(s: System, a: Action)
  {
    a.TakeReport? && s.reports != [] && Drags(s.reactor, s.reports[0])
  }

  lemma {:induction false} PassKeepsMouse(s: System, targets: seq<(WindowId, Frame)>, around: Surroundings)
    ensures LayOutAll(s, targets, around).reactor.resizing == s.reactor.resizing
    ensures LayOutAll(s, targets, around).reactor.inDrag == s.reactor.inDrag
  {
    if targets != [] {
      var n := |targets| - 1;
      PassKeepsMouse(s, targets[..n], around);
      WriteOneEffect(LayOutAll(s, targets[..n], around).reactor, targets[n].0, targets[n].1, around);
    }
  }

  lemma MouseStep(s: System, a: Action)
    requires Enabled(s, a)
    ensures var t := Step(s, a);
            t.reactor.resizing == (if a.TakeReport? && Resizes(s.reactor, s.reports[0]) then Some(s.reports[0].wid)
                                   else if LetsGo(s, a) then None else s.reactor.resizing) &&
            (t.reactor.inDrag <==> (s.reactor.inDrag && !a.Release?) || DragsAt(s, a))
  {
    if a.TakeReport? {
      ReportSays(s.reactor, s.reports[0]);
    } else if a.LayOut? {
      PassKeepsMouse(s, a.targets, a.around);
    }
  }

  /** At step `i` a resize of the window was seen, and since then, up to step `n`,
      neither the button was let go nor another window resized. */
  ghost predicate ResizedSince(states: seq<System>, actions: seq<Action>, i: nat, n: nat, wid: WindowId)
    requires n <= |actions| < |states|
  {
    i < n && ResizesAt(states[i], actions[i], wid) &&
    forall k :: i < k < n ==> !LetsGo(states[k], actions[k]) && forall other: WindowId :: other != wid ==> !ResizesAt(states[k], actions[k], other)
  }

  /** On every run: a window is held to be resized by the user exactly when that
      was seen, and the button has not been let go and no other been resized since. */
  lemma {:induction false} ResizingIs(states: seq<System>, actions: seq<Action>, n: nat, wid: WindowId)
    requires Run(states, actions) && n <= |actions| && states[0].reactor.resizing == None
    ensures states[n].reactor.resizing == Some(wid) <==> exists i: nat :: ResizedSince(states, actions, i, n, wid)
  {
    if n > 0 {
      var m := n - 1;
      ResizingIs(states, actions, m, wid);
      MouseStep(states[m], actions[m]);
      ResizedStep(states, actions, m, n, wid);
      if actions[m].TakeReport? && Resizes(states[m].reactor, states[m].reports[0]) {
        assert ResizesAt(states[m], actions[m], states[m].reports[0].wid);
      }
    }
  }

  /** One more step. */
  lemma ResizedStep(states: seq<System>, actions: seq<Action>, m: nat, n: nat, wid: WindowId)
    requires Run(states, actions) && m < |actions| && n == m + 1
    ensures (exists i: nat :: ResizedSince(states, actions, i, n, wid)) <==>
            ResizesAt(states[m], actions[m], wid) ||
            ((exists i: nat :: ResizedSince(states, actions, i, m, wid)) && !LetsGo(states[m], actions[m]) &&
             forall other: WindowId :: other != wid ==> !ResizesAt(states[m], actions[m], other))
  {
    if ResizesAt(states[m], actions[m], wid) {
      assert ResizedSince(states, actions, m, n, wid);
    }
    if i: nat :| ResizedSince(states, actions, i, m, wid) {
      if !LetsGo(states[m], actions[m]) && forall other: WindowId :: other != wid ==> !ResizesAt(states[m], actions[m], other) {
        assert ResizedSince(states, actions, i, n, wid);
      }
    }
    if i: nat :| ResizedSince(states, actions, i, n, wid) {
      if i < m {
        assert ResizedSince(states, actions, i, m, wid);
      }
    }
  }

  ghost predicate DraggedSince(states: seq<System>, actions: seq<Action>, i: nat, n: nat)
    requires n <= |actions| < |states|
  {
    i < n && DragsAt(states[i], actions[i]) && forall k :: i < k < n ==> !actions[k].Release?
  }

  /** On every run: a drag is under way exactly when one was seen, and the button
      has not been released since. */
  lemma {:induction false} DraggingIs(states: seq<System>, actions: seq<Action>, n: nat)
    requires Run(states, actions) && n <= |actions| && !states[0].reactor.inDrag
    ensures states[n].reactor.inDrag <==> exists i: nat :: DraggedSince(states, actions, i, n)
  {
    if n > 0 {
      var m := n - 1;
      DraggingIs(states, actions, m);
      MouseStep(states[m], actions[m]);
      if DragsAt(states[m], actions[m]) {
        assert DraggedSince(states, actions, m, n);
      } else if i: nat :| DraggedSince(states, actions, i, m) {
        if !actions[m].Release? {
          assert DraggedSince(states, actions, i, n);
        }
      }
      if i: nat :| DraggedSince(states, actions, i, n) {
        if i < m {
          assert DraggedSince(states, actions, i, m);
        }
      }
    }
  }
}
