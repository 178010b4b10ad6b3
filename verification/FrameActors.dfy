/** The reactor and the thread of an app as the objects they are, as far as the
    frames of windows are concerned. */
module FrameActors {
  import opened Options
  import opened Reals
  import opened Windows
  import opened FrameWrites

  class ReactorActor {
    var windows: map<WindowId, ReactorWindow>
    var frameAttempts: map<WindowId, FrameAttempt>
    var minSizes: map<WindowId, MinSize>
    var resizingWindow: Option<WindowId>
    var inDrag: bool

    function State(): Reactor
      reads this
    {
      Reactor(windows, frameAttempts, minSizes, resizingWindow, inDrag)
    }

    constructor ()
      ensures State() == Reactor(map[], map[], map[], None, false)
    {
      windows, frameAttempts, minSizes := map[], map[], map[];
      resizingWindow, inDrag := None, false;
    }

    /** The id for the next write to a window. */
    method NextTxid(wid: WindowId) returns (txid: TransactionId)
      requires wid in windows
      modifies this`windows
      ensures txid == old(windows)[wid].lastSent + 1
      ensures windows == old(windows)[wid := old(windows)[wid].(lastSent := txid)]
    {
      txid := windows[wid].lastSent + 1;
      windows := windows[wid := windows[wid].(lastSent := txid)];
    }

    /** Considers one target; writes the frame unless there is a reason not to. */
    method ConsiderTarget(wid: WindowId, target: Frame, around: Surroundings) returns (writes: seq<Write>)
      modifies this`windows, this`frameAttempts
      ensures (State(), writes) == WriteOne(old(State()), wid, target, around)
    {
      writes := [];
      if resizingWindow == Some(wid) || wid in around.elsewhere || wid !in windows {
        return;
      }
      if target == windows[wid].frame {
        return;
      }
      var attempt := if wid in frameAttempts then frameAttempts[wid] else FrameAttempt(target, 0, around.now);
      if attempt.target != target || around.now - attempt.last > FRAME_ATTEMPT_RESET {
        attempt := FrameAttempt(target, 0, around.now);
      }
      attempt := attempt.(last := around.now, count := if attempt.count < MAX_COUNT then attempt.count + 1 else attempt.count);
      frameAttempts := frameAttempts[wid := attempt];
      if attempt.count > MAX_FRAME_ATTEMPTS || wid.pid !in around.apps {
        return;
      }
      var txid := NextTxid(wid);
      writes := [SetWindowFrame(wid, target, txid)];
      windows := windows[wid := windows[wid].(frame := target)];
      assert windows == old(windows)[wid := ReactorWindow(target, txid)];
    }

    /** Brings the windows to their places. */
    method UpdateLayout(targets: seq<(WindowId, Frame)>, around: Surroundings) returns (writes: seq<Write>)
      modifies this`windows, this`frameAttempts
      ensures (State(), writes) == WriteAll(old(State()), targets, around)
      ensures forall i :: 0 <= i < |writes| ==> resizingWindow != Some(writes[i].wid) && writes[i].wid !in around.elsewhere
    {
      writes := [];
      for i := 0 to |targets|
        invariant (State(), writes) == WriteAll(old(State()), targets[..i], around)
        invariant forall k :: 0 <= k < |writes| ==> resizingWindow != Some(writes[k].wid) && writes[k].wid !in around.elsewhere
      {
        assert targets[..i + 1][..i] == targets[..i];
        WriteOneEffect(State(), targets[i].0, targets[i].1, around);
        var more := ConsiderTarget(targets[i].0, targets[i].1, around);
        writes := writes + more;
      }
      assert targets[..|targets|] == targets;
    }

    /** Lowers the minimum noted for a window to the size it has. */
    method RelaxMinSize(wid: WindowId, frame: Frame)
      modifies this`minSizes
      ensures minSizes == Relaxed(old(minSizes), wid, frame)
    {
      if wid in minSizes {
        minSizes := minSizes[wid := MinSize(Min(minSizes[wid].width, frame.width), Min(minSizes[wid].height, frame.height))];
      }
    }

    /** Raises the minimum noted for a window; says whether that changed it. */
    method NoteMinSize(wid: WindowId, size: MinSize) returns (changed: bool)
      modifies this`minSizes
      ensures minSizes == NotedFor(old(minSizes), wid, size) && (changed <==> minSizes != old(minSizes))
    {
      ghost var noted := minSizes;
      var before := if wid in minSizes then Some(minSizes[wid]) else None;
      var entry := if before.Some? then before.value else MinSize(0.0, 0.0);
      minSizes := minSizes[wid := MinSize(Max(entry.width, size.width), Max(entry.height, size.height))];
      changed := before != Some(minSizes[wid]);
      assert !changed ==> minSizes == noted;
    }

    /** Takes in a report, and says whether the layout is to be brought up to
        date. The window must be known: the program stops otherwise. */
    method HandleFrameChanged(e: Report) returns (relayout: bool)
      requires e.wid in windows
      modifies this`windows, this`minSizes, this`resizingWindow, this`inDrag
      ensures State() == TakeIn(old(State()), e)
      ensures relayout <==> Relayouts(old(State()), e)
    {
      relayout := false;
      if e.mouse == Some(Up) {
        resizingWindow := None;
      }
      if !SameTxid(e.lastSeen, windows[e.wid].lastSent) {
        return;
      }
      RelaxMinSize(e.wid, e.frame);
      var known := windows[e.wid].frame;
      if e.requested {
        var size := Refused(known, e.frame);
        if 0.0 < size.width || 0.0 < size.height {
          var changed := NoteMinSize(e.wid, size);
          relayout := changed && !inDrag;
        }
        return;
      }
      windows := windows[e.wid := windows[e.wid].(frame := e.frame)];
      if known == e.frame {
        return;
      }
      if !e.frame.SameSize(known) {
        if e.mouse == Some(Down) {
          resizingWindow := Some(e.wid);
        }
      } else if e.mouse == Some(Down) {
        inDrag := true;
      }
      relayout := !inDrag;
    }

    method HandleMouseUp()
      modifies this`resizingWindow, this`inDrag
      ensures State() == old(State()).(resizing := None, inDrag := false)
    {
      resizingWindow, inDrag := None, false;
    }
  }

  class AppThread {
    var windows: map<WindowId, AppWindow>

    constructor (windows: map<WindowId, AppWindow>)
      ensures this.windows == windows
    {
      this.windows := windows;
    }

    /** Applies a write, or tries to, which leaves the window at `got`. It
        answers with the frame that is read back, unless writing or reading fails
        (`ok`). There is no answer for a window that is gone. */
    method HandleSetWindowFrame(w: Write, got: Frame, ok: bool) returns (answer: Option<Report>)
      modifies this
      ensures if w.wid in old(windows)
              then windows == Applied(old(windows), w, got) && answer == if ok then Some(Answer(w, got)) else None
              else windows == old(windows) && answer == None
    {
      answer := None;
      if w.wid !in windows {
        return;
      }
      windows := windows[w.wid := windows[w.wid].(lastSeen := w.txid)];
      windows := windows[w.wid := windows[w.wid].(frame := got)];
      if ok {
        answer := Some(WindowFrameChanged(w.wid, windows[w.wid].frame, w.txid, true, None));
      }
    }

    /** Looks at a window the system noticed, whatever it was noticed for. */
    method HandleNotification(wid: WindowId, mouse: MouseState) returns (report: Option<Report>)
      ensures report == if wid in windows then Some(Noticed(windows, wid, mouse)) else None
    {
      report := None;
      if wid in windows {
        var lastSeen := windows[wid].lastSeen;
        report := Some(WindowFrameChanged(wid, windows[wid].frame, lastSeen, false, Some(mouse)));
      }
    }
  }
}
