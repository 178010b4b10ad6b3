/** The raise manager as the object it is, changing its fields in place. */
module RaiseManager {
  import opened Options
  import opened Windows
  import opened RaiseSequences

  class RaiseManager {
    var activeSequence: Option<Active>
    var queuedSequences: seq<Request>
    var nextSequenceId: nat
    var nextToken: Token
    var cancelledTokens: set<Token>
    /** The raises sent to apps, and the warps sent to the mouse, so far. */
    var sent: seq<Raise>
    var warps: seq<Point>

    function State(): Manager
      reads this
    {
      Manager(activeSequence, queuedSequences, nextSequenceId, nextToken, cancelledTokens, sent, warps)
    }

    constructor ()
      ensures State() == Init() && Inv(State()) && Settled(State())
    {
      activeSequence, queuedSequences, nextSequenceId := None, [], 1;
      nextToken, cancelledTokens, sent, warps := 0, {}, [], [];
    }

    method SendBatch(st: Starting, wids: seq<WindowId>, request: Request, open: set<int>, token: Token, id: nat) returns (r: Starting)
      requires wids != [] && st.sent == sent
      modifies this`sent
      ensures r == StartBatch(st, wids, request, open, token, id, token !in cancelledTokens) && r.sent == sent
    {
      r := st;
      var pid, arranged := wids[0].pid, wids;
      if request.focus.Some? && request.focus.value.0 in wids {
        var position := Position(wids, request.focus.value.0);
        var last := |wids| - 1;
        arranged := wids[position := wids[last]][last := wids[position]];
        if st.focus.None? {
          r := st.(focus := Some(Batch(pid, arranged, request.focus.value.1)));
          return;
        }
      }
      if pid in request.apps && pid in open {
        sent := sent + [Raise(pid, arranged, token, id, true, st.pending, token !in cancelledTokens)];
        r := st.(pending := st.pending + Elements(arranged), sent := sent);
      }
    }

    method SendBatches(request: Request, open: set<int>, token: Token, id: nat) returns (st: Starting)
      modifies this`sent
      ensures st == StartBatches(Starting({}, None, old(sent)), request.batches, request, open, token, id, token !in cancelledTokens)
      ensures st.sent == sent
    {
      st := Starting({}, None, sent);
      for i := 0 to |request.batches|
        invariant st == StartBatches(Starting({}, None, old(sent)), request.batches[..i], request, open, token, id, token !in cancelledTokens)
        invariant st.sent == sent
      {
        assert request.batches[..i + 1][..i] == request.batches[..i];
        if request.batches[i] != [] {
          st := SendBatch(st, request.batches[i], request, open, token, id);
        }
      }
      assert request.batches[..|request.batches|] == request.batches;
    }

    method StartNewSequence(request: Request, open: set<int>)
      modifies this
      ensures State() == Start(old(State()), request, open)
    {
      var id, token := nextSequenceId, nextToken;
      nextSequenceId, nextToken := nextSequenceId + 1, nextToken + 1;
      var st := SendBatches(request, open, token, id);
      var focus := st.focus;
      if request.focus.Some? && focus.None? {
        focus := Some(Batch(request.focus.value.0.pid, [request.focus.value.0], request.focus.value.1));
      }
      if st.pending != {} || focus.Some? {
        activeSequence := Some(Active(id, st.pending, focus, request.apps, token, false));
      }
    }

    method ProcessActiveSequence(open: set<int>) returns (changed: bool)
      modifies this
      ensures State() == ProcessActive(old(State()), open)
      ensures changed <==> FocusDue(old(State())) || Done(old(State()))
    {
      changed := false;
      if activeSequence.None? {
        return;
      }
      var a := activeSequence.value;
      if a.pending == {} && a.focus.Some? {
        changed := true;
        var batch := a.focus.value;
        activeSequence := Some(a.(focus := None));
        if batch.pid in a.apps {
          if batch.pid in open {
            sent := sent + [Raise(batch.pid, batch.wids, a.token, a.id, false, a.pending, a.token !in cancelledTokens)];
            activeSequence := Some(activeSequence.value.(pending := a.pending + Elements(batch.wids)));
          }
          if batch.warp.Some? {
            warps := warps + [batch.warp.value];
          }
        }
      }
      if activeSequence.value.pending == {} && activeSequence.value.focus.None? {
        activeSequence := None;
        changed := true;
      }
    }

    method ProcessQueuedResponses(open: set<int>) returns (changed: bool)
      modifies this
      ensures State() == ProcessQueued(old(State()), open)
      ensures changed <==> old(activeSequence).None? && old(queuedSequences) != []
    {
      changed := false;
      if activeSequence.None? && queuedSequences != [] {
        var queued := queuedSequences[0];
        queuedSequences := queuedSequences[1..];
        StartNewSequence(queued, open);
        changed := true;
      }
    }

    /** Takes in a message, without acting on what it makes possible. */
    method TakeIn(e: Event)
      modifies this
      ensures State() == Receive(old(State()), e)
    {
      match e
      case RaiseRequest(request) =>
        if queuedSequences == [] || !queuedSequences[|queuedSequences| - 1].Matches(request) {
          queuedSequences := queuedSequences + [request];
        }
      case RaiseCompleted(window, id) =>
        if activeSequence.Some? && activeSequence.value.id == id {
          activeSequence := Some(activeSequence.value.(pending := activeSequence.value.pending - {window}));
        }
      case RaiseRequestFailed(windows, id) =>
        if activeSequence.Some? && activeSequence.value.id == id {
          for i := 0 to |windows|
            invariant activeSequence.Some? && activeSequence.value == old(activeSequence).value.(pending := old(activeSequence).value.pending - Elements(windows[..i]))
            invariant State() == old(State()).(active := activeSequence)
          {
            assert Elements(windows[..i + 1]) == Elements(windows[..i]) + {windows[i]};
            activeSequence := Some(activeSequence.value.(pending := activeSequence.value.pending - {windows[i]}));
          }
          assert windows[..|windows|] == windows;
        }
      case RaiseTimeout(id) =>
        if activeSequence.Some? && activeSequence.value.id == id {
          var a := activeSequence.value;
          cancelledTokens := cancelledTokens + {a.token};
          activeSequence := Some(a.(pending := {}, token := nextToken, timedOut := false));
          nextToken := nextToken + 1;
        }
    }

    /** Handles a message from the reactor, and goes on with sequences until no
        more progress can be made. */
    method HandleMessage(e: Event, open: set<int>)
      requires Inv(State())
      modifies this
      ensures State() == Handle(old(State()), e, open)
      ensures Inv(State()) && Settled(State())
      ensures Addressed(e).Some? && Settled(old(State())) && (old(activeSequence).Some? ==> old(activeSequence).value.id != Addressed(e).value) ==>
                State() == old(State())
    {
      HandleKeeps(State(), e, open);
      TakeIn(e);
      Progress(open);
    }

    /** Goes on with sequences until nothing changes any more. */
    method Progress(open: set<int>)
      modifies this
      ensures State() == Settle(old(State()), open)
    {
      var changed := true;
      while changed
        invariant Settle(State(), open) == Settle(old(State()), open)
        invariant !changed ==> Settled(State())
        decreases |queuedSequences|, Stage(State()), changed
      {
        RoundProgresses(State(), open);
        var processed := ProcessActiveSequence(open);
        var started := ProcessQueuedResponses(open);
        changed := processed || started;
      }
    }

    /** The manager's own timer has run out. */
    method TimerFired() returns (timeout: Option<nat>)
      modifies this`activeSequence
      ensures if old(activeSequence).Some? && !old(activeSequence).value.timedOut
              then timeout == Some(old(activeSequence).value.id) && activeSequence == Some(old(activeSequence).value.(timedOut := true))
              else timeout == None && activeSequence == old(activeSequence)
    {
      timeout := None;
      if activeSequence.Some? && !activeSequence.value.timedOut {
        activeSequence := Some(activeSequence.value.(timedOut := true));
        timeout := Some(activeSequence.value.id);
      }
    }
  }
}
