/** The raise manager of `src/actor/raise.rs`.

    Requests to raise windows are carried out one at a time. A request becomes
    a sequence: its batches are sent to their apps quietly, and once every
    window of theirs is answered for, the batch with the window to focus is
    sent. This module says what each message does to the state of the manager,
    and what therefore holds of every run. */
module RaiseSequences {
  import opened Options
  import opened Windows

  /** A cancellation token, by the order of creation. */
  type Token = nat

  /** A request to raise batches of windows, and to focus one window last. An
      app that is not in `apps` cannot be reached. */
  datatype Request = Request(batches: seq<seq<WindowId>>, focus: Option<(WindowId, Option<Point>)>, apps: set<int>)
  {
    /** Whether the request asks for the same thing as another. */
    predicate Matches(other: Request)
    {
      batches == other.batches && focus == other.focus
    }
  }

  datatype Event =
    | RaiseRequest(request: Request)
    | RaiseCompleted(window: WindowId, id: nat)
    | RaiseRequestFailed(windows: seq<WindowId>, id: nat)
    | RaiseTimeout(id: nat)

  datatype Batch = Batch(pid: int, wids: seq<WindowId>, warp: Option<Point>)

  /** A raise sent to an app. What the manager was still waiting for and
      whether the token was live are noted at the moment of sending. */
  datatype Raise = Raise(pid: int, wids: seq<WindowId>, token: Token, id: nat, quiet: bool, waiting: set<WindowId>, live: bool)

  datatype Active = Active(id: nat, pending: set<WindowId>, focus: Option<Batch>, apps: set<int>, token: Token, timedOut: bool)

  datatype Manager = Manager(active: Option<Active>, queue: seq<Request>, nextId: nat, nextToken: Token,
                             cancelled: set<Token>, sent: seq<Raise>, warps: seq<Point>)

  function Init(): Manager { Manager(None, [], 1, 0, {}, [], []) }

  function Elements<T>(s: seq<T>): set<T> { set x | x in s }

  // Starting a sequence.

  /** What the batches sent so far add up to. */
  datatype Starting = Starting(pending: set<WindowId>, focus: Option<Batch>, sent: seq<Raise>)

  predicate Focused(request: Request, wids: seq<WindowId>)
  {
    request.focus.Some? && request.focus.value.0 in wids
  }

  /** The first position of `w`. */
  function Position(wids: seq<WindowId>, w: WindowId): (i: nat)
    requires w in wids
    ensures i < |wids| && wids[i] == w && w !in wids[..i]
  {
    if wids[0] == w then 0 else 1 + Position(wids[1..], w)
  }

  /** The batch with the first occurrence of `w` exchanged with its last window. */
  function WithLast(wids: seq<WindowId>, w: WindowId): (r: seq<WindowId>)
    requires w in wids
    ensures |r| == |wids| > 0 && r[|r| - 1] == w && multiset(r) == multiset(wids)
  {
    var i, last := Position(wids, w), |wids| - 1;
    wids[i := wids[last]][last := w]
  }

  /** The order the windows of a batch are raised in. */
  function Arranged(request: Request, wids: seq<WindowId>): (r: seq<WindowId>)
    ensures |r| == |wids| && multiset(r) == multiset(wids)
  {
    if Focused(request, wids) then WithLast(wids, request.focus.value.0) else wids
  }

  function StartBatch(st: Starting, wids: seq<WindowId>, request: Request, open: set<int>, token: Token, id: nat, live: bool): Starting
  {
    if wids == [] then st
    else
      var pid, arranged := wids[0].pid, Arranged(request, wids);
      if Focused(request, wids) && st.focus.None? then st.(focus := Some(Batch(pid, arranged, request.focus.value.1)))
      else if pid in request.apps && pid in open then
        st.(pending := st.pending + Elements(arranged),
            sent := st.sent + [Raise(pid, arranged, token, id, true, st.pending, live)])
      else st
  }

  function StartBatches(st: Starting, batches: seq<seq<WindowId>>, request: Request, open: set<int>, token: Token, id: nat, live: bool): Starting
  {
    if batches == [] then st
    else
      var n := |batches| - 1;
      StartBatch(StartBatches(st, batches[..n], request, open, token, id, live), batches[n], request, open, token, id, live)
  }

  /** The batch to raise last. */
  function FocusBatch(request: Request, found: Option<Batch>): Option<Batch>
  {
    if request.focus.Some? && found.None?
    then Some(Batch(request.focus.value.0.pid, [request.focus.value.0], request.focus.value.1))
    else found
  }

  function Start(m: Manager, request: Request, open: set<int>): Manager
  {
    var st := StartBatches(Starting({}, None, m.sent), request.batches, request, open, m.nextToken, m.nextId, m.nextToken !in m.cancelled);
    var focus := FocusBatch(request, st.focus);
    m.(nextId := m.nextId + 1, nextToken := m.nextToken + 1, sent := st.sent,
       active := if st.pending != {} || focus.Some?
                 then Some(Active(m.nextId, st.pending, focus, request.apps, m.nextToken, false))
                 else m.active)
  }

  // Handling messages.

  function SendFocus(m: Manager, open: set<int>): Manager
    requires m.active.Some? && m.active.value.focus.Some?
  {
    var a := m.active.value;
    var b := a.focus.value;
    if b.pid in a.apps then
      m.(sent := if b.pid in open
                 then m.sent + [Raise(b.pid, b.wids, a.token, a.id, false, a.pending, a.token !in m.cancelled)]
                 else m.sent,
         active := Some(a.(focus := None, pending := if b.pid in open then a.pending + Elements(b.wids) else a.pending)),
         warps := if b.warp.Some? then m.warps + [b.warp.value] else m.warps)
    else m.(active := Some(a.(focus := None)))
  }

  /** Whether it is the turn of the batch with the window to focus. */
  predicate FocusDue(m: Manager)
  {
    m.active.Some? && m.active.value.pending == {} && m.active.value.focus.Some?
  }

  predicate Done(m: Manager)
  {
    m.active.Some? && m.active.value.pending == {} && m.active.value.focus.None?
  }

  function ProcessActive(m: Manager, open: set<int>): Manager
  {
    var m1 := if FocusDue(m) then SendFocus(m, open) else m;
    if Done(m1) then m1.(active := None) else m1
  }

  function ProcessQueued(m: Manager, open: set<int>): Manager
  {
    if m.active.None? && m.queue != [] then Start(m.(queue := m.queue[1..]), m.queue[0], open) else m
  }

  /** What one round of processing does. */
  function Round(m: Manager, open: set<int>): Manager
  {
    ProcessQueued(ProcessActive(m, open), open)
  }

  predicate Settled(m: Manager)
  {
    if m.active.Some? then m.active.value.pending != {} else m.queue == []
  }

  function Stage(m: Manager): nat
  {
    if m.active.None? then 0 else if m.active.value.focus.None? then 1 else 2
  }

  /** Rounds until nothing changes any more. */
  function Settle(m: Manager, open: set<int>): (r: Manager)
    ensures Settled(r)
    decreases |m.queue|, Stage(m)
  {
    if Settled(m) then m else Settle(Round(m, open), open)
  }

  /** Something is still to be done exactly while the manager is not settled,
      and every round gets closer to that. */
  lemma RoundProgresses(m: Manager, open: set<int>)
    ensures Settled(m) <==> !FocusDue(m) && !Done(m) && (ProcessActive(m, open).active.Some? || m.queue == [])
    ensures Settled(m) ==> Round(m, open) == m
    ensures !Settled(m) ==> |Round(m, open).queue| < |m.queue| || (|Round(m, open).queue| == |m.queue| && Stage(Round(m, open)) < Stage(m))
  {
  }

  /** The state a message leaves before any sequence is processed. */
  function Receive(m: Manager, e: Event): Manager
  {
    match e
    case RaiseRequest(r) =>
      if m.queue != [] && m.queue[|m.queue| - 1].Matches(r) then m else m.(queue := m.queue + [r])
    case RaiseCompleted(w, id) =>
      if m.active.Some? && m.active.value.id == id
      then m.(active := Some(m.active.value.(pending := m.active.value.pending - {w}))) else m
    case RaiseRequestFailed(ws, id) =>
      if m.active.Some? && m.active.value.id == id
      then m.(active := Some(m.active.value.(pending := m.active.value.pending - Elements(ws)))) else m
    case RaiseTimeout(id) =>
      if m.active.Some? && m.active.value.id == id
      then m.(active := Some(m.active.value.(pending := {}, token := m.nextToken, timedOut := false)),
              cancelled := m.cancelled + {m.active.value.token}, nextToken := m.nextToken + 1)
      else m
  }

  function Handle(m: Manager, e: Event, open: set<int>): Manager
  {
    Settle(Receive(m, e), open)
  }

  // What holds in every reachable state.

  /** Sequence ids never decrease, and the raise that takes the focus is the
      last of its sequence. */
  ghost predicate Ordered(sent: seq<Raise>)
  {
    forall i, j :: 0 <= i < j < |sent| ==> sent[i].id <= sent[j].id && (sent[i].id == sent[j].id ==> sent[i].quiet)
  }

  /** Every raise was sent with a live token, and one that takes the focus only
      when nothing of its sequence was pending. */
  ghost predicate Timely(sent: seq<Raise>)
  {
    forall i :: 0 <= i < |sent| ==> sent[i].wids != [] && sent[i].live && (!sent[i].quiet ==> sent[i].waiting == {})
  }

  /** No two neighbouring requests ask for the same thing. */
  ghost predicate Distinct(queue: seq<Request>)
  {
    forall i :: 0 <= i < |queue| - 1 ==> !queue[i].Matches(queue[i + 1])
  }

  /** The window was raised as part of sequence `id`. */
  ghost predicate Raised(sent: seq<Raise>, id: nat, w: WindowId)
  {
    exists i :: 0 <= i < |sent| && sent[i].id == id && w in sent[i].wids
  }

  ghost predicate ActiveOK(m: Manager, a: Active)
  {
    && a.id + 1 == m.nextId
    && a.token < m.nextToken && a.token !in m.cancelled
    && (forall w :: w in a.pending ==> Raised(m.sent, a.id, w))
    && (a.focus.Some? ==> a.focus.value.wids != [] && forall i :: 0 <= i < |m.sent| && m.sent[i].id == a.id ==> m.sent[i].quiet)
  }

  ghost predicate Inv(m: Manager)
  {
    && Ordered(m.sent) && Timely(m.sent) && Distinct(m.queue)
    && (forall i :: 0 <= i < |m.sent| ==> m.sent[i].id < m.nextId)
    && (forall t :: t in m.cancelled ==> t < m.nextToken)
    && (m.active.Some? ==> ActiveOK(m, m.active.value))
  }

  /** The raises of a sequence being started, after those sent before. */
  ghost predicate Opened(before: seq<Raise>, st: Starting, id: nat)
  {
    && before <= st.sent
    && (forall i :: |before| <= i < |st.sent| ==> st.sent[i].id == id && st.sent[i].quiet && st.sent[i].live && st.sent[i].wids != [])
    && (forall w :: w in st.pending ==> Raised(st.sent, id, w))
    && (forall i :: |before| <= i < |st.sent| ==> Elements(st.sent[i].wids) <= st.pending)
    && (st.focus.Some? ==> st.focus.value.wids != [])
  }

  lemma {:induction false} StartBatchesOpens(st: Starting, batches: seq<seq<WindowId>>, request: Request, open: set<int>, token: Token, id: nat)
    requires st.pending == {} && st.focus.None?
    ensures Opened(st.sent, StartBatches(st, batches, request, open, token, id, true), id)
  {
    if batches != [] {
      var n := |batches| - 1;
      StartBatchesOpens(st, batches[..n], request, open, token, id);
      var before := StartBatches(st, batches[..n], request, open, token, id, true);
      var after := StartBatch(before, batches[n], request, open, token, id, true);
      forall w | w in after.pending
        ensures Raised(after.sent, id, w)
      {
        if w in before.pending {
          var i :| 0 <= i < |before.sent| && before.sent[i].id == id && w in before.sent[i].wids;
          assert after.sent[i] == before.sent[i];
        } else {
          assert w in after.sent[|before.sent|].wids;
        }
      }
    }
  }

  lemma StartKeeps(m: Manager, request: Request, open: set<int>)
    requires Inv(m) && m.active.None?
    ensures Inv(Start(m, request, open))
  {
    var st := StartBatches(Starting({}, None, m.sent), request.batches, request, open, m.nextToken, m.nextId, true);
    StartBatchesOpens(Starting({}, None, m.sent), request.batches, request, open, m.nextToken, m.nextId);
    forall i, j | 0 <= i < j < |st.sent|
      ensures st.sent[i].id <= st.sent[j].id && (st.sent[i].id == st.sent[j].id ==> st.sent[i].quiet)
    {
      if j < |m.sent| {
        assert st.sent[i] == m.sent[i] && st.sent[j] == m.sent[j];
      } else if i < |m.sent| {
        assert st.sent[i] == m.sent[i];
      }
    }
    forall i | 0 <= i < |st.sent|
      ensures st.sent[i].id <= m.nextId && st.sent[i].wids != [] && st.sent[i].live && (!st.sent[i].quiet ==> st.sent[i].waiting == {})
    {
      if i < |m.sent| {
        assert st.sent[i] == m.sent[i];
      }
    }
  }

  lemma SendFocusKeeps(m: Manager, open: set<int>)
    requires Inv(m) && FocusDue(m)
    ensures Inv(SendFocus(m, open)) && SendFocus(m, open).queue == m.queue
  {
    var r, a := SendFocus(m, open), m.active.value;
    forall w | w in r.active.value.pending
      ensures Raised(r.sent, a.id, w)
    {
      assert r.sent[|m.sent|].id == a.id && w in r.sent[|m.sent|].wids;
    }
  }

  lemma RoundKeeps(m: Manager, open: set<int>)
    requires Inv(m)
    ensures Inv(Round(m, open))
  {
    if FocusDue(m) {
      SendFocusKeeps(m, open);
    }
    var m1 := ProcessActive(m, open);
    if m1.active.None? && m1.queue != [] {
      StartKeeps(m1.(queue := m1.queue[1..]), m1.queue[0], open);
    }
  }

  lemma {:induction false} SettleKeeps(m: Manager, open: set<int>)
    requires Inv(m)
    ensures Inv(Settle(m, open))
    decreases |m.queue|, Stage(m)
  {
    if !Settled(m) {
      RoundKeeps(m, open);
      SettleKeeps(Round(m, open), open);
    }
  }

  lemma ReceiveKeeps(m: Manager, e: Event)
    requires Inv(m)
    ensures Inv(Receive(m, e))
  {
  }

  /** Every message keeps the order and the timing of the raises. */
  lemma HandleKeeps(m: Manager, e: Event, open: set<int>)
    requires Inv(m)
    ensures Inv(Handle(m, e, open)) && Settled(Handle(m, e, open))
  {
    ReceiveKeeps(m, e);
    SettleKeeps(Receive(m, e), open);
  }

  /** The states after each of a run of messages. */
  ghost predicate Run(ms: seq<Manager>, es: seq<Event>, opens: seq<set<int>>)
  {
    |ms| == |es| + 1 == |opens| + 1 && forall i :: 0 <= i < |es| ==> ms[i + 1] == Handle(ms[i], es[i], opens[i])
  }

  /** On every run from the start: sequence ids never decrease in the log of
      raises, the raise that takes the focus is the last one of its sequence and
      is sent when nothing of it is pending, and every raise carries a live
      token. Nothing sent is ever taken back. */
  lemma {:induction false} RaisesInOrder(ms: seq<Manager>, es: seq<Event>, opens: seq<set<int>>, n: nat)
    requires Run(ms, es, opens) && ms[0] == Init() && n < |ms|
    ensures Inv(ms[n]) && Settled(ms[n])
  {
    if n > 0 {
      RaisesInOrder(ms, es, opens, n - 1);
      HandleKeeps(ms[n - 1], es[n - 1], opens[n - 1]);
    }
  }

  // Staleness.

  function Addressed(e: Event): Option<nat>
  {
    match e
    case RaiseRequest(_) => None
    case RaiseCompleted(_, id) => Some(id)
    case RaiseRequestFailed(_, id) => Some(id)
    case RaiseTimeout(id) => Some(id)
  }

  /** A message for a sequence that is not active changes nothing. */
  lemma StaleIsIgnored(m: Manager, e: Event, open: set<int>)
    requires Settled(m) && Addressed(e).Some?
    requires m.active.Some? ==> m.active.value.id != Addressed(e).value
    ensures Handle(m, e, open) == m
  {
  }

  // What a request leads to.

  /** A batch that can be sent right away. */
  predicate Reachable(request: Request, open: set<int>, wids: seq<WindowId>)
  {
    wids != [] && wids[0].pid in request.apps && wids[0].pid in open
  }

  ghost predicate Delivered(sent: seq<Raise>, from: nat, wids: seq<WindowId>)
    requires wids != []
  {
    exists i :: from <= i < |sent| && sent[i].quiet && sent[i].pid == wids[0].pid && sent[i].wids == wids
  }

  lemma {:induction false} BatchesAreDelivered(st: Starting, batches: seq<seq<WindowId>>, request: Request, open: set<int>, token: Token, id: nat, live: bool, k: nat)
    requires k < |batches| && Reachable(request, open, batches[k]) && !Focused(request, batches[k])
    ensures st.sent <= StartBatches(st, batches, request, open, token, id, live).sent
    ensures Delivered(StartBatches(st, batches, request, open, token, id, live).sent, |st.sent|, batches[k])
  {
    var n := |batches| - 1;
    var before := StartBatches(st, batches[..n], request, open, token, id, live);
    var after := StartBatches(st, batches, request, open, token, id, live);
    LogGrowsInStart(st, batches[..n], request, open, token, id, live);
    if k < n {
      BatchesAreDelivered(st, batches[..n], request, open, token, id, live, k);
      var i :| |st.sent| <= i < |before.sent| && before.sent[i].quiet && before.sent[i].pid == batches[..n][k][0].pid && before.sent[i].wids == batches[..n][k];
      assert after.sent[i] == before.sent[i];
    } else {
      assert after.sent[|before.sent|].wids == batches[k];
    }
  }

  lemma {:induction false} LogGrowsInStart(st: Starting, batches: seq<seq<WindowId>>, request: Request, open: set<int>, token: Token, id: nat, live: bool)
    ensures st.sent <= StartBatches(st, batches, request, open, token, id, live).sent
  {
    if batches != [] {
      LogGrowsInStart(st, batches[..|batches| - 1], request, open, token, id, live);
    }
  }

  /** Starting a sequence raises every batch that can be reached, except the
      one held back because it contains the window to focus. */
  lemma StartDeliversBatches(m: Manager, request: Request, open: set<int>, k: nat)
    requires k < |request.batches| && Reachable(request, open, request.batches[k]) && !Focused(request, request.batches[k])
    ensures Delivered(Start(m, request, open).sent, |m.sent|, request.batches[k])
  {
    BatchesAreDelivered(Starting({}, None, m.sent), request.batches, request, open, m.nextToken, m.nextId, m.nextToken !in m.cancelled, k);
  }

  /** The position of the first batch with the window to focus, or the number
      of batches if there is none. */
  function FirstFocused(request: Request, batches: seq<seq<WindowId>>): (k: nat)
    ensures k <= |batches| && forall i :: 0 <= i < k ==> !Focused(request, batches[i])
    ensures k < |batches| ==> Focused(request, batches[k])
  {
    if batches == [] then 0
    else
      var n := |batches| - 1;
      var k := FirstFocused(request, batches[..n]);
      if k == n && !Focused(request, batches[n]) then n + 1 else k
  }

  lemma {:induction false} FocusIsFound(st: Starting, batches: seq<seq<WindowId>>, request: Request, open: set<int>, token: Token, id: nat, live: bool)
    requires st.focus.None? && request.focus.Some?
    ensures var k := FirstFocused(request, batches);
            StartBatches(st, batches, request, open, token, id, live).focus ==
            if k == |batches| then None
            else Some(Batch(batches[k][0].pid, WithLast(batches[k], request.focus.value.0), request.focus.value.1))
  {
    if batches != [] {
      FocusIsFound(st, batches[..|batches| - 1], request, open, token, id, live);
    }
  }

  /** The batch held back is the first one with the window to focus, the same
      windows with that one last; without such a batch it is that window alone. */
  lemma StartHoldsFocusBack(m: Manager, request: Request, open: set<int>)
    requires request.focus.Some?
    ensures var a, k := Start(m, request, open).active, FirstFocused(request, request.batches);
            a.Some? && a.value.id == m.nextId && a.value.focus.Some? &&
            var b := a.value.focus.value;
            b.wids != [] && b.wids[|b.wids| - 1] == request.focus.value.0 && b.warp == request.focus.value.1 &&
            if k < |request.batches|
            then multiset(b.wids) == multiset(request.batches[k]) && b.pid == request.batches[k][0].pid
            else b.wids == [request.focus.value.0] && b.pid == request.focus.value.0.pid
  {
    FocusIsFound(Starting({}, None, m.sent), request.batches, request, open, m.nextToken, m.nextId, m.nextToken !in m.cancelled);
  }

  // Waiting.

  /** Whether a message accounts for window `w` of sequence `id`. */
  predicate Answers(e: Event, id: nat, w: WindowId)
  {
    e == RaiseCompleted(w, id) || (e.RaiseRequestFailed? && e.id == id && w in e.windows) || e == RaiseTimeout(id)
  }

  /** The sequence waits for `w` before it takes the focus. */
  predicate WaitsFor(m: Manager, id: nat, w: WindowId)
  {
    m.active.Some? && m.active.value.id == id && w in m.active.value.pending && m.active.value.focus.Some?
  }

  lemma StepWaits(m: Manager, e: Event, open: set<int>, id: nat, w: WindowId)
    requires WaitsFor(m, id, w) && !Answers(e, id, w)
    ensures WaitsFor(Handle(m, e, open), id, w)
  {
    assert WaitsFor(Receive(m, e), id, w);
    assert Settled(Receive(m, e));
  }

  /** From the moment a window is raised until a message accounts for it, its
      sequence stays active and does not take the focus. */
  lemma {:induction false} FocusWaits(ms: seq<Manager>, es: seq<Event>, opens: seq<set<int>>, i: nat, j: nat, id: nat, w: WindowId)
    requires Run(ms, es, opens) && i <= j < |ms| && Inv(ms[i]) && WaitsFor(ms[i], id, w)
    requires forall k :: i <= k < j ==> !Answers(es[k], id, w)
    ensures Inv(ms[j]) && WaitsFor(ms[j], id, w)
    ensures forall k :: 0 <= k < |ms[j].sent| && ms[j].sent[k].id == id ==> ms[j].sent[k].quiet
  {
    if i < j {
      FocusWaits(ms, es, opens, i, j - 1, id, w);
      StepWaits(ms[j - 1], es[j - 1], opens[j - 1], id, w);
      HandleKeeps(ms[j - 1], es[j - 1], opens[j - 1]);
    }
  }

  // Retirement.

  /** How many more timeouts a sequence can take. */
  function Life(m: Manager, id: nat): nat
  {
    if m.active.Some? && m.active.value.id == id then Stage(m) else 0
  }

  lemma {:induction false} SettleShortensLife(m: Manager, open: set<int>, id: nat)
    requires Inv(m) && id < m.nextId
    ensures Life(Settle(m, open), id) <= Life(m, id) && id < Settle(m, open).nextId
    ensures Life(m, id) > 0 && m.active.value.pending == {} ==> Life(Settle(m, open), id) < Life(m, id)
    decreases |m.queue|, Stage(m)
  {
    if !Settled(m) {
      RoundKeeps(m, open);
      SettleShortensLife(Round(m, open), open, id);
    }
  }

  /** Messages never prolong a sequence, and each of its timeouts shortens it. */
  lemma HandleShortensLife(m: Manager, e: Event, open: set<int>, id: nat)
    requires Inv(m) && id < m.nextId
    ensures Life(Handle(m, e, open), id) <= Life(m, id) && id < Handle(m, e, open).nextId
    ensures e == RaiseTimeout(id) && Life(m, id) > 0 ==> Life(Handle(m, e, open), id) < Life(m, id)
  {
    ReceiveKeeps(m, e);
    SettleShortensLife(Receive(m, e), open, id);
  }

  lemma {:induction false} LifeOnRun(ms: seq<Manager>, es: seq<Event>, opens: seq<set<int>>, i: nat, j: nat, id: nat)
    requires Run(ms, es, opens) && i <= j < |ms| && Inv(ms[i]) && id < ms[i].nextId
    ensures Inv(ms[j]) && id < ms[j].nextId && Life(ms[j], id) <= Life(ms[i], id)
  {
    if i < j {
      LifeOnRun(ms, es, opens, i, j - 1, id);
      HandleKeeps(ms[j - 1], es[j - 1], opens[j - 1]);
      HandleShortensLife(ms[j - 1], es[j - 1], opens[j - 1], id);
    }
  }

  /** A sequence is retired for good by the second timeout with its id,
      whatever else arrives before, between and after. */
  lemma TwoTimeoutsRetire(ms: seq<Manager>, es: seq<Event>, opens: seq<set<int>>, i: nat, j: nat, n: nat, id: nat)
    requires Run(ms, es, opens) && i < j < n < |ms| && Inv(ms[i]) && id < ms[i].nextId
    requires es[i] == es[j] == RaiseTimeout(id)
    ensures ms[n].active.Some? ==> ms[n].active.value.id != id
  {
    HandleKeeps(ms[i], es[i], opens[i]);
    HandleShortensLife(ms[i], es[i], opens[i], id);
    LifeOnRun(ms, es, opens, i + 1, j, id);
    HandleKeeps(ms[j], es[j], opens[j]);
    HandleShortensLife(ms[j], es[j], opens[j], id);
    LifeOnRun(ms, es, opens, j + 1, n, id);
  }
}
