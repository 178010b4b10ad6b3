/** What becomes of requests (`src/actor/raise.rs`), read off the log of raises:
    which windows are raised for a request, when its focus is taken, and in what
    order requests are carried out. */
module RaiseDelivery {
  import opened Options
  import opened Windows
  import opened RaiseSequences

  // What a request asks for.

  /** The first batch with the window to focus is held back. */
  ghost predicate HeldAt(r: Request, k: nat)
  {
    k < |r.batches| && r.focus.Some? && r.focus.value.0 in r.batches[k] &&
    forall j :: 0 <= j < k ==> r.focus.value.0 !in r.batches[j]
  }

  /** The batch with the first mention of `w` and its last window exchanged. */
  ghost predicate EndsIn(wids: seq<WindowId>, batch: seq<WindowId>, w: WindowId)
  {
    exists p :: 0 <= p < |batch| && batch[p] == w && w !in batch[..p] &&
      wids == batch[p := batch[|batch| - 1]][|batch| - 1 := w]
  }

  /** What takes the focus for a request: the batch held back, or the window alone. */
  ghost predicate TakesFocus(r: Request, b: Batch)
  {
    r.focus.Some? && b.warp == r.focus.value.1 &&
    var w := r.focus.value.0;
    if exists k: nat :: HeldAt(r, k)
    then exists k: nat :: HeldAt(r, k) && b.pid == r.batches[k][0].pid && EndsIn(b.wids, r.batches[k], w)
    else b.pid == w.pid && b.wids == [w]
  }

  /** The batches that are sent quietly, in order. */
  ghost function Sendable(r: Request, open: set<int>, n: nat): seq<nat>
    requires n <= |r.batches|
  {
    if n == 0 then []
    else
      var batch := r.batches[n - 1];
      Sendable(r, open, n - 1) +
      if batch != [] && !HeldAt(r, n - 1) && batch[0].pid in r.apps && batch[0].pid in open then [n - 1] else []
  }

  /** A quiet raise of a batch. One with the window to focus has it last. */
  ghost predicate RaisesQuietly(r: Request, k: nat, x: Raise)
  {
    k < |r.batches| && r.batches[k] != [] && x.quiet && x.pid == r.batches[k][0].pid &&
    if r.focus.Some? && r.focus.value.0 in r.batches[k] then EndsIn(x.wids, r.batches[k], r.focus.value.0)
    else x.wids == r.batches[k]
  }

  /** These raises are the quiet ones for a request. */
  ghost predicate QuietRaises(r: Request, id: nat, raises: seq<Raise>, ks: seq<nat>)
  {
    |raises| == |ks| && forall j :: 0 <= j < |ks| ==> raises[j].id == id && RaisesQuietly(r, ks[j], raises[j])
  }

  // Starting.

  /** What a start comes to after its first `n` batches. */
  ghost predicate Begun(r: Request, open: set<int>, id: nat, sent: seq<Raise>, n: nat, st: Starting)
    requires n <= |r.batches|
  {
    sent <= st.sent && QuietRaises(r, id, st.sent[|sent|..], Sendable(r, open, n)) &&
    (forall i :: |sent| <= i < |st.sent| ==> Elements(st.sent[i].wids) <= st.pending) &&
    (st.focus.Some? <==> exists k: nat :: k < n && HeldAt(r, k)) &&
    (st.focus.Some? ==> TakesFocus(r, st.focus.value))
  }

  lemma ArrangedEndsIn(r: Request, batch: seq<WindowId>)
    requires r.focus.Some? && r.focus.value.0 in batch
    ensures EndsIn(Arranged(r, batch), batch, r.focus.value.0)
  {
    var p := Position(batch, r.focus.value.0);
    assert batch[p] == r.focus.value.0;
  }

  lemma BatchBegins(r: Request, open: set<int>, token: Token, id: nat, sent: seq<Raise>, n: nat, st: Starting)
    requires n < |r.batches| && Begun(r, open, id, sent, n, st)
    ensures Begun(r, open, id, sent, n + 1, StartBatch(st, r.batches[n], r, open, token, id, true))
  {
    var batch, st' := r.batches[n], StartBatch(st, r.batches[n], r, open, token, id, true);
    if r.focus.Some? && r.focus.value.0 in batch {
      ArrangedEndsIn(r, batch);
      assert HeldAt(r, n) <==> st.focus.None? by {
        if st.focus.None? {
          FirstHeld(r, n);
        }
      }
    }
    if st'.sent != st.sent {
      assert st'.sent[|sent|..] == st.sent[|sent|..] + [st'.sent[|st.sent|]];
    }
  }

  /** Where no batch before is held back, the first with the window is. */
  lemma {:induction false} FirstHeld(r: Request, n: nat)
    requires n <= |r.batches| && r.focus.Some? && !exists k: nat :: k < n && HeldAt(r, k)
    ensures forall j :: 0 <= j < n ==> r.focus.value.0 !in r.batches[j]
  {
    if n > 0 {
      FirstHeld(r, n - 1);
      assert !HeldAt(r, n - 1);
    }
  }

  lemma {:induction false} BatchesBegin(r: Request, open: set<int>, token: Token, id: nat, sent: seq<Raise>, n: nat)
    requires n <= |r.batches|
    ensures Begun(r, open, id, sent, n, StartBatches(Starting({}, None, sent), r.batches[..n], r, open, token, id, true))
  {
    if n > 0 {
      BatchesBegin(r, open, token, id, sent, n - 1);
      assert r.batches[..n][..n - 1] == r.batches[..n - 1];
      BatchBegins(r, open, token, id, sent, n - 1, StartBatches(Starting({}, None, sent), r.batches[..n - 1], r, open, token, id, true));
    } else {
      assert sent[|sent|..] == [];
    }
  }

  // What takes the focus.

  predicate IsFocusRaise(x: Raise, id: nat, b: Batch)
  {
    !x.quiet && x.id == id && x.pid == b.pid && x.wids == b.wids
  }

  ghost predicate NoFocusRaise(sent: seq<Raise>, from: nat, id: nat)
  {
    forall k :: from <= k < |sent| && sent[k].id == id ==> sent[k].quiet
  }

  /** Where its app can be reached, a batch takes the focus, once. */
  ghost predicate Taken(sent: seq<Raise>, from: nat, id: nat, b: Batch, apps: set<int>, open: set<int>)
  {
    if b.pid in apps && b.pid in open
    then exists i :: from <= i < |sent| && IsFocusRaise(sent[i], id, b) &&
           forall k :: from <= k < |sent| && sent[k].id == id && !sent[k].quiet ==> k == i
    else NoFocusRaise(sent, from, id)
  }

  /** The sequence still holds its last batch back. */
  predicate Holds(m: Manager, id: nat)
  {
    m.active.Some? && m.active.value.id == id && m.active.value.focus.Some?
  }

  /** Either that batch is still held back, or it has taken the focus. */
  ghost predicate HeldOrTaken(m: Manager, from: nat, id: nat, b: Batch, apps: set<int>, open: set<int>)
  {
    if Holds(m, id)
    then m.active.value.focus == Some(b) && m.active.value.apps == apps && NoFocusRaise(m.sent, from, id)
    else Taken(m.sent, from, id, b, apps, open)
  }

  /** The quiet raises of a request that has been started, in one piece. */
  ghost predicate RaisedInTurn(r: Request, id: nat, sent: seq<Raise>, from: nat, open: set<int>)
  {
    exists at: nat :: RaisedAt(r, id, sent, from, open, at)
  }

  ghost predicate RaisedAt(r: Request, id: nat, sent: seq<Raise>, from: nat, open: set<int>, at: nat)
  {
    var ks := Sendable(r, open, |r.batches|);
    from <= at && at + |ks| <= |sent| && QuietRaises(r, id, sent[at..at + |ks|], ks) &&
    forall i :: from <= i < |sent| && sent[i].id == id && sent[i].quiet ==> at <= i < at + |ks|
  }

  /** What has become of a request that was started. */
  ghost predicate CarriedOut(r: Request, id: nat, m: Manager, from: nat, open: set<int>)
  {
    RaisedInTurn(r, id, m.sent, from, open) &&
    (r.focus.None? ==> !Holds(m, id) && NoFocusRaise(m.sent, from, id)) &&
    (r.focus.Some? ==> exists b :: TakesFocus(r, b) && HeldOrTaken(m, from, id, b, r.apps, open))
  }

  /** The sequence waits for all that was raised for it since, with its token. */
  ghost predicate Awaits(m: Manager, from: nat)
  {
    m.active.Some? ==>
      var a := m.active.value;
      forall i :: from <= i < |m.sent| && m.sent[i].id == a.id ==> Elements(m.sent[i].wids) <= a.pending && m.sent[i].token == a.token
  }

  // What further raises leave as it is.

  /** More raises, none of them with this id. */
  ghost predicate GrowsWithout(sent: seq<Raise>, sent': seq<Raise>, id: nat)
  {
    sent <= sent' && forall i :: |sent| <= i < |sent'| ==> sent'[i].id != id
  }

  lemma TakenStays(sent: seq<Raise>, sent': seq<Raise>, from: nat, id: nat, b: Batch, apps: set<int>, open: set<int>)
    requires Taken(sent, from, id, b, apps, open) && GrowsWithout(sent, sent', id)
    ensures Taken(sent', from, id, b, apps, open)
  {
    if b.pid in apps && b.pid in open {
      var i :| from <= i < |sent| && IsFocusRaise(sent[i], id, b) &&
        forall k :: from <= k < |sent| && sent[k].id == id && !sent[k].quiet ==> k == i;
      assert sent'[i] == sent[i];
    }
  }

  /** More raises, but no quiet one with this id. */
  lemma RaisedStays(r: Request, id: nat, sent: seq<Raise>, sent': seq<Raise>, from: nat, open: set<int>)
    requires RaisedInTurn(r, id, sent, from, open) && sent <= sent'
    requires forall i :: |sent| <= i < |sent'| && sent'[i].id == id ==> !sent'[i].quiet
    ensures RaisedInTurn(r, id, sent', from, open)
  {
    var at: nat :| RaisedAt(r, id, sent, from, open, at);
    var n := |Sendable(r, open, |r.batches|)|;
    assert sent'[at..at + n] == sent[at..at + n];
    assert RaisedAt(r, id, sent', from, open, at);
  }

  lemma CarriedOutStays(r: Request, id: nat, m: Manager, m': Manager, from: nat, open: set<int>)
    requires CarriedOut(r, id, m, from, open) && GrowsWithout(m.sent, m'.sent, id) && !Holds(m, id) && !Holds(m', id)
    ensures CarriedOut(r, id, m', from, open)
  {
    RaisedStays(r, id, m.sent, m'.sent, from, open);
    if r.focus.Some? {
      var b :| TakesFocus(r, b) && HeldOrTaken(m, from, id, b, r.apps, open);
      TakenStays(m.sent, m'.sent, from, id, b, r.apps, open);
    }
  }

  // Taking the focus.

  /** A batch that is due takes the focus where its app can be reached. */
  lemma FocusTaken(m: Manager, from: nat, b: Batch, apps: set<int>, open: set<int>)
    requires FocusDue(m) && from <= |m.sent| && HeldOrTaken(m, from, m.active.value.id, b, apps, open)
    ensures HeldOrTaken(ProcessActive(m, open), from, m.active.value.id, b, apps, open)
    ensures !Holds(ProcessActive(m, open), m.active.value.id)
  {
    var m1, id := ProcessActive(m, open), m.active.value.id;
    if b.pid in apps && b.pid in open {
      assert IsFocusRaise(m1.sent[|m.sent|], id, b);
    }
  }

  lemma FocusCarriedOut(r: Request, m: Manager, from: nat, open: set<int>)
    requires FocusDue(m) && from <= |m.sent| && CarriedOut(r, m.active.value.id, m, from, open)
    ensures CarriedOut(r, m.active.value.id, ProcessActive(m, open), from, open)
  {
    RaisedStays(r, m.active.value.id, m.sent, ProcessActive(m, open).sent, from, open);
    var b :| TakesFocus(r, b) && HeldOrTaken(m, from, m.active.value.id, b, r.apps, open);
    FocusTaken(m, from, b, r.apps, open);
  }

  // Starting a request.

  lemma {:induction false} BatchesSend(st: Starting, batches: seq<seq<WindowId>>, r: Request, open: set<int>, token: Token, id: nat, live: bool)
    ensures var st' := StartBatches(st, batches, r, open, token, id, live);
            st.sent <= st'.sent && forall i :: |st.sent| <= i < |st'.sent| ==> st'.sent[i].pid in open && st'.sent[i].token == token
  {
    if batches != [] {
      BatchesSend(st, batches[..|batches| - 1], r, open, token, id, live);
    }
  }

  lemma StartSends(m: Manager, r: Request, open: set<int>)
    requires Inv(m)
    ensures var t := Start(m, r, open);
            m.sent <= t.sent && forall i :: |m.sent| <= i < |t.sent| ==> t.sent[i].pid in open && t.sent[i].token == m.nextToken
  {
    BatchesSend(Starting({}, None, m.sent), r.batches, r, open, m.nextToken, m.nextId, m.nextToken !in m.cancelled);
  }

  lemma StartBegins(m: Manager, r: Request, open: set<int>) returns (st: Starting)
    requires Inv(m)
    ensures Begun(r, open, m.nextId, m.sent, |r.batches|, st)
    ensures var t, focus := Start(m, r, open), FocusBatch(r, st.focus);
            t.sent == st.sent && t.nextId == m.nextId + 1 &&
            t.active == if st.pending != {} || focus.Some?
                        then Some(Active(m.nextId, st.pending, focus, r.apps, m.nextToken, false)) else m.active
  {
    BatchesBegin(r, open, m.nextToken, m.nextId, m.sent, |r.batches|);
    assert r.batches[..|r.batches|] == r.batches;
    st := StartBatches(Starting({}, None, m.sent), r.batches, r, open, m.nextToken, m.nextId, true);
  }

  lemma BegunRaises(r: Request, open: set<int>, id: nat, sent: seq<Raise>, from: nat, st: Starting)
    requires Begun(r, open, id, sent, |r.batches|, st) && from <= |sent|
    requires forall i :: 0 <= i < |sent| ==> sent[i].id < id
    ensures RaisedInTurn(r, id, st.sent, from, open) && NoFocusRaise(st.sent, from, id)
    ensures forall i :: |sent| <= i < |st.sent| ==> st.sent[i].id == id
  {
    var ks, at := Sendable(r, open, |r.batches|), |sent|;
    assert st.sent[at..at + |ks|] == st.sent[at..];
    assert forall i :: at <= i < |st.sent| ==> st.sent[i] == st.sent[at..][i - at];
    assert RaisedAt(r, id, st.sent, from, open, at);
  }

  lemma StartCarriesOut(m: Manager, r: Request, from: nat, open: set<int>)
    requires Inv(m) && m.active.None? && from <= |m.sent|
    ensures CarriedOut(r, m.nextId, Start(m, r, open), from, open) && m.sent <= Start(m, r, open).sent
    ensures forall i :: |m.sent| <= i < |Start(m, r, open).sent| ==> Start(m, r, open).sent[i].id == m.nextId
    ensures Awaits(Start(m, r, open), from)
  {
    var st := StartBegins(m, r, open);
    BegunRaises(r, open, m.nextId, m.sent, from, st);
    StartSends(m, r, open);
    if r.focus.Some? {
      assert TakesFocus(r, FocusBatch(r, st.focus).value);
    }
  }

  // From a message taken in to the end of what it makes possible.

  /** How many requests have been started since. */
  function Started(m: Manager, x: Manager): int { x.nextId - m.nextId }

  /** Requests were started from the front of the queue. */
  predicate InTurn(m: Manager, x: Manager)
  {
    0 <= Started(m, x) <= |m.queue| && x.queue == m.queue[Started(m, x)..] &&
    (x.active.Some? && x.active.value.id < m.nextId ==> m.active.Some? && m.active.value.id == x.active.value.id)
  }

  /** What the messages sent since say by themselves. */
  ghost predicate SentSince(m: Manager, x: Manager, open: set<int>)
  {
    m.sent <= x.sent && x.cancelled == m.cancelled &&
    forall i :: |m.sent| <= i < |x.sent| ==>
      var r := x.sent[i];
      r.pid in open && r.token !in m.cancelled && r.id < x.nextId &&
      (m.nextId <= r.id || (m.active.Some? && r.id == m.active.value.id && !r.quiet))
  }

  /** What has become of the sequence that was active. */
  ghost predicate ActiveGoesOn(m: Manager, x: Manager, open: set<int>)
  {
    m.active.Some? ==>
      var a := m.active.value;
      if a.focus.Some? then HeldOrTaken(x, |m.sent|, a.id, a.focus.value, a.apps, open)
      else !Holds(x, a.id) && NoFocusRaise(x.sent, |m.sent|, a.id)
  }

  /** What has become of the requests that were started. */
  ghost predicate RequestsGoOn(m: Manager, x: Manager, open: set<int>)
    requires InTurn(m, x)
  {
    forall j: nat :: j < Started(m, x) ==> CarriedOut(m.queue[j], m.nextId + j, x, |m.sent|, open)
  }

  ghost predicate Progress(m: Manager, x: Manager, open: set<int>)
  {
    InTurn(m, x) && SentSince(m, x, open) && Awaits(x, |m.sent|) && ActiveGoesOn(m, x, open) && RequestsGoOn(m, x, open)
  }

  lemma ProgressStarts(m: Manager, open: set<int>)
    ensures Progress(m, m, open)
  {
    assert m.queue[0..] == m.queue;
  }

  /** Only the active sequence is gone on with. */
  ghost predicate OthersAlone(x: Manager, x': Manager)
  {
    x.nextId <= x'.nextId &&
    forall id: nat :: id < x.nextId && (x.active.Some? ==> id != x.active.value.id) ==> GrowsWithout(x.sent, x'.sent, id) && !Holds(x', id)
  }

  lemma OtherRequestsRest(m: Manager, x: Manager, x': Manager, open: set<int>, j: nat)
    requires InTurn(m, x) && RequestsGoOn(m, x, open) && Inv(x) && OthersAlone(x, x')
    requires j < Started(m, x) && (x.active.Some? ==> m.nextId + j != x.active.value.id)
    ensures CarriedOut(m.queue[j], m.nextId + j, x', |m.sent|, open)
  {
    assert CarriedOut(m.queue[j], m.nextId + j, x, |m.sent|, open);
    CarriedOutStays(m.queue[j], m.nextId + j, x, x', |m.sent|, open);
  }

  lemma OtherActiveRests(m: Manager, x: Manager, x': Manager, open: set<int>)
    requires InTurn(m, x) && ActiveGoesOn(m, x, open) && Inv(m) && Inv(x) && OthersAlone(x, x')
    requires m.active.Some? && x.active.Some? ==> m.active.value.id != x.active.value.id
    ensures ActiveGoesOn(m, x', open)
  {
    if m.active.Some? {
      var a := m.active.value;
      assert GrowsWithout(x.sent, x'.sent, a.id);
      if a.focus.Some? {
        TakenStays(x.sent, x'.sent, |m.sent|, a.id, a.focus.value, a.apps, open);
      }
    }
  }

  lemma ActiveProgresses(m: Manager, x: Manager, open: set<int>)
    requires Progress(m, x, open) && Inv(m) && Inv(x)
    ensures Progress(m, ProcessActive(x, open), open)
  {
    if FocusDue(x) {
      DueSends(m, x, open);
      DueGoesOn(m, x, open);
      DueAwaits(x, |m.sent|, open);
    } else if Done(x) {
      DoneProgresses(m, x, open);
    }
  }

  lemma DueGoesOn(m: Manager, x: Manager, open: set<int>)
    requires Progress(m, x, open) && Inv(m) && Inv(x) && FocusDue(x) && InTurn(m, ProcessActive(x, open))
    ensures ActiveGoesOn(m, ProcessActive(x, open), open) && RequestsGoOn(m, ProcessActive(x, open), open)
  {
    var x' := ProcessActive(x, open);
    if m.active.Some? && m.active.value.id == x.active.value.id {
      DueActive(m, x, open);
    } else {
      OtherActiveRests(m, x, x', open);
    }
    forall j: nat | j < Started(m, x') ensures CarriedOut(m.queue[j], m.nextId + j, x', |m.sent|, open) {
      if m.nextId + j == x.active.value.id {
        DueRequests(m, x, open);
      } else {
        OtherRequestsRest(m, x, x', open, j);
      }
    }
  }

  lemma DueSends(m: Manager, x: Manager, open: set<int>)
    requires InTurn(m, x) && SentSince(m, x, open) && Inv(x) && FocusDue(x)
    ensures InTurn(m, ProcessActive(x, open)) && SentSince(m, ProcessActive(x, open), open)
  {
  }

  lemma DueActive(m: Manager, x: Manager, open: set<int>)
    requires Progress(m, x, open) && FocusDue(x) && m.active.Some? && m.active.value.id == x.active.value.id
    ensures ActiveGoesOn(m, ProcessActive(x, open), open)
  {
    FocusTaken(x, |m.sent|, m.active.value.focus.value, m.active.value.apps, open);
  }

  lemma DueRequests(m: Manager, x: Manager, open: set<int>)
    requires Progress(m, x, open) && Inv(x) && FocusDue(x) && m.nextId <= x.active.value.id
    ensures var id := x.active.value.id; CarriedOut(m.queue[id - m.nextId], id, ProcessActive(x, open), |m.sent|, open)
  {
    var id := x.active.value.id;
    assert CarriedOut(m.queue[id - m.nextId], id, x, |m.sent|, open);
    FocusCarriedOut(m.queue[id - m.nextId], x, |m.sent|, open);
  }

  lemma DueAwaits(x: Manager, from: nat, open: set<int>)
    requires Inv(x) && FocusDue(x) && Awaits(x, from)
    ensures Awaits(ProcessActive(x, open), from)
  {
  }

  lemma DoneProgresses(m: Manager, x: Manager, open: set<int>)
    requires Progress(m, x, open) && Inv(m) && Inv(x) && Done(x)
    ensures Progress(m, x.(active := None), open)
  {
    var x' := x.(active := None);
    forall j: nat | j < Started(m, x) ensures CarriedOut(m.queue[j], m.nextId + j, x', |m.sent|, open) {
      assert CarriedOut(m.queue[j], m.nextId + j, x, |m.sent|, open);
      CarriedOutStays(m.queue[j], m.nextId + j, x, x', |m.sent|, open);
    }
  }

  lemma QueuedProgresses(m: Manager, x: Manager, open: set<int>)
    requires Progress(m, x, open) && Inv(m) && Inv(x) && x.active.None? && x.queue != []
    ensures Progress(m, ProcessQueued(x, open), open)
  {
    var x0, r := x.(queue := x.queue[1..]), x.queue[0];
    var x' := Start(x0, r, open);
    var n := Started(m, x);
    assert r == m.queue[n] && x'.queue == m.queue[n + 1..];
    StartCarriesOut(x0, r, |m.sent|, open);
    OtherActiveRests(m, x, x', open);
    QueuedRequests(m, x, open);
    QueuedSends(m, x, open);
  }

  lemma QueuedRequests(m: Manager, x: Manager, open: set<int>)
    requires Progress(m, x, open) && Inv(x) && x.active.None? && x.queue != [] && InTurn(m, ProcessQueued(x, open))
    ensures RequestsGoOn(m, ProcessQueued(x, open), open)
  {
    var x0, r := x.(queue := x.queue[1..]), x.queue[0];
    var x', n := Start(x0, r, open), Started(m, x);
    assert r == m.queue[n];
    StartCarriesOut(x0, r, |m.sent|, open);
    forall j: nat | j < Started(m, x') ensures CarriedOut(m.queue[j], m.nextId + j, x', |m.sent|, open) {
      if j < n {
        OtherRequestsRest(m, x, x', open, j);
      }
    }
  }

  lemma QueuedSends(m: Manager, x: Manager, open: set<int>)
    requires InTurn(m, x) && SentSince(m, x, open) && Inv(x) && x.active.None? && x.queue != []
    ensures SentSince(m, ProcessQueued(x, open), open)
  {
    var x0, r := x.(queue := x.queue[1..]), x.queue[0];
    StartCarriesOut(x0, r, |x.sent|, open);
    StartSends(x0, r, open);
    var x' := Start(x0, r, open);
    forall i | |m.sent| <= i < |x'.sent| ensures i < |x.sent| ==> x'.sent[i] == x.sent[i] {
    }
  }

  lemma {:induction false} SettleProgresses(m: Manager, x: Manager, open: set<int>)
    requires Progress(m, x, open) && Inv(m) && Inv(x)
    ensures Progress(m, Settle(x, open), open)
    decreases |x.queue|, Stage(x)
  {
    if !Settled(x) {
      RoundGoesOn(m, x, open);
      SettleProgresses(m, Round(x, open), open);
    }
  }

  lemma RoundGoesOn(m: Manager, x: Manager, open: set<int>)
    requires Progress(m, x, open) && Inv(m) && Inv(x)
    ensures Inv(Round(x, open)) && Progress(m, Round(x, open), open)
  {
    RoundKeeps(x, open);
    ActiveProgresses(m, x, open);
    ActiveKeeps(x, open);
    var x1 := ProcessActive(x, open);
    if x1.active.None? && x1.queue != [] {
      QueuedProgresses(m, x1, open);
    }
  }

  lemma ActiveKeeps(m: Manager, open: set<int>)
    requires Inv(m)
    ensures Inv(ProcessActive(m, open))
  {
    if FocusDue(m) {
      SendFocusKeeps(m, open);
    }
  }

  // What a message leads to.

  lemma HandleProgresses(m: Manager, e: Event, open: set<int>)
    requires Inv(m)
    ensures Inv(Receive(m, e)) && Progress(Receive(m, e), Handle(m, e, open), open)
  {
    ReceiveKeeps(m, e);
    ProgressStarts(Receive(m, e), open);
    SettleProgresses(Receive(m, e), Receive(m, e), open);
  }

  /** When a sequence no longer holds its last batch back, that batch has been
      raised, once, with its windows in their order, and so taken the focus,
      unless its app cannot be reached. Until then nothing takes the focus for it. */
  lemma HeldIsRaised(m: Manager, e: Event, open: set<int>)
    requires Inv(m) && m.active.Some? && m.active.value.focus.Some?
    ensures var a, t := m.active.value, Handle(m, e, open);
            m.sent <= t.sent && HeldOrTaken(t, |m.sent|, a.id, a.focus.value, a.apps, open)
  {
    HandleProgresses(m, e, open);
  }

  /** Just the windows a message answers for are waited for no longer. As long
      as others are left nothing else happens; when none is left the sequence
      goes on: the focus is taken, or after that, it is over. */
  lemma AnswersCount(m: Manager, e: Event, open: set<int>)
    requires Inv(m) && Settled(m) && m.active.Some?
    ensures var a, t := m.active.value, Handle(m, e, open);
            var left := set w | w in a.pending && !Answers(e, a.id, w);
            if left != {} then t == m.(active := Some(a.(pending := left)), queue := t.queue)
            else !Holds(t, a.id) && (a.focus.None? ==> t.active.Some? ==> t.active.value.id != a.id)
  {
    var a, m1 := m.active.value, Receive(m, e);
    var left := set w | w in a.pending && !Answers(e, a.id, w);
    LeftPending(m, e);
    if left == {} {
      ReceiveKeeps(m, e);
      LifeEnds(m1, open);
    }
  }

  lemma LeftPending(m: Manager, e: Event)
    requires m.active.Some?
    ensures var a, m1 := m.active.value, Receive(m, e);
            var left := set w | w in a.pending && !Answers(e, a.id, w);
            m1.active.Some? && m1.active.value.id == a.id && m1.active.value.pending == left && m1.active.value.focus == a.focus &&
            (left != {} ==> m1 == m.(active := Some(a.(pending := left)), queue := m1.queue))
  {
    var a, m1 := m.active.value, Receive(m, e);
    var left := set w | w in a.pending && !Answers(e, a.id, w);
    assert m1.active.value.pending == left;
  }

  /** Where nothing is waited for, settling goes on to the next stage. */
  lemma LifeEnds(m: Manager, open: set<int>)
    requires Inv(m) && m.active.Some? && m.active.value.pending == {}
    ensures var t := Settle(m, open);
            t.active.Some? && t.active.value.id == m.active.value.id ==> m.active.value.focus.Some? && t.active.value.focus.None?
  {
    SettleShortensLife(m, open, m.active.value.id);
  }

  /** The tokens of the raises sent for the active sequence are its own, or cancelled. */
  ghost predicate Cancellable(m: Manager)
  {
    m.active.Some? ==>
      forall i :: 0 <= i < |m.sent| && m.sent[i].id == m.active.value.id ==>
        m.sent[i].token == m.active.value.token || m.sent[i].token in m.cancelled
  }

  /** A timeout cancels all that was raised for its sequence so far, and no
      other message cancels anything. What is sent then has a live token. */
  lemma TimeoutCancels(m: Manager, e: Event, open: set<int>)
    requires Inv(m) && Cancellable(m)
    ensures var t := Handle(m, e, open);
            Cancellable(t) && m.sent <= t.sent &&
            (forall i :: |m.sent| <= i < |t.sent| ==> t.sent[i].token !in t.cancelled && t.sent[i].pid in open) &&
            if m.active.Some? && e == RaiseTimeout(m.active.value.id)
            then t.cancelled == m.cancelled + {m.active.value.token} &&
                 forall i :: 0 <= i < |m.sent| && m.sent[i].id == m.active.value.id ==> m.sent[i].token in t.cancelled
            else t.cancelled == m.cancelled
  {
    HandleProgresses(m, e, open);
    HandleKeeps(m, e, open);
    var t, m1 := Handle(m, e, open), Receive(m, e);
    forall i | 0 <= i < |t.sent| && t.active.Some? && t.sent[i].id == t.active.value.id
      ensures t.sent[i].token == t.active.value.token || t.sent[i].token in t.cancelled
    {
      if i < |m.sent| {
        assert t.sent[i] == m.sent[i];
        SameToken(m1, open);
      }
    }
  }

  /** Nothing but a timeout changes a sequence's token. */
  lemma {:induction false} SameToken(m: Manager, open: set<int>)
    requires Inv(m)
    ensures var t := Settle(m, open);
            m.nextId <= t.nextId &&
            (t.active.Some? && t.active.value.id < m.nextId ==>
               m.active.Some? && t.active.value.id == m.active.value.id && t.active.value.token == m.active.value.token)
    decreases |m.queue|, Stage(m)
  {
    if !Settled(m) {
      RoundKeeps(m, open);
      SameToken(Round(m, open), open);
    }
  }

  // Requests on a run.

  /** The request a message brings in, if any: not one that asks for the same as
      the last one waiting. */
  function Fresh(m: Manager, e: Event): seq<Request>
  {
    match e
    case RaiseRequest(r) =>
      if m.queue != [] && m.queue[|m.queue| - 1].batches == r.batches && m.queue[|m.queue| - 1].focus == r.focus then [] else [r]
    case _ => []
  }

  lemma ReceiveQueues(m: Manager, e: Event)
    ensures var m1 := Receive(m, e);
            m1.queue == m.queue + Fresh(m, e) && m1.nextId == m.nextId && m1.sent == m.sent
  {
  }

  lemma TurnTaken(m: Manager, e: Event, open: set<int>)
    requires Inv(m)
    ensures var q, t := m.queue + Fresh(m, e), Handle(m, e, open);
            0 <= t.nextId - m.nextId <= |q| && t.queue == q[t.nextId - m.nextId..]
  {
    ReceiveQueues(m, e);
    HandleProgresses(m, e, open);
  }

  lemma StartedIn(m: Manager, e: Event, open: set<int>, id: nat)
    requires Inv(m) && m.nextId <= id < Handle(m, e, open).nextId
    ensures id - m.nextId < |m.queue + Fresh(m, e)|
    ensures CarriedOut((m.queue + Fresh(m, e))[id - m.nextId], id, Handle(m, e, open), |m.sent|, open)
  {
    ReceiveQueues(m, e);
    HandleProgresses(m, e, open);
    var m1 := Receive(m, e);
    assert CarriedOut(m1.queue[id - m1.nextId], id, Handle(m, e, open), |m.sent|, open);
  }

  /** The requests brought in by the first `n` messages. */
  function Accepted(ms: seq<Manager>, es: seq<Event>, n: nat): seq<Request>
    requires n <= |es| < |ms|
  {
    if n == 0 then [] else Accepted(ms, es, n - 1) + Fresh(ms[n - 1], es[n - 1])
  }

  /** Requests are carried out in the order they came, none twice and none left
      out: the sequences so far are for the first ones, and the others wait. */
  lemma {:induction false} RequestsInOrder(ms: seq<Manager>, es: seq<Event>, opens: seq<set<int>>, n: nat)
    requires Run(ms, es, opens) && ms[0] == Init() && n <= |es|
    ensures Inv(ms[n]) && 1 <= ms[n].nextId && ms[n].nextId - 1 + |ms[n].queue| == |Accepted(ms, es, n)|
    ensures ms[n].queue == Accepted(ms, es, n)[ms[n].nextId - 1..]
  {
    RaisesInOrder(ms, es, opens, n);
    if n > 0 {
      RequestsInOrder(ms, es, opens, n - 1);
      var m := ms[n - 1];
      TurnTaken(m, es[n - 1], opens[n - 1]);
      QueueAdvances(Accepted(ms, es, n - 1), m.queue, Fresh(m, es[n - 1]), ms[n].queue, m.nextId - 1, ms[n].nextId - m.nextId);
    }
  }

  lemma QueueAdvances<T>(all: seq<T>, queue: seq<T>, more: seq<T>, queue': seq<T>, gone: nat, taken: nat)
    requires gone <= |all| && queue == all[gone..] && taken <= |queue + more| && queue' == (queue + more)[taken..]
    ensures gone + taken <= |all + more| && queue' == (all + more)[gone + taken..]
  {
  }

  lemma StartedFor(ms: seq<Manager>, es: seq<Event>, opens: seq<set<int>>, n: nat, id: nat)
    requires Run(ms, es, opens) && ms[0] == Init() && n < |es| && ms[n].nextId <= id < ms[n + 1].nextId
    ensures 1 <= id <= |Accepted(ms, es, n + 1)|
    ensures CarriedOut(Accepted(ms, es, n + 1)[id - 1], id, ms[n + 1], |ms[n].sent|, opens[n])
  {
    RequestsInOrder(ms, es, opens, n);
    StartedIn(ms[n], es[n], opens[n], id);
    var before, more := Accepted(ms, es, n), Fresh(ms[n], es[n]);
    assert (ms[n].queue + more)[id - ms[n].nextId] == (before + more)[id - 1];
  }

  lemma StillHolds(m: Manager, e: Event, open: set<int>, id: nat)
    requires Inv(m) && Holds(Handle(m, e, open), id) && id < m.nextId
    ensures Holds(m, id) && m.active.value.focus == Handle(m, e, open).active.value.focus
    ensures m.active.value.apps == Handle(m, e, open).active.value.apps
  {
    HandleProgresses(m, e, open);
  }

  /** What a sequence holds back is what takes the focus for its request. */
  lemma {:induction false} HoldsItsOwn(ms: seq<Manager>, es: seq<Event>, opens: seq<set<int>>, n: nat, id: nat)
    requires Run(ms, es, opens) && ms[0] == Init() && n <= |es| && Holds(ms[n], id)
    ensures 1 <= id <= |Accepted(ms, es, n)|
    ensures var r, a := Accepted(ms, es, n)[id - 1], ms[n].active.value; TakesFocus(r, a.focus.value) && a.apps == r.apps
  {
    if n > 0 {
      RaisesInOrder(ms, es, opens, n - 1);
      RaisesInOrder(ms, es, opens, n);
      if ms[n - 1].nextId <= id {
        StartedFor(ms, es, opens, n - 1, id);
      } else {
        StillHolds(ms[n - 1], es[n - 1], opens[n - 1], id);
        HoldsItsOwn(ms, es, opens, n - 1, id);
      }
    }
  }

  /** On every run: when the batch that is to take the focus for a request is no
      longer held back, or never was within one message, it has been raised, just
      once, unless its app cannot be reached. Nothing takes the focus for a
      request without a window to focus. */
  lemma FocusIsTaken(ms: seq<Manager>, es: seq<Event>, opens: seq<set<int>>, n: nat, id: nat)
    requires Run(ms, es, opens) && ms[0] == Init() && n < |es|
    requires Holds(ms[n], id) || ms[n].nextId <= id < ms[n + 1].nextId
    ensures 1 <= id <= |Accepted(ms, es, n + 1)|
    ensures var r, t := Accepted(ms, es, n + 1)[id - 1], ms[n + 1];
            if r.focus.None? then !Holds(t, id) && NoFocusRaise(t.sent, |ms[n].sent|, id)
            else exists b :: TakesFocus(r, b) && HeldOrTaken(t, |ms[n].sent|, id, b, r.apps, opens[n])
  {
    RaisesInOrder(ms, es, opens, n);
    if ms[n].nextId <= id {
      StartedFor(ms, es, opens, n, id);
    } else {
      HoldsItsOwn(ms, es, opens, n, id);
      HeldIsRaised(ms[n], es[n], opens[n]);
    }
  }

  /** On every run: when a request is started, all its batches are raised whose
      apps can be reached, but for the one held back; in order, once each, and no
      others. The sequence then waits for them. */
  lemma BatchesAreRaised(ms: seq<Manager>, es: seq<Event>, opens: seq<set<int>>, n: nat, id: nat)
    requires Run(ms, es, opens) && ms[0] == Init() && n < |es| && ms[n].nextId <= id < ms[n + 1].nextId
    ensures 1 <= id <= |Accepted(ms, es, n + 1)|
    ensures RaisedInTurn(Accepted(ms, es, n + 1)[id - 1], id, ms[n + 1].sent, |ms[n].sent|, opens[n])
    ensures Awaits(ms[n + 1], |ms[n].sent|)
  {
    StartedFor(ms, es, opens, n, id);
    RaisesInOrder(ms, es, opens, n);
    HandleProgresses(ms[n], es[n], opens[n]);
  }

  // All that is ever raised.

  /** A raise is one of those its request asks for. */
  ghost predicate AskedFor(r: Request, x: Raise)
  {
    if x.quiet then exists k: nat :: RaisesQuietly(r, k, x)
    else exists b :: TakesFocus(r, b) && IsFocusRaise(x, x.id, b)
  }

  lemma CarriedOutAsks(r: Request, id: nat, m: Manager, from: nat, open: set<int>, i: nat)
    requires CarriedOut(r, id, m, from, open) && from <= i < |m.sent| && m.sent[i].id == id
    ensures AskedFor(r, m.sent[i])
  {
    if m.sent[i].quiet {
      var at: nat :| RaisedAt(r, id, m.sent, from, open, at);
      var ks := Sendable(r, open, |r.batches|);
      assert m.sent[i] == m.sent[at..at + |ks|][i - at];
      assert RaisesQuietly(r, ks[i - at], m.sent[i]);
    } else {
      var b :| TakesFocus(r, b) && HeldOrTaken(m, from, id, b, r.apps, open);
      assert IsFocusRaise(m.sent[i], id, b);
    }
  }

  lemma FocusAsks(m: Manager, e: Event, open: set<int>, r: Request, i: nat)
    requires Inv(m) && m.active.Some? && (m.active.value.focus.Some? ==> TakesFocus(r, m.active.value.focus.value))
    requires |m.sent| <= i < |Handle(m, e, open).sent| && Handle(m, e, open).sent[i].id < m.nextId
    ensures AskedFor(r, Handle(m, e, open).sent[i]) && Handle(m, e, open).sent[i].id == m.active.value.id && m.active.value.focus.Some?
  {
    HandleProgresses(m, e, open);
    var x, a := Handle(m, e, open).sent[i], m.active.value;
    assert x.id == a.id && !x.quiet;
    assert IsFocusRaise(x, x.id, a.focus.value);
  }

  /** On every run each raise is one that its request asks for, and the request
      of sequence `id` is the one that came in at that place. */
  lemma {:induction false} EveryRaiseIsAskedFor(ms: seq<Manager>, es: seq<Event>, opens: seq<set<int>>, n: nat, i: nat)
    requires Run(ms, es, opens) && ms[0] == Init() && n <= |es| && i < |ms[n].sent|
    ensures 1 <= ms[n].sent[i].id <= |Accepted(ms, es, n)|
    ensures AskedFor(Accepted(ms, es, n)[ms[n].sent[i].id - 1], ms[n].sent[i])
  {
    RaisesInOrder(ms, es, opens, n - 1);
    SentGrows(ms[n - 1], es[n - 1], opens[n - 1], i);
    if i < |ms[n - 1].sent| {
      EveryRaiseIsAskedFor(ms, es, opens, n - 1, i);
      assert ms[n].sent[i] == ms[n - 1].sent[i];
    } else {
      NewRaiseIsAskedFor(ms, es, opens, n - 1, i);
    }
  }

  lemma NewRaiseIsAskedFor(ms: seq<Manager>, es: seq<Event>, opens: seq<set<int>>, n: nat, i: nat)
    requires Run(ms, es, opens) && ms[0] == Init() && n < |es| && |ms[n].sent| <= i < |ms[n + 1].sent|
    ensures 1 <= ms[n + 1].sent[i].id <= |Accepted(ms, es, n + 1)|
    ensures AskedFor(Accepted(ms, es, n + 1)[ms[n + 1].sent[i].id - 1], ms[n + 1].sent[i])
  {
    RaisesInOrder(ms, es, opens, n);
    SentGrows(ms[n], es[n], opens[n], i);
    var id := ms[n + 1].sent[i].id;
    if ms[n].nextId <= id {
      StartedFor(ms, es, opens, n, id);
      CarriedOutAsks(Accepted(ms, es, n + 1)[id - 1], id, ms[n + 1], |ms[n].sent|, opens[n], i);
    } else {
      HoldsItsOwn(ms, es, opens, n, id);
      FocusAsks(ms[n], es[n], opens[n], Accepted(ms, es, n)[id - 1], i);
    }
  }

  lemma SentGrows(m: Manager, e: Event, open: set<int>, i: nat)
    requires Inv(m) && i < |Handle(m, e, open).sent|
    ensures var t := Handle(m, e, open);
            m.sent <= t.sent && t.sent[i].id < t.nextId &&
            (i >= |m.sent| ==> m.nextId <= t.sent[i].id || (m.active.Some? && t.sent[i].id == m.active.value.id && Holds(m, t.sent[i].id)))
  {
    HandleProgresses(m, e, open);
    HandleKeeps(m, e, open);
  }
}
