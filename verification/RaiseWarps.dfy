/** Where the raise manager sends the mouse (`src/actor/raise.rs`). */
module RaiseWarps {
  import opened Options
  import opened Windows
  import opened RaiseSequences
  import opened RaiseDelivery

  /** The app of the batch that takes the focus. */
  ghost function Owner(r: Request): int
    requires r.focus.Some?
  {
    if k: nat :| HeldAt(r, k) then r.batches[k][0].pid else r.focus.value.0.pid
  }

  lemma OwnerIs(r: Request, b: Batch)
    requires TakesFocus(r, b)
    ensures b.pid == Owner(r)
  {
    if k: nat :| HeldAt(r, k) && b.pid == r.batches[k][0].pid {
      forall j: nat | HeldAt(r, j) ensures j == k {
      }
    }
  }

  function WarpOf(warp: Option<Point>, known: bool): seq<Point>
  {
    if known && warp.Some? then [warp.value] else []
  }

  /** The places the mouse is sent to for some requests. */
  ghost function WarpsFor(rs: seq<Request>): seq<Point>
  {
    if rs == [] then []
    else
      var r := rs[|rs| - 1];
      WarpsFor(rs[..|rs| - 1]) + if r.focus.Some? then WarpOf(r.focus.value.1, Owner(r) in r.apps) else []
  }

  /** How many of the requests started since are no longer held back. */
  function Released(m: Manager, x: Manager): int
  {
    Started(m, x) - if x.active.Some? && m.nextId <= x.active.value.id && x.active.value.focus.Some? then 1 else 0
  }

  /** Where the mouse is sent for the sequence that was active, once it is not held back. */
  function ActiveWarp(m: Manager, x: Manager): seq<Point>
  {
    if m.active.Some? && m.active.value.focus.Some? && !Holds(x, m.active.value.id)
    then WarpOf(m.active.value.focus.value.warp, m.active.value.focus.value.pid in m.active.value.apps) else []
  }

  ghost predicate Warped(m: Manager, x: Manager)
  {
    0 <= Released(m, x) <= |m.queue| && x.warps == m.warps + ActiveWarp(m, x) + WarpsFor(m.queue[..Released(m, x)])
  }

  lemma Appended<T>(a: seq<T>, b: seq<T>, c: seq<T>, d: seq<T>)
    ensures (a + b + c) + d == a + b + (c + d)
  {
  }

  lemma WarpsMore(rs: seq<Request>, n: nat)
    requires n < |rs|
    ensures WarpsFor(rs[..n + 1]) ==
            WarpsFor(rs[..n]) + if rs[n].focus.Some? then WarpOf(rs[n].focus.value.1, Owner(rs[n]) in rs[n].apps) else []
  {
    assert rs[..n + 1][..n] == rs[..n];
  }

  lemma ActiveWarps(m: Manager, x: Manager, open: set<int>)
    requires Progress(m, x, open) && Inv(m) && Inv(x) && Warped(m, x)
    ensures Warped(m, ProcessActive(x, open))
  {
    if FocusDue(x) {
      if m.nextId <= x.active.value.id {
        NewIsFor(m, x, open);
        NewWarps(m, x, open);
      } else {
        OldWarps(m, x, open);
      }
    }
  }

  lemma NewIsFor(m: Manager, x: Manager, open: set<int>)
    requires Progress(m, x, open) && Inv(x) && FocusDue(x) && m.nextId <= x.active.value.id
    ensures x.active.value.id == x.nextId - 1
    ensures TakesFocus(m.queue[Started(m, x) - 1], x.active.value.focus.value) && x.active.value.apps == m.queue[Started(m, x) - 1].apps
  {
    var id := x.active.value.id;
    assert CarriedOut(m.queue[id - m.nextId], id, x, |m.sent|, open);
  }

  lemma NewWarps(m: Manager, x: Manager, open: set<int>)
    requires InTurn(m, x) && Warped(m, x) && FocusDue(x) && m.nextId <= x.active.value.id == x.nextId - 1
    requires m.active.Some? ==> m.active.value.id < m.nextId
    requires TakesFocus(m.queue[Started(m, x) - 1], x.active.value.focus.value) && x.active.value.apps == m.queue[Started(m, x) - 1].apps
    ensures Warped(m, ProcessActive(x, open))
  {
    var n, x', b := Started(m, x) - 1, ProcessActive(x, open), x.active.value.focus.value;
    OwnerIs(m.queue[n], b);
    WarpsMore(m.queue, n);
    var warp := WarpOf(b.warp, b.pid in x.active.value.apps);
    assert x'.warps == x.warps + warp;
    Appended(m.warps, ActiveWarp(m, x), WarpsFor(m.queue[..n]), warp);
    assert Released(m, x) == n && Released(m, x') == n + 1 && ActiveWarp(m, x') == ActiveWarp(m, x);
  }

  lemma OldWarps(m: Manager, x: Manager, open: set<int>)
    requires InTurn(m, x) && ActiveGoesOn(m, x, open) && Warped(m, x) && Inv(x) && FocusDue(x) && x.active.value.id < m.nextId
    ensures Warped(m, ProcessActive(x, open))
  {
    assert m.queue[..0] == [];
  }

  lemma QueuedWarps(m: Manager, x: Manager, open: set<int>)
    requires InTurn(m, x) && Warped(m, x) && Inv(m) && Inv(x) && x.active.None? && x.queue != []
    ensures Warped(m, ProcessQueued(x, open))
  {
    var x0, r, n := x.(queue := x.queue[1..]), x.queue[0], Started(m, x);
    assert r == m.queue[n];
    var st := StartBegins(x0, r, open);
    WarpsMore(m.queue, n);
    var x' := Start(x0, r, open);
    assert Released(m, x) == n && ActiveWarp(m, x') == ActiveWarp(m, x) && x'.warps == x.warps;
    Appended(m.warps, ActiveWarp(m, x), WarpsFor(m.queue[..n]), []);
  }

  lemma RoundWarps(m: Manager, x: Manager, open: set<int>)
    requires Progress(m, x, open) && Inv(m) && Inv(x) && Warped(m, x)
    ensures Warped(m, Round(x, open))
  {
    ActiveProgresses(m, x, open);
    ActiveKeeps(x, open);
    ActiveWarps(m, x, open);
    var x1 := ProcessActive(x, open);
    if x1.active.None? && x1.queue != [] {
      QueuedWarps(m, x1, open);
    }
  }

  lemma {:induction false} SettleWarps(m: Manager, x: Manager, open: set<int>)
    requires Progress(m, x, open) && Inv(m) && Inv(x) && Warped(m, x)
    ensures Warped(m, Settle(x, open))
    decreases |x.queue|, Stage(x)
  {
    if !Settled(x) {
      RoundGoesOn(m, x, open);
      RoundWarps(m, x, open);
      SettleWarps(m, Round(x, open), open);
    }
  }

  /** The mouse is sent where a batch that is released, by itself or in its turn
      within the message, asks for it, if its app is known; in order, and nowhere else. */
  lemma MouseFollows(m: Manager, e: Event, open: set<int>)
    requires Inv(m)
    ensures var t, q := Handle(m, e, open), m.queue + Fresh(m, e);
            var n := Released(m, t);
            0 <= n <= |q| && t.warps == m.warps + ActiveWarp(m, t) + WarpsFor(q[..n])
  {
    ReceiveQueues(m, e);
    ReceiveKeeps(m, e);
    var m1 := Receive(m, e);
    ProgressStarts(m1, open);
    assert m1.queue[..0] == [];
    SettleWarps(m1, m1, open);
    assert ActiveWarp(m1, Handle(m, e, open)) == ActiveWarp(m, Handle(m, e, open));
  }
}
