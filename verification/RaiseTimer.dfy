/** The raise manager together with its timer and the reactor, which relays the
    timer's messages back to it (`src/actor/raise.rs`, `src/actor/reactor.rs`).

    Messages travel through two queues, from the manager's timer and the apps to
    the reactor, and from the reactor to the manager. */
module RaiseTimer {
  import opened Options
  import opened RaiseSequences

  datatype System = System(manager: Manager, toReactor: seq<Event>, toManager: seq<Event>)

  datatype Action =
    | Ask(request: Request)       // the reactor wants windows raised
    | Report(event: Event)        // an app reports on a raise
    | TimerFires
    | Relay                       // the reactor passes on its oldest message
    | Deliver(open: set<int>)     // the manager handles its oldest message

  function Step(s: System, action: Action): System
  {
    match action
    case Ask(request) => s.(toManager := s.toManager + [RaiseRequest(request)])
    case Report(e) =>
      if e.RaiseCompleted? || e.RaiseRequestFailed? then s.(toReactor := s.toReactor + [e]) else s
    case TimerFires =>
      if s.manager.active.Some? && !s.manager.active.value.timedOut
      then s.(manager := s.manager.(active := Some(s.manager.active.value.(timedOut := true))),
              toReactor := s.toReactor + [RaiseTimeout(s.manager.active.value.id)])
      else s
    case Relay =>
      if s.toReactor != [] then s.(toReactor := s.toReactor[1..], toManager := s.toManager + [s.toReactor[0]]) else s
    case Deliver(open) =>
      if s.toManager != [] then s.(manager := Handle(s.manager, s.toManager[0], open), toManager := s.toManager[1..]) else s
  }

  function Perform(s: System, actions: seq<Action>): System
    decreases |actions|
  {
    if actions == [] then s else Perform(Step(s, actions[0]), actions[1..])
  }

  function Start(): System { System(Init(), [], []) }

  /** How many timeouts of sequence `id` are under way. */
  function Timeouts(events: seq<Event>, id: nat): nat
  {
    if events == [] then 0 else (if events[0] == RaiseTimeout(id) then 1 else 0) + Timeouts(events[1..], id)
  }

  function InFlight(s: System, id: nat): nat
  {
    Timeouts(s.toReactor, id) + Timeouts(s.toManager, id)
  }

  /** The active sequence is marked as timed out exactly when one timeout of it
      is under way; no other sequence has more than one, and none to come has any. */
  ghost predicate Coherent(s: System)
  {
    && Inv(s.manager) && Settled(s.manager)
    && (s.manager.active.Some? ==> InFlight(s, s.manager.active.value.id) == if s.manager.active.value.timedOut then 1 else 0)
    && (forall id: nat :: InFlight(s, id) <= if id < s.manager.nextId then 1 else 0)
  }

  lemma {:induction false} TimeoutsAppend(events: seq<Event>, e: Event, id: nat)
    ensures Timeouts(events + [e], id) == Timeouts(events, id) + (if e == RaiseTimeout(id) then 1 else 0)
  {
    if events != [] {
      TimeoutsAppend(events[1..], e, id);
      assert (events + [e])[1..] == events[1..] + [e];
    } else {
      assert Timeouts([e][1..], id) == 0;
    }
  }

  /** Processing leaves the mark of the active sequence alone, and a new
      sequence starts without it. */
  lemma {:induction false} SettleKeepsMark(m: Manager, open: set<int>)
    requires Inv(m)
    ensures var r := Settle(m, open);
            m.nextId <= r.nextId &&
            (r.active.Some? ==>
               if m.active.Some? && r.active.value.id == m.active.value.id
               then r.active.value.timedOut == m.active.value.timedOut
               else m.nextId <= r.active.value.id && !r.active.value.timedOut)
    decreases |m.queue|, Stage(m)
  {
    if !Settled(m) {
      RoundKeeps(m, open);
      SettleKeepsMark(Round(m, open), open);
    }
  }

  /** What an action adds to the timeouts of `id` under way. */
  function Change(s: System, action: Action, id: nat): int
  {
    match action
    case TimerFires => if s.manager.active.Some? && !s.manager.active.value.timedOut && s.manager.active.value.id == id then 1 else 0
    case Deliver(_) => if s.toManager != [] && s.toManager[0] == RaiseTimeout(id) then -1 else 0
    case _ => 0
  }

  lemma StepInFlight(s: System, action: Action, id: nat)
    ensures InFlight(Step(s, action), id) == InFlight(s, id) + Change(s, action, id)
  {
    match action
    case Ask(request) => TimeoutsAppend(s.toManager, RaiseRequest(request), id);
    case Report(e) => TimeoutsAppend(s.toReactor, e, id);
    case TimerFires =>
      if s.manager.active.Some? {
        TimeoutsAppend(s.toReactor, RaiseTimeout(s.manager.active.value.id), id);
      }
    case Relay =>
      if s.toReactor != [] {
        TimeoutsAppend(s.toManager, s.toReactor[0], id);
      }
    case Deliver(_) =>
  }

  lemma ReceiveKeepsMark(m: Manager, e: Event)
    ensures var r := Receive(m, e);
            r.nextId == m.nextId && r.active.Some? == m.active.Some? &&
            (m.active.Some? ==>
               r.active.value.id == m.active.value.id &&
               r.active.value.timedOut == (m.active.value.timedOut && e != RaiseTimeout(m.active.value.id)))
  {
  }

  /** What delivering a message does to the active sequence. */
  lemma DeliverKeepsMark(m: Manager, e: Event, open: set<int>)
    requires Inv(m)
    ensures var r := Handle(m, e, open);
            Inv(r) && Settled(r) && m.nextId <= r.nextId &&
            (r.active.Some? ==>
               if m.active.Some? && r.active.value.id == m.active.value.id
               then r.active.value.timedOut == (m.active.value.timedOut && e != RaiseTimeout(m.active.value.id))
               else m.nextId <= r.active.value.id && !r.active.value.timedOut)
  {
    HandleKeeps(m, e, open);
    ReceiveKeeps(m, e);
    ReceiveKeepsMark(m, e);
    SettleKeepsMark(Receive(m, e), open);
  }

  lemma StepKeeps(s: System, action: Action)
    requires Coherent(s)
    ensures Coherent(Step(s, action))
  {
    forall id: nat
      ensures InFlight(Step(s, action), id) == InFlight(s, id) + Change(s, action, id)
    {
      StepInFlight(s, action, id);
    }
    if action.Deliver? && s.toManager != [] {
      DeliverKeepsMark(s.manager, s.toManager[0], action.open);
    }
  }

  lemma {:induction false} PerformKeeps(s: System, actions: seq<Action>)
    requires Coherent(s)
    ensures Coherent(Perform(s, actions))
    decreases |actions|
  {
    if actions != [] {
      StepKeeps(s, actions[0]);
      PerformKeeps(Step(s, actions[0]), actions[1..]);
    }
  }

  /** On every run of the three together the active sequence is marked as timed
      out exactly when one timeout with its id is under way. */
  lemma MarkMeansTimeoutUnderWay(actions: seq<Action>)
    ensures Coherent(Perform(Start(), actions))
  {
    PerformKeeps(Start(), actions);
  }

  // No app can block the manager.

  /** Nothing but the timer, the reactor and the manager takes part. */
  ghost predicate Unaided(actions: seq<Action>)
  {
    forall i :: 0 <= i < |actions| ==> actions[i].TimerFires? || actions[i].Relay? || actions[i].Deliver?
  }

  lemma {:induction false} PerformInTurn(s: System, a: seq<Action>, b: seq<Action>)
    ensures Perform(s, a + b) == Perform(Perform(s, a), b)
    decreases |a|
  {
    if a != [] {
      PerformInTurn(Step(s, a[0]), a[1..], b);
      assert (a + b)[1..] == a[1..] + b;
    } else {
      assert a + b == b;
    }
  }

  /** Handing on all that is under way shortens a sequence with a timeout under way. */
  lemma {:induction false} Flush(s: System, open: set<int>, id: nat) returns (actions: seq<Action>)
    requires Coherent(s) && id < s.manager.nextId
    ensures Unaided(actions)
    ensures var t := Perform(s, actions);
            Coherent(t) && id < t.manager.nextId && Life(t.manager, id) <= Life(s.manager, id) &&
            (0 < Life(s.manager, id) && 0 < InFlight(s, id) ==> Life(t.manager, id) < Life(s.manager, id))
    decreases 2 * |s.toReactor| + |s.toManager|
  {
    actions := [];
    if s.toReactor != [] || s.toManager != [] {
      var action := if s.toReactor != [] then Relay else Deliver(open);
      StepKeeps(s, action);
      StepInFlight(s, action, id);
      if action.Deliver? {
        HandleShortensLife(s.manager, s.toManager[0], open, id);
      }
      var rest := Flush(Step(s, action), open, id);
      actions := [action] + rest;
      assert actions[1..] == rest;
    }
  }

  /** The timer fires, and everything under way is handed on. */
  lemma TimeOutOnce(s: System, open: set<int>, id: nat) returns (actions: seq<Action>)
    requires Coherent(s) && id < s.manager.nextId
    ensures Unaided(actions)
    ensures var t := Perform(s, actions);
            Coherent(t) && id < t.manager.nextId && (0 < Life(s.manager, id) ==> Life(t.manager, id) < Life(s.manager, id)) &&
            Life(t.manager, id) <= Life(s.manager, id)
  {
    StepKeeps(s, TimerFires);
    StepInFlight(s, TimerFires, id);
    var rest := Flush(Step(s, TimerFires), open, id);
    actions := [TimerFires] + rest;
    assert actions[1..] == rest;
  }

  /** From every reachable state the active sequence can be retired by the
      timer, the reactor and the manager alone, whichever apps hang or are gone. */
  lemma NoAppBlocks(s: System, open: set<int>) returns (actions: seq<Action>)
    requires Coherent(s) && s.manager.active.Some?
    ensures Unaided(actions)
    ensures var t := Perform(s, actions).manager; t.active.Some? ==> t.active.value.id != s.manager.active.value.id
  {
    var id := s.manager.active.value.id;
    var first := TimeOutOnce(s, open, id);
    var second := TimeOutOnce(Perform(s, first), open, id);
    PerformInTurn(s, first, second);
    actions := first + second;
  }

  // No schedule of the three keeps a sequence for ever.

  function Relays(actions: seq<Action>): nat
  {
    if actions == [] then 0 else (if actions[0].Relay? then 1 else 0) + Relays(actions[1..])
  }

  function Deliveries(actions: seq<Action>): nat
  {
    if actions == [] then 0 else (if actions[0].Deliver? then 1 else 0) + Deliveries(actions[1..])
  }

  /** A timeout of the sequence is among the first `n` messages. */
  ghost predicate Among(events: seq<Event>, n: nat, id: nat)
  {
    exists p :: 0 <= p < |events| && p < n && events[p] == RaiseTimeout(id)
  }

  lemma {:induction false} TimeoutsAmong(events: seq<Event>, id: nat)
    ensures Timeouts(events, id) > 0 ==> Among(events, |events|, id)
  {
    if events != [] && Timeouts(events, id) > 0 {
      TimeoutsAmong(events[1..], id);
      if events[0] != RaiseTimeout(id) {
        var p :| 0 <= p < |events[1..]| && events[1..][p] == RaiseTimeout(id);
        assert events[p + 1] == RaiseTimeout(id);
      } else {
        assert Among(events, |events|, id);
      }
    }
  }

  lemma AmongAppend(events: seq<Event>, n: nat, id: nat, e: Event)
    requires Among(events, n, id)
    ensures Among(events + [e], n, id)
  {
    var p :| 0 <= p < |events| && p < n && events[p] == RaiseTimeout(id);
    assert (events + [e])[p] == RaiseTimeout(id);
  }

  lemma AmongRest(events: seq<Event>, n: nat, id: nat)
    requires Among(events, n, id) && events[0] != RaiseTimeout(id)
    ensures 0 < n && Among(events[1..], n - 1, id)
  {
    var p :| 0 <= p < |events| && p < n && events[p] == RaiseTimeout(id);
    assert events[1..][p - 1] == RaiseTimeout(id);
  }

  lemma StepLife(s: System, action: Action, id: nat)
    requires Coherent(s) && id < s.manager.nextId
    ensures id < Step(s, action).manager.nextId && Life(Step(s, action).manager, id) <= Life(s.manager, id)
  {
    if action.Deliver? && s.toManager != [] {
      HandleShortensLife(s.manager, s.toManager[0], action.open, id);
    }
  }

  lemma {:induction false} PerformLife(s: System, actions: seq<Action>, id: nat)
    requires Coherent(s) && id < s.manager.nextId
    ensures Coherent(Perform(s, actions)) && id < Perform(s, actions).manager.nextId
    ensures Life(Perform(s, actions).manager, id) <= Life(s.manager, id)
    decreases |actions|
  {
    if actions != [] {
      StepKeeps(s, actions[0]);
      StepLife(s, actions[0], id);
      PerformLife(Step(s, actions[0]), actions[1..], id);
    }
  }

  /** A sequence had `life` left, and has less now or has a timeout on its way to the manager. */
  ghost predicate Coming(s: System, n: nat, id: nat, life: nat)
  {
    Life(s.manager, id) < life || Among(s.toManager, n, id)
  }

  lemma ComingStep(s: System, action: Action, n: nat, id: nat, life: nat)
    requires Coherent(s) && id < s.manager.nextId && 0 < life && Life(s.manager, id) <= life && Coming(s, n, id, life)
    ensures if action.Deliver? && 0 < n then Coming(Step(s, action), n - 1, id, life) else Coming(Step(s, action), n, id, life)
  {
    StepLife(s, action, id);
    if Life(s.manager, id) == life {
      match action
      case Ask(request) => AmongAppend(s.toManager, n, id, RaiseRequest(request));
      case Relay =>
        if s.toReactor != [] {
          AmongAppend(s.toManager, n, id, s.toReactor[0]);
        }
      case Deliver(open) =>
        if s.toManager[0] == RaiseTimeout(id) {
          HandleShortensLife(s.manager, s.toManager[0], open, id);
        } else {
          AmongRest(s.toManager, n, id);
        }
      case _ =>
    }
  }

  /** Delivering all that is in front of a timeout, and the timeout, shortens its sequence. */
  lemma {:induction false} DeliveredShortens(s: System, actions: seq<Action>, n: nat, id: nat, life: nat)
    requires Coherent(s) && id < s.manager.nextId && 0 < life && Life(s.manager, id) <= life
    requires Coming(s, n, id, life) && n <= Deliveries(actions)
    ensures Life(Perform(s, actions).manager, id) < life
    decreases |actions|
  {
    if Life(s.manager, id) < life {
      PerformLife(s, actions, id);
    } else {
      ComingStep(s, actions[0], n, id, life);
      StepKeeps(s, actions[0]);
      StepLife(s, actions[0], id);
      DeliveredShortens(Step(s, actions[0]), actions[1..], if actions[0].Deliver? then n - 1 else n, id, life);
    }
  }

  /** The timeout is still on its way to the reactor, among the first `n` messages, or further on. */
  ghost predicate Leaving(s: System, n: nat, id: nat, life: nat)
  {
    Among(s.toReactor, n, id) || Coming(s, |s.toManager|, id, life)
  }

  lemma LeavingStep(s: System, action: Action, n: nat, id: nat, life: nat)
    requires Coherent(s) && id < s.manager.nextId && 0 < life && Life(s.manager, id) <= life && Leaving(s, n, id, life)
    ensures if action.Relay? && 0 < n then Leaving(Step(s, action), n - 1, id, life) else Leaving(Step(s, action), n, id, life)
  {
    var t := Step(s, action);
    if Coming(s, |s.toManager|, id, life) {
      ComingStep(s, action, |s.toManager|, id, life);
      assert Coming(t, |t.toManager|, id, life);
    } else {
      match action
      case Report(e) => AmongAppend(s.toReactor, n, id, e);
      case TimerFires =>
        if s.manager.active.Some? {
          AmongAppend(s.toReactor, n, id, RaiseTimeout(s.manager.active.value.id));
        }
      case Relay =>
        if s.toReactor[0] == RaiseTimeout(id) {
          assert t.toManager[|s.toManager|] == RaiseTimeout(id);
        } else {
          AmongRest(s.toReactor, n, id);
        }
      case _ =>
    }
  }

  /** Relaying all that is in front of a timeout, and the timeout, brings it on its way to the manager. */
  lemma {:induction false} RelayedIsComing(s: System, actions: seq<Action>, n: nat, id: nat, life: nat)
    requires Coherent(s) && id < s.manager.nextId && 0 < life && Life(s.manager, id) <= life
    requires Leaving(s, n, id, life) && n <= Relays(actions)
    ensures var t := Perform(s, actions); Coming(t, |t.toManager|, id, life)
    decreases |actions|
  {
    if actions != [] {
      LeavingStep(s, actions[0], n, id, life);
      StepKeeps(s, actions[0]);
      StepLife(s, actions[0], id);
      RelayedIsComing(Step(s, actions[0]), actions[1..], if actions[0].Relay? && 0 < n then n - 1 else n, id, life);
    }
  }

  /** All that is under way when the timer fires is handed on: as often as there
      were messages to the reactor then, the reactor passed one on, and after that as
      often as there were messages to the manager, it handled one. Anything else
      may happen in between. */
  ghost predicate HandsOn(s: System, relaying: seq<Action>, delivering: seq<Action>)
  {
    |s.toReactor| <= Relays(relaying) && |Perform(s, relaying).toManager| <= Deliveries(delivering)
  }

  /** A part of a run in which the timer fires and what is under way is handed on. */
  ghost predicate TimedOut(s: System, actions: seq<Action>)
  {
    exists before, relaying, delivering ::
      actions == (before + [TimerFires]) + (relaying + delivering) && HandsOn(Perform(s, before + [TimerFires]), relaying, delivering)
  }

  lemma TimeoutIsLeaving(s: System, id: nat)
    requires Coherent(s) && 0 < Life(s.manager, id)
    ensures var t := Step(s, TimerFires); Leaving(t, |t.toReactor|, id, Life(s.manager, id))
  {
    var t := Step(s, TimerFires);
    StepKeeps(s, TimerFires);
    TimeoutsAmong(t.toReactor, id);
    TimeoutsAmong(t.toManager, id);
  }

  /** Any such part of a run shortens a sequence that is active when it begins. */
  lemma TimedOutShortens(s: System, actions: seq<Action>, id: nat)
    requires Coherent(s) && id < s.manager.nextId && 0 < Life(s.manager, id) && TimedOut(s, actions)
    ensures Life(Perform(s, actions).manager, id) < Life(s.manager, id)
  {
    var before, relaying, delivering :|
      actions == (before + [TimerFires]) + (relaying + delivering) && HandsOn(Perform(s, before + [TimerFires]), relaying, delivering);
    var ready := Perform(s, before);
    PerformLife(s, before, id);
    PerformInTurn(s, before, [TimerFires]);
    assert [TimerFires][1..] == [];
    var fired := Step(ready, TimerFires);
    assert Perform(ready, [TimerFires]) == fired;
    PerformInTurn(s, before + [TimerFires], relaying + delivering);
    PerformInTurn(fired, relaying, delivering);
    StepKeeps(ready, TimerFires);
    StepLife(ready, TimerFires, id);
    HandedOnShortens(ready, fired, relaying, delivering, id);
  }

  lemma HandedOnShortens(ready: System, fired: System, relaying: seq<Action>, delivering: seq<Action>, id: nat)
    requires Coherent(ready) && fired == Step(ready, TimerFires) && Coherent(fired) && id < ready.manager.nextId
    requires id < fired.manager.nextId && Life(fired.manager, id) <= Life(ready.manager, id)
    requires HandsOn(fired, relaying, delivering)
    ensures var life := Life(Perform(Perform(fired, relaying), delivering).manager, id);
            life <= Life(ready.manager, id) && (0 < Life(ready.manager, id) ==> life < Life(ready.manager, id))
  {
    var relayed, life := Perform(fired, relaying), Life(ready.manager, id);
    PerformLife(fired, relaying, id);
    PerformLife(relayed, delivering, id);
    if 0 < life {
      TimeoutIsLeaving(ready, id);
      RelayedIsComing(fired, relaying, |fired.toReactor|, id, life);
      DeliveredShortens(relayed, delivering, |relayed.toManager|, id, life);
    }
  }

  /** Whatever is asked, reported, relayed and handled, and in whatever order: a
      sequence is gone, for good, once the timer has fired twice and what was
      under way was handed on each time, whichever apps hang or are gone. */
  lemma EveryScheduleRetires(s: System, first: seq<Action>, second: seq<Action>, rest: seq<Action>)
    requires Coherent(s) && s.manager.active.Some? && TimedOut(s, first) && TimedOut(Perform(s, first), second)
    ensures var t := Perform(s, first + second + rest).manager;
            t.active.Some? ==> t.active.value.id != s.manager.active.value.id
  {
    var id := s.manager.active.value.id;
    var mid := Perform(s, first);
    TimedOutShortens(s, first, id);
    PerformLife(s, first, id);
    var end := Perform(mid, second);
    PerformLife(mid, second, id);
    if 0 < Life(mid.manager, id) {
      TimedOutShortens(mid, second, id);
    }
    PerformLife(end, rest, id);
    PerformInTurn(s, first, second);
    PerformInTurn(s, first + second, rest);
  }
}
