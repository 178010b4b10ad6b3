/** How often the reactor writes a frame that an app keeps undoing
    (`src/actor/reactor.rs`, `update_layout`): the attempts it counts, followed
    through runs of the frame protocol. */
module FrameAttempts {
  import opened Options
  import opened Windows
  import opened FrameWrites
  import opened FrameProtocol

  // What attempts at the given times come to.

  /** The record of attempts at one target, after attempts at these times. */
  function After(before: Option<FrameAttempt>, target: Frame, times: seq<int>): Option<FrameAttempt>
  {
    if times == [] then before
    else
      var n := |times| - 1;
      Some(Attempted(After(before, target, times[..n]), target, times[n]))
  }

  /** How many of the attempts are written. */
  function Written(before: Option<FrameAttempt>, target: Frame, times: seq<int>): nat
  {
    if times == [] then 0
    else
      var n := |times| - 1;
      Written(before, target, times[..n]) + if After(before, target, times).value.count <= MAX_FRAME_ATTEMPTS then 1 else 0
  }

  /** One attempt follows soon after the other. */
  ghost predicate Quick(times: seq<int>)
  {
    forall i :: 0 < i < |times| ==> times[i] - times[i - 1] <= FRAME_ATTEMPT_RESET
  }

  function Least(a: nat, b: nat): nat { if a < b then a else b }

  /** The lengths of the stretches of attempts that follow soon after each other. */
  function Stretches(times: seq<int>): (lengths: seq<nat>)
    ensures times != [] ==> lengths != []
  {
    if times == [] then []
    else
      var n := |times| - 1;
      var before := Stretches(times[..n]);
      if n > 0 && times[n] - times[n - 1] <= FRAME_ATTEMPT_RESET then before[|before| - 1 := before[|before| - 1] + 1]
      else before + [1]
  }

  /** What an earlier record counts for the first stretch: nothing if it is for
      another target, or too old. */
  function Carried(before: Option<FrameAttempt>, target: Frame, times: seq<int>): nat
  {
    if before.Some? && before.value.target == target && times != [] && times[0] - before.value.last <= FRAME_ATTEMPT_RESET
    then before.value.count else 0
  }

  /** How many of a stretch of attempts are written when some are counted already. */
  function OfStretch(length: nat, counted: nat): nat
  {
    Least(length, if counted < MAX_FRAME_ATTEMPTS then MAX_FRAME_ATTEMPTS - counted else 0)
  }

  /** The attempts that are written: of each stretch at most the allowed number,
      of the first one less what is counted already. */
  function OfStretches(lengths: seq<nat>, counted: nat): nat
  {
    if lengths == [] then 0
    else
      var n := |lengths| - 1;
      OfStretches(lengths[..n], counted) + OfStretch(lengths[n], if n == 0 then counted else 0)
  }

  /** A record within the width of its counter. */
  predicate Counts(before: Option<FrameAttempt>)
  {
    before.Some? ==> before.value.count <= MAX_COUNT
  }

  lemma LastLonger(lengths: seq<nat>, counted: nat)
    requires lengths != []
    ensures var n := |lengths| - 1;
            OfStretches(lengths[n := lengths[n] + 1], counted) ==
            OfStretches(lengths, counted)
            - OfStretch(lengths[n], if n == 0 then counted else 0) + OfStretch(lengths[n] + 1, if n == 0 then counted else 0)
  {
    var n := |lengths| - 1;
    assert lengths[n := lengths[n] + 1][..n] == lengths[..n];
  }

  lemma OneMoreStretch(lengths: seq<nat>, counted: nat)
    ensures OfStretches(lengths + [1], counted) ==
            OfStretches(lengths, counted) + OfStretch(1, if lengths == [] then counted else 0)
  {
    assert (lengths + [1])[..|lengths|] == lengths;
  }

  /** The record after some attempts counts the last stretch, and with it what
      was carried over if that is the first. */
  ghost predicate RecordIs(before: Option<FrameAttempt>, target: Frame, times: seq<int>)
    requires times != []
  {
    var after, lengths := After(before, target, times).value, Stretches(times);
    after.target == target && after.last == times[|times| - 1] &&
    after.count == Least(lengths[|lengths| - 1] + (if |lengths| == 1 then Carried(before, target, times) else 0), MAX_COUNT)
  }

  lemma FirstAttempt(before: Option<FrameAttempt>, target: Frame, times: seq<int>)
    requires Counts(before) && |times| == 1
    ensures RecordIs(before, target, times)
    ensures Written(before, target, times) == OfStretches(Stretches(times), Carried(before, target, times))
  {
    assert times[..0] == [] && Stretches(times) == [1] && [1][..0] == [];
    assert OfStretches([1], Carried(before, target, times)) == OfStretch(1, Carried(before, target, times));
  }

  /** An attempt soon after the one before makes the last stretch longer. */
  lemma SoonAttempt(before: Option<FrameAttempt>, target: Frame, times: seq<int>)
    requires Counts(before) && 1 < |times| && times[|times| - 1] - times[|times| - 2] <= FRAME_ATTEMPT_RESET
    requires RecordIs(before, target, times[..|times| - 1])
    requires Written(before, target, times[..|times| - 1]) ==
             OfStretches(Stretches(times[..|times| - 1]), Carried(before, target, times))
    ensures RecordIs(before, target, times)
    ensures Written(before, target, times) == OfStretches(Stretches(times), Carried(before, target, times))
  {
    LastLonger(Stretches(times[..|times| - 1]), Carried(before, target, times));
  }

  /** An attempt long after the one before starts another stretch. */
  lemma LateAttempt(before: Option<FrameAttempt>, target: Frame, times: seq<int>)
    requires Counts(before) && 1 < |times| && times[|times| - 1] - times[|times| - 2] > FRAME_ATTEMPT_RESET
    requires RecordIs(before, target, times[..|times| - 1])
    requires Written(before, target, times[..|times| - 1]) ==
             OfStretches(Stretches(times[..|times| - 1]), Carried(before, target, times))
    ensures RecordIs(before, target, times)
    ensures Written(before, target, times) == OfStretches(Stretches(times), Carried(before, target, times))
  {
    OneMoreStretch(Stretches(times[..|times| - 1]), Carried(before, target, times));
  }

  /** Just how many attempts are written, at whatever times they are made. */
  lemma {:induction false} WrittenExactly(before: Option<FrameAttempt>, target: Frame, times: seq<int>)
    requires Counts(before)
    ensures times != [] ==> RecordIs(before, target, times)
    ensures Written(before, target, times) == OfStretches(Stretches(times), Carried(before, target, times))
  {
    if |times| == 1 {
      FirstAttempt(before, target, times);
    } else if times != [] {
      var n := |times| - 1;
      WrittenExactly(before, target, times[..n]);
      assert Carried(before, target, times[..n]) == Carried(before, target, times);
      if times[n] - times[n - 1] <= FRAME_ATTEMPT_RESET {
        SoonAttempt(before, target, times);
      } else {
        LateAttempt(before, target, times);
      }
    }
  }

  /** From no record: the count, and the attempts written, against all attempts. */
  lemma {:induction false} WrittenFromNone(target: Frame, times: seq<int>)
    requires times != []
    ensures var after := After(None, target, times).value;
            after.last == times[|times| - 1] && after.target == target && 1 <= after.count <= |times| &&
            if Quick(times) then after.count == Least(|times|, MAX_COUNT) else after.count < |times|
    ensures Least(|times|, MAX_FRAME_ATTEMPTS) <= Written(None, target, times) <= |times|
    ensures Quick(times) ==> Written(None, target, times) == Least(|times|, MAX_FRAME_ATTEMPTS)
    ensures !Quick(times) && MAX_FRAME_ATTEMPTS < |times| ==> MAX_FRAME_ATTEMPTS < Written(None, target, times)
  {
    var n := |times| - 1;
    if n > 0 {
      WrittenFromNone(target, times[..n]);
      QuickNext(times);
    }
  }

  lemma QuickNext(times: seq<int>)
    requires 1 < |times|
    ensures var n := |times| - 1;
            Quick(times) <==> Quick(times[..n]) && times[n] - times[n - 1] <= FRAME_ATTEMPT_RESET
  {
    var n := |times| - 1;
    var before := times[..n];
    assert forall i :: 0 <= i < n ==> before[i] == times[i];
  }

  // The attempts of a run.

  /** The times a pass over the targets touches the record of a window: one for
      each of its targets that the window is not known to be at, unless it is
      being resized or on a space that is not shown. */
  function Touches(r: Reactor, targets: seq<(WindowId, Frame)>, around: Surroundings, wid: WindowId): seq<int>
  {
    if targets == [] then []
    else
      var n := |targets| - 1;
      Touches(r, targets[..n], around, wid) +
      if targets[n].0 == wid && Wants(WriteAll(r, targets[..n], around).0, wid, targets[n].1, around) then [around.now] else []
  }

  /** The times of the attempts in the first `n` steps. */
  function Attempts(states: seq<System>, actions: seq<Action>, n: nat, wid: WindowId): seq<int>
    requires n <= |actions| < |states|
  {
    if n == 0 then []
    else
      Attempts(states, actions, n - 1, wid) +
      if actions[n - 1].LayOut? then Touches(states[n - 1].reactor, actions[n - 1].targets, actions[n - 1].around, wid) else []
  }

  /** How many writes to a window the first `n` steps queue. */
  function Queued(states: seq<System>, actions: seq<Action>, n: nat, wid: WindowId): nat
    requires n <= |actions| < |states|
  {
    if n == 0 then 0
    else
      Queued(states, actions, n - 1, wid) +
      if actions[n - 1].LayOut?
      then |WritesTo(WriteAll(states[n - 1].reactor, actions[n - 1].targets, actions[n - 1].around).1, wid)|
      else 0
  }

  /** The targets for the window are all the same. */
  predicate Only(targets: seq<(WindowId, Frame)>, wid: WindowId, target: Frame)
  {
    forall i :: 0 <= i < |targets| ==> targets[i].0 == wid ==> targets[i].1 == target
  }

  lemma TargetsBut(targets: seq<(WindowId, Frame)>, wid: WindowId, target: Frame, n: nat)
    requires Only(targets, wid, target) && n <= |targets|
    ensures Only(targets[..n], wid, target)
  {
  }

  lemma AfterMore(before: Option<FrameAttempt>, target: Frame, times: seq<int>, now: int)
    ensures After(before, target, times + [now]) == Some(Attempted(After(before, target, times), target, now))
    ensures Written(before, target, times + [now]) ==
            Written(before, target, times) + if Attempted(After(before, target, times), target, now).count <= MAX_FRAME_ATTEMPTS then 1 else 0
  {
    assert (times + [now])[..|times|] == times;
  }

  /** The reactor has made `written` writes to the window since it had the
      record `before`, for the attempts made at `times`. */
  ghost predicate Keeps(before: Option<FrameAttempt>, times: seq<int>, written: nat, r: Reactor, wid: WindowId, target: Frame, reachable: bool)
  {
    AttemptFor(r, wid) == After(before, target, times) &&
    written <= Written(before, target, times) && (reachable ==> written == Written(before, target, times))
  }

  lemma WriteOneKeeps(before: Option<FrameAttempt>, times: seq<int>, written: nat, r: Reactor, wid: WindowId, target: Frame,
                      reachable: bool, around: Surroundings)
    requires Keeps(before, times, written, r, wid, target, reachable) && (reachable ==> wid.pid in around.apps)
    ensures var (r', sent) := WriteOne(r, wid, target, around);
            Keeps(before, times + (if Wants(r, wid, target, around) then [around.now] else []), written + |WritesTo(sent, wid)|,
                  r', wid, target, reachable)
  {
    var sent := WriteOne(r, wid, target, around).1;
    AfterMore(before, target, times, around.now);
    assert times + [] == times;
    assert sent != [] ==> sent[1..] == [];
  }

  lemma WriteOtherKeeps(before: Option<FrameAttempt>, times: seq<int>, written: nat, r: Reactor, wid: WindowId, target: Frame,
                        reachable: bool, other: WindowId, frame: Frame, around: Surroundings)
    requires Keeps(before, times, written, r, wid, target, reachable) && other != wid
    ensures var (r', sent) := WriteOne(r, other, frame, around);
            Keeps(before, times, written, r', wid, target, reachable) && WritesTo(sent, wid) == []
  {
    var sent := WriteOne(r, other, frame, around).1;
    assert sent != [] ==> sent[1..] == [];
  }

  /** One more target of a pass. */
  lemma TargetKeeps(before: Option<FrameAttempt>, times: seq<int>, written: nat, r: Reactor, wid: WindowId, target: Frame,
                    reachable: bool, next: WindowId, frame: Frame, around: Surroundings)
    requires Keeps(before, times, written, r, wid, target, reachable) && (reachable ==> wid.pid in around.apps)
    requires next == wid ==> frame == target
    ensures var (r', sent) := WriteOne(r, next, frame, around);
            Keeps(before, times + (if next == wid && Wants(r, wid, frame, around) then [around.now] else []),
                  written + |WritesTo(sent, wid)|, r', wid, target, reachable)
  {
    if next == wid {
      WriteOneKeeps(before, times, written, r, wid, target, reachable, around);
    } else {
      WriteOtherKeeps(before, times, written, r, wid, target, reachable, next, frame, around);
      assert times + [] == times;
    }
  }

  lemma {:induction false} PassKeeps(before: Option<FrameAttempt>, times: seq<int>, written: nat, r: Reactor, wid: WindowId, target: Frame,
                                     reachable: bool, targets: seq<(WindowId, Frame)>, around: Surroundings)
    requires Keeps(before, times, written, r, wid, target, reachable) && (reachable ==> wid.pid in around.apps)
    requires Only(targets, wid, target)
    ensures var (r', sent) := WriteAll(r, targets, around);
            Keeps(before, times + Touches(r, targets, around, wid), written + |WritesTo(sent, wid)|, r', wid, target, reachable)
    decreases |targets|
  {
    if targets == [] {
      assert times + [] == times;
    } else {
      var n := |targets| - 1;
      TargetsBut(targets, wid, target, n);
      PassKeeps(before, times, written, r, wid, target, reachable, targets[..n], around);
      var (r1, first) := WriteAll(r, targets[..n], around);
      var times1 := times + Touches(r, targets[..n], around, wid);
      WritesToAppend(first, WriteOne(r1, targets[n].0, targets[n].1, around).1, wid);
      TargetKeeps(before, times1, written + |WritesTo(first, wid)|, r1, wid, target, reachable, targets[n].0, targets[n].1, around);
      TouchesNext(times, r, targets, around, wid);
    }
  }

  lemma TouchesNext(times: seq<int>, r: Reactor, targets: seq<(WindowId, Frame)>, around: Surroundings, wid: WindowId)
    requires targets != []
    ensures var n := |targets| - 1;
            times + Touches(r, targets, around, wid) ==
            (times + Touches(r, targets[..n], around, wid)) +
            if targets[n].0 == wid && Wants(WriteAll(r, targets[..n], around).0, wid, targets[n].1, around) then [around.now] else []
  {
  }

  /** Every pass gives the window the same target, if any. */
  ghost predicate OnlyTarget(actions: seq<Action>, wid: WindowId, target: Frame)
  {
    forall i :: 0 <= i < |actions| && actions[i].LayOut? ==> Only(actions[i].targets, wid, target)
  }

  /** The window's app can be reached in every pass. */
  ghost predicate AlwaysReached(actions: seq<Action>, wid: WindowId)
  {
    forall i :: 0 <= i < |actions| && actions[i].LayOut? ==> wid.pid in actions[i].around.apps
  }

  lemma OtherStepKeeps(s: System, a: Action, wid: WindowId)
    requires Enabled(s, a) && !a.LayOut?
    ensures AttemptFor(Step(s, a).reactor, wid) == AttemptFor(s.reactor, wid)
  {
    if a.TakeReport? {
      TakeInEffect(s.reactor, s.reports[0]);
    }
  }

  lemma {:induction false} RunKeeps(states: seq<System>, actions: seq<Action>, n: nat, wid: WindowId, target: Frame, reachable: bool)
    requires Run(states, actions) && n <= |actions| && OnlyTarget(actions, wid, target)
    requires reachable ==> AlwaysReached(actions, wid)
    ensures Keeps(AttemptFor(states[0].reactor, wid), Attempts(states, actions, n, wid), Queued(states, actions, n, wid),
                  states[n].reactor, wid, target, reachable)
  {
    if n > 0 {
      RunKeeps(states, actions, n - 1, wid, target, reachable);
      var s, a := states[n - 1], actions[n - 1];
      var times, queued := Attempts(states, actions, n - 1, wid), Queued(states, actions, n - 1, wid);
      if a.LayOut? {
        LayOutQueuesWrites(s, a.targets, a.around);
        PassKeeps(AttemptFor(states[0].reactor, wid), times, queued, s.reactor, wid, target, reachable, a.targets, a.around);
      } else {
        OtherStepKeeps(s, a, wid);
        assert times + [] == times;
      }
    }
  }

  /** On every run whose passes give the window one target, the writes queued
      to it are the attempts that are written, or fewer if its app cannot always
      be reached; whatever the app reports in between. */
  lemma WritesOfARun(states: seq<System>, actions: seq<Action>, wid: WindowId, target: Frame)
    requires Run(states, actions) && OnlyTarget(actions, wid, target)
    ensures var before, times := AttemptFor(states[0].reactor, wid), Attempts(states, actions, |actions|, wid);
            Queued(states, actions, |actions|, wid) <= Written(before, target, times) &&
            (AlwaysReached(actions, wid) ==> Queued(states, actions, |actions|, wid) == Written(before, target, times))
  {
    RunKeeps(states, actions, |actions|, wid, target, false);
    if AlwaysReached(actions, wid) {
      RunKeeps(states, actions, |actions|, wid, target, true);
    }
  }

  /** Of each stretch of attempts that follow soon after each other the allowed
      number is written, or all if they are fewer; of the first stretch less what
      an earlier record counts. */
  lemma WritesInStretches(states: seq<System>, actions: seq<Action>, wid: WindowId, target: Frame)
    requires Run(states, actions) && OnlyTarget(actions, wid, target) && AlwaysReached(actions, wid)
    requires Counts(AttemptFor(states[0].reactor, wid))
    ensures var before, times := AttemptFor(states[0].reactor, wid), Attempts(states, actions, |actions|, wid);
            Queued(states, actions, |actions|, wid) == OfStretches(Stretches(times), Carried(before, target, times))
  {
    WritesOfARun(states, actions, wid, target);
    WrittenExactly(AttemptFor(states[0].reactor, wid), target, Attempts(states, actions, |actions|, wid));
  }

  /** Quick attempts make one stretch. */
  lemma {:induction false} QuickIsOneStretch(times: seq<int>)
    requires Quick(times) && times != []
    ensures Stretches(times) == [|times|]
  {
    var n := |times| - 1;
    if n > 0 {
      QuickNext(times);
      QuickIsOneStretch(times[..n]);
    }
  }

  /** As long as one attempt follows soon after the other, no more than the
      allowed number of writes are queued, whatever was attempted before and
      whether or not the app can be reached. */
  lemma GivesUp(states: seq<System>, actions: seq<Action>, wid: WindowId, target: Frame)
    requires Run(states, actions) && OnlyTarget(actions, wid, target) && Counts(AttemptFor(states[0].reactor, wid))
    requires Quick(Attempts(states, actions, |actions|, wid))
    ensures Queued(states, actions, |actions|, wid) <= MAX_FRAME_ATTEMPTS
  {
    var before, times := AttemptFor(states[0].reactor, wid), Attempts(states, actions, |actions|, wid);
    WritesOfARun(states, actions, wid, target);
    WrittenExactly(before, target, times);
    if times != [] {
      QuickIsOneStretch(times);
      assert [|times|][..0] == [];
      assert OfStretches([|times|], Carried(before, target, times)) == OfStretch(|times|, Carried(before, target, times));
    }
  }

  /** From a fresh start no more than the allowed number of writes are queued
      exactly when each attempt follows soon after the one before, or there are
      no more attempts than that. */
  lemma GivesUpExactly(states: seq<System>, actions: seq<Action>, wid: WindowId, target: Frame)
    requires Run(states, actions) && OnlyTarget(actions, wid, target) && AlwaysReached(actions, wid)
    requires wid !in states[0].reactor.attempts
    ensures var times := Attempts(states, actions, |actions|, wid);
            Queued(states, actions, |actions|, wid) <= MAX_FRAME_ATTEMPTS <==> Quick(times) || |times| <= MAX_FRAME_ATTEMPTS
  {
    var times := Attempts(states, actions, |actions|, wid);
    WritesOfARun(states, actions, wid, target);
    if times != [] {
      WrittenFromNone(target, times);
    }
  }

  // Passes that follow soon after each other are not enough.

  /** An app that accepts a frame for a while and then moves its window away. In
      each round the window is written, seen in place by a second pass, moved
      away, and reported; what follows is the round's state after `phase` steps. */
  function Round(wid: WindowId, away: Frame, target: Frame, k: nat, phase: nat): System
  {
    var time := 2 * FRAME_ATTEMPT_RESET * k;
    var earlier := if k == 0 then map[] else map[wid := FrameAttempt(target, 1, time - 2 * FRAME_ATTEMPT_RESET)];
    var tried := map[wid := FrameAttempt(target, 1, time)];
    var written := Reactor(map[wid := ReactorWindow(target, k + 1)], tried, map[], None, false);
    match phase
    case 0 => System(Reactor(map[wid := ReactorWindow(away, k)], earlier, map[], None, false), map[wid := AppWindow(away, k)], [], [], [], {})
    case 1 => System(written, map[wid := AppWindow(away, k)], [SetWindowFrame(wid, target, k + 1)], [], [], {})
    case 2 => System(written, map[wid := AppWindow(target, k + 1)], [], [], [], {})
    case 3 => System(written, map[wid := AppWindow(target, k + 1)], [], [], [], {})
    case 4 => System(written, map[wid := AppWindow(away, k + 1)], [], [wid], [], {})
    case _ => System(written, map[wid := AppWindow(away, k + 1)], [], [],
                     [WindowFrameChanged(wid, away, k + 1, false, Some(Up))], {})
  }

  function RoundAction(wid: WindowId, away: Frame, target: Frame, k: nat, phase: nat): Action
  {
    var time := 2 * FRAME_ATTEMPT_RESET * k;
    match phase
    case 0 => LayOut([(wid, target)], Surroundings(time, {}, {wid.pid}))
    case 1 => Apply(target, false, false)
    case 2 => LayOut([(wid, target)], Surroundings(time + FRAME_ATTEMPT_RESET, {}, {wid.pid}))
    case 3 => Move(wid, away)
    case 4 => LookAt(Up)
    case _ => TakeReport
  }

  /** One target considered. */
  lemma OneTarget(s: System, wid: WindowId, target: Frame, around: Surroundings)
    ensures WriteAll(s.reactor, [(wid, target)], around) == WriteOne(s.reactor, wid, target, around)
    ensures LayOutAll(s, [(wid, target)], around) == LayOutOne(s, wid, target, around)
  {
    var targets := [(wid, target)];
    assert targets[..0] == [];
    assert LayOutAll(s, targets[..0], around) == s && WriteAll(s.reactor, targets[..0], around) == (s.reactor, []);
    assert [] + WriteOne(s.reactor, wid, target, around).1 == WriteOne(s.reactor, wid, target, around).1;
  }

  lemma RoundPasses(wid: WindowId, away: Frame, target: Frame, k: nat, phase: nat)
    requires away != target && (phase == 0 || phase == 2)
    ensures var s, a := Round(wid, away, target, k, phase), RoundAction(wid, away, target, k, phase);
            Step(s, a) == Round(wid, away, target, k, phase + 1) &&
            |WritesTo(WriteAll(s.reactor, a.targets, a.around).1, wid)| == if phase == 0 then 1 else 0
  {
    var s, a := Round(wid, away, target, k, phase), RoundAction(wid, away, target, k, phase);
    OneTarget(s, wid, target, a.around);
    var sent := WriteOne(s.reactor, wid, target, a.around).1;
    assert phase == 0 ==> sent == [SetWindowFrame(wid, target, k + 1)] && sent[1..] == [];
  }

  lemma RoundSteps(wid: WindowId, away: Frame, target: Frame, k: nat, phase: nat)
    requires away != target && phase < 6
    ensures var s, a := Round(wid, away, target, k, phase), RoundAction(wid, away, target, k, phase);
            Enabled(s, a) && Timely(s, a) &&
            Step(s, a) == if phase < 5 then Round(wid, away, target, k, phase + 1) else Round(wid, away, target, k + 1, 0)
  {
    if phase == 0 || phase == 2 {
      RoundPasses(wid, away, target, k, phase);
    }
  }

  /** A step of a run made of rounds goes on to the next phase, or to the next round. */
  lemma NextPhase(wid: WindowId, away: Frame, target: Frame, i: nat)
    ensures Round(wid, away, target, (i + 1) / 6, (i + 1) % 6) ==
            if i % 6 < 5 then Round(wid, away, target, i / 6, i % 6 + 1) else Round(wid, away, target, i / 6 + 1, 0)
  {
    assert i % 6 < 5 ==> (i + 1) / 6 == i / 6 && (i + 1) % 6 == i % 6 + 1;
    assert i % 6 == 5 ==> (i + 1) / 6 == i / 6 + 1 && (i + 1) % 6 == 0;
  }

  /** The run is made of such rounds. */
  ghost predicate Rounds(states: seq<System>, actions: seq<Action>, wid: WindowId, away: Frame, target: Frame)
  {
    |states| == |actions| + 1 &&
    (forall i :: 0 <= i < |states| ==> states[i] == Round(wid, away, target, i / 6, i % 6)) &&
    (forall i :: 0 <= i < |actions| ==> actions[i] == RoundAction(wid, away, target, i / 6, i % 6))
  }

  lemma RoundsRun(states: seq<System>, actions: seq<Action>, wid: WindowId, away: Frame, target: Frame)
    requires away != target && Rounds(states, actions, wid, away, target)
    ensures Run(states, actions)
  {
    forall i | 0 <= i < |actions|
      ensures Enabled(states[i], actions[i]) && Timely(states[i], actions[i]) && states[i + 1] == Step(states[i], actions[i])
    {
      RoundSteps(wid, away, target, i / 6, i % 6);
      NextPhase(wid, away, target, i);
    }
  }

  lemma RoundQueues(states: seq<System>, actions: seq<Action>, i: nat, wid: WindowId, away: Frame, target: Frame)
    requires away != target && i < |actions| && Rounds(states, actions, wid, away, target)
    ensures Queued(states, actions, i + 1, wid) == Queued(states, actions, i, wid) + if i % 6 == 0 then 1 else 0
  {
    var phase := i % 6;
    assert actions[i].LayOut? <==> phase == 0 || phase == 2;
    if phase == 0 || phase == 2 {
      RoundPasses(wid, away, target, i / 6, phase);
    }
  }

  lemma RoundedUp(n: nat)
    ensures (n + 6) / 6 == (n + 5) / 6 + if n % 6 == 0 then 1 else 0
  {
  }

  lemma {:induction false} RoundsQueue(states: seq<System>, actions: seq<Action>, n: nat, wid: WindowId, away: Frame, target: Frame)
    requires away != target && n <= |actions| && Rounds(states, actions, wid, away, target)
    ensures Queued(states, actions, n, wid) == (n + 5) / 6
  {
    if n > 0 {
      RoundsQueue(states, actions, n - 1, wid, away, target);
      RoundQueues(states, actions, n - 1, wid, away, target);
      RoundedUp(n - 1);
    }
  }

  /** The next pass of the reactor after step `i` is step `j`. */
  ghost predicate NextPass(actions: seq<Action>, i: nat, j: nat)
  {
    i < j < |actions| && actions[i].LayOut? && actions[j].LayOut? && forall k :: i < k < j ==> !actions[k].LayOut?
  }

  /** The passes follow soon after each other. */
  ghost predicate QuickPasses(actions: seq<Action>)
  {
    forall i: nat, j: nat :: NextPass(actions, i, j) ==> actions[j].around.now - actions[i].around.now <= FRAME_ATTEMPT_RESET
  }

  lemma RoundsAreQuick(states: seq<System>, actions: seq<Action>, wid: WindowId, away: Frame, target: Frame)
    requires Rounds(states, actions, wid, away, target)
    ensures QuickPasses(actions) && OnlyTarget(actions, wid, target)
  {
    forall i: nat, j: nat | NextPass(actions, i, j)
      ensures actions[j].around.now - actions[i].around.now <= FRAME_ATTEMPT_RESET
    {
      if i % 6 == 0 {
        assert i + 2 < |actions| ==> actions[i + 2].LayOut?;
        assert j <= i + 2;
      } else {
        assert i + 4 < |actions| ==> actions[i + 4].LayOut?;
        assert i % 6 == 2 && j <= i + 4;
      }
    }
  }

  /** However many writes are asked for, some run queues them with passes no
      further apart than attempts may be: a pass that finds the window in place
      does not touch the record, so the next attempt comes late and counts as the first. */
  lemma PausesStartOver(wid: WindowId, away: Frame, target: Frame, rounds: nat) returns (states: seq<System>, actions: seq<Action>)
    requires away != target
    ensures Run(states, actions) && Fresh(states[0]) && wid !in states[0].reactor.attempts
    ensures OnlyTarget(actions, wid, target) && QuickPasses(actions)
    ensures Queued(states, actions, |actions|, wid) == rounds
  {
    var n := 6 * rounds;
    states := seq(n + 1, i requires 0 <= i <= n => Round(wid, away, target, i / 6, i % 6));
    actions := seq(n, i requires 0 <= i < n => RoundAction(wid, away, target, i / 6, i % 6));
    assert Rounds(states, actions, wid, away, target);
    RoundsRun(states, actions, wid, away, target);
    RoundsAreQuick(states, actions, wid, away, target);
    RoundsQueue(states, actions, n, wid, away, target);
  }
}
