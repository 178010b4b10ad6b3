/** The frame protocol as a whole: the reactor, the thread of one app, and two
    queues between them.

    The reactor writes frames and takes each write to be where the window is.
    The user moves windows meanwhile, and the app reports what it finds. A
    report may be older than the last write, so the reactor only accepts those
    made after it. The question is whether the reactor ends up with the frames
    the windows really have. */
module FrameProtocol {
  import opened Options
  import opened Windows
  import opened FrameWrites

  /** `notices` are the windows the system has noticed to have changed and the
      app has not looked at yet. `refused` is a record of the past that no actor
      sees: the windows whose last write left them elsewhere than asked, without
      anything having been noticed since. */
  datatype System = System(reactor: Reactor, app: map<WindowId, AppWindow>, writes: seq<Write>, notices: seq<WindowId>,
                           reports: seq<Report>, refused: set<WindowId>)

  datatype Action =
    | LayOut(targets: seq<(WindowId, Frame)>, around: Surroundings)   // the reactor writes frames
    | Apply(got: Frame, noticed: bool, answered: bool)                // the app applies the oldest write, or tries to
    | Move(wid: WindowId, frame: Frame)                               // somebody else moves a window
    | Notice(wid: WindowId)                                           // the system notices a window for any reason
    | LookAt(mouse: MouseState)                                       // the app looks at the oldest notice
    | TakeReport                                                      // the reactor takes in the oldest report
    | Release                                                         // the mouse button is released

  predicate Enabled(s: System, a: Action)
  {
    match a
    case Apply(_, _, _) => s.writes != [] && s.writes[0].wid in s.app
    case Move(wid, _) => wid in s.app
    case Notice(wid) => wid in s.app
    case LookAt(_) => s.notices != [] && s.notices[0] in s.app
    case TakeReport => s.reports != [] && s.reports[0].wid in s.reactor.windows
    case _ => true
  }

  /** The system after the reactor considered one target. */
  function LayOutOne(s: System, wid: WindowId, target: Frame, around: Surroundings): System
  {
    var result := WriteOne(s.reactor, wid, target, around);
    s.(reactor := result.0, writes := s.writes + result.1)
  }

  function LayOutAll(s: System, targets: seq<(WindowId, Frame)>, around: Surroundings): System
  {
    if targets == [] then s
    else
      var n := |targets| - 1;
      LayOutOne(LayOutAll(s, targets[..n], around), targets[n].0, targets[n].1, around)
  }

  /** The reactor queues the writes in the order it makes them. */
  lemma {:induction false} LayOutQueuesWrites(s: System, targets: seq<(WindowId, Frame)>, around: Surroundings)
    ensures var result := WriteAll(s.reactor, targets, around);
            LayOutAll(s, targets, around) == s.(reactor := result.0, writes := s.writes + result.1)
  {
    if targets != [] {
      var n := |targets| - 1;
      LayOutQueuesWrites(s, targets[..n], around);
      var first := WriteAll(s.reactor, targets[..n], around);
      var last := WriteOne(first.0, targets[n].0, targets[n].1, around);
      assert s.writes + (first.1 + last.1) == (s.writes + first.1) + last.1;
    } else {
      assert s.writes + [] == s.writes;
    }
  }

  function Step(s: System, a: Action): System
    requires Enabled(s, a)
  {
    match a
    case LayOut(targets, around) => LayOutAll(s, targets, around)
    case Apply(got, noticed, answered) =>
      var w := s.writes[0];
      var silent := got != w.frame && !noticed && w.wid !in s.notices;
      s.(app := Applied(s.app, w, got), writes := s.writes[1..],
         reports := s.reports + (if answered then [Answer(w, got)] else []),
         notices := if noticed then s.notices + [w.wid] else s.notices,
         refused := if silent then s.refused + {w.wid} else s.refused - {w.wid})
    case Move(wid, frame) =>
      s.(app := s.app[wid := s.app[wid].(frame := frame)], notices := s.notices + [wid], refused := s.refused - {wid})
    case Notice(wid) =>
      s.(notices := s.notices + [wid], refused := s.refused - {wid})
    case LookAt(mouse) =>
      s.(notices := s.notices[1..], reports := s.reports + [Noticed(s.app, s.notices[0], mouse)])
    case TakeReport =>
      s.(reactor := TakeIn(s.reactor, s.reports[0]), reports := s.reports[1..])
    case Release =>
      s.(reactor := s.reactor.(resizing := None, inDrag := false))
  }

  // One window at a time.

  /** All there is about one window: what the reactor takes its frame to be and
      the last id it sent, where it is and the last id its app has seen, and what
      is under way. */
  datatype Local = Local(known: Frame, sent: TransactionId, actual: Frame, seen: TransactionId,
                         writes: seq<Write>, notices: nat, reports: seq<Report>, refused: bool)

  function WritesTo(writes: seq<Write>, wid: WindowId): seq<Write>
  {
    if writes == [] then []
    else if writes[0].wid == wid then [writes[0]] + WritesTo(writes[1..], wid)
    else WritesTo(writes[1..], wid)
  }

  function ReportsOn(reports: seq<Report>, wid: WindowId): seq<Report>
  {
    if reports == [] then [] else (if reports[0].wid == wid then [reports[0]] else []) + ReportsOn(reports[1..], wid)
  }

  function NoticesOf(notices: seq<WindowId>, wid: WindowId): nat
  {
    if notices == [] then 0 else (if notices[0] == wid then 1 else 0) + NoticesOf(notices[1..], wid)
  }

  function View(s: System, wid: WindowId): Local
    requires wid in s.reactor.windows && wid in s.app
  {
    Local(s.reactor.windows[wid].frame, s.reactor.windows[wid].lastSent, s.app[wid].frame, s.app[wid].lastSeen,
          WritesTo(s.writes, wid), NoticesOf(s.notices, wid), ReportsOn(s.reports, wid), wid in s.refused)
  }

  lemma WritesToCons(w: Write, writes: seq<Write>, wid: WindowId)
    ensures WritesTo([w] + writes, wid) == if w.wid == wid then [w] + WritesTo(writes, wid) else WritesTo(writes, wid)
  {
    assert ([w] + writes)[1..] == writes;
  }

  lemma {:induction false} WritesToAppend(a: seq<Write>, b: seq<Write>, wid: WindowId)
    ensures WritesTo(a + b, wid) == WritesTo(a, wid) + WritesTo(b, wid)
  {
    if a == [] {
      assert a + b == b;
    } else {
      var rest := a[1..];
      WritesToAppend(rest, b, wid);
      assert a == [a[0]] + rest && a + b == [a[0]] + (rest + b);
      WritesToCons(a[0], rest, wid);
      WritesToCons(a[0], rest + b, wid);
      assert [a[0]] + (WritesTo(rest, wid) + WritesTo(b, wid)) == ([a[0]] + WritesTo(rest, wid)) + WritesTo(b, wid);
    }
  }

  lemma {:induction false} ReportsOnAppend(a: seq<Report>, e: Report, wid: WindowId)
    ensures ReportsOn(a + [e], wid) == ReportsOn(a, wid) + (if e.wid == wid then [e] else [])
  {
    if a == [] {
      assert a + [e] == [e] && [e][1..] == [];
    } else {
      ReportsOnAppend(a[1..], e, wid);
      assert (a + [e])[1..] == a[1..] + [e];
    }
  }

  lemma {:induction false} NoticesOfAppend(a: seq<WindowId>, w: WindowId, wid: WindowId)
    ensures NoticesOf(a + [w], wid) == NoticesOf(a, wid) + (if w == wid then 1 else 0)
  {
    if a == [] {
      assert a + [w] == [w] && [w][1..] == [];
    } else {
      NoticesOfAppend(a[1..], w, wid);
      assert (a + [w])[1..] == a[1..] + [w];
    }
  }

  lemma {:induction false} NoticesOfSome(notices: seq<WindowId>, wid: WindowId)
    ensures wid in notices <==> NoticesOf(notices, wid) > 0
  {
    if notices != [] {
      NoticesOfSome(notices[1..], wid);
    }
  }

  /** A report that tells of the window after write `txid`. */
  predicate News(e: Report, txid: TransactionId)
  {
    e.lastSeen == txid && !e.requested
  }

  /** The frame in the last report made after write `txid`. */
  function LastNews(reports: seq<Report>, txid: TransactionId): Option<Frame>
  {
    if reports == [] then None
    else
      var later := LastNews(reports[1..], txid);
      if later.None? && News(reports[0], txid) then Some(reports[0].frame) else later
  }

  lemma {:induction false} LastNewsAppend(reports: seq<Report>, e: Report, txid: TransactionId)
    ensures LastNews(reports + [e], txid) == if News(e, txid) then Some(e.frame) else LastNews(reports, txid)
  {
    if reports == [] {
      assert reports + [e] == [e] && [e][1..] == [];
    } else {
      LastNewsAppend(reports[1..], e, txid);
      assert (reports + [e])[1..] == reports[1..] + [e];
    }
  }

  lemma {:induction false} NoNewsYet(reports: seq<Report>, txid: TransactionId)
    requires forall i :: 0 <= i < |reports| ==> reports[i].lastSeen < txid
    ensures LastNews(reports, txid).None?
  {
    if reports != [] {
      NoNewsYet(reports[1..], txid);
    }
  }

  /** The writes under way are the ones the app has not seen, one id after the
      other, and the last of them is what the reactor remembers. With no write
      under way and nothing left to look at, the last news is where the window
      is; without news the reactor already knows, unless the last write was
      refused in silence. */
  ghost predicate Tracked(l: Local)
  {
    && l.sent == l.seen + |l.writes|
    && (forall i :: 0 <= i < |l.writes| ==> l.writes[i].txid == l.seen + 1 + i)
    && (l.writes != [] ==> l.writes[|l.writes| - 1].frame == l.known)
    && (forall i :: 0 <= i < |l.reports| ==> l.reports[i].lastSeen <= l.seen)
    && (l.notices > 0 ==> !l.refused)
    && (l.writes == [] && l.notices == 0 ==>
          if LastNews(l.reports, l.sent).Some? then LastNews(l.reports, l.sent).value == l.actual && !l.refused
          else (l.known == l.actual <==> !l.refused))
  }

  ghost predicate Coherent(s: System)
  {
    && s.app.Keys == s.reactor.windows.Keys
    && (forall i :: 0 <= i < |s.reports| ==> s.reports[i].wid in s.app)
    && (forall wid :: wid in s.app ==> Tracked(View(s, wid)))
  }

  // What each action does to one window.

  lemma ApplyTracks(l: Local, got: Frame, noticed: bool, answered: bool)
    requires Tracked(l) && l.writes != []
    ensures var w := l.writes[0];
            Tracked(l.(actual := got, seen := w.txid, writes := l.writes[1..],
                       notices := if noticed then l.notices + 1 else l.notices,
                       reports := l.reports + (if answered then [Answer(w, got)] else []),
                       refused := got != w.frame && !noticed && l.notices == 0))
  {
    NoNewsYet(l.reports, l.seen + 1);
    LastNewsAppend(l.reports, Answer(l.writes[0], got), l.sent);
    assert l.reports + [] == l.reports;
  }

  lemma ApplyLocally(s: System, got: Frame, noticed: bool, answered: bool, wid: WindowId)
    requires s.app.Keys == s.reactor.windows.Keys && Enabled(s, Apply(got, noticed, answered)) && wid in s.app
    ensures var l, t, w := View(s, wid), Step(s, Apply(got, noticed, answered)), s.writes[0];
            View(t, wid) ==
            if wid != w.wid then l
            else l.(actual := got, seen := w.txid, writes := l.writes[1..],
                    notices := if noticed then l.notices + 1 else l.notices,
                    reports := l.reports + (if answered then [Answer(w, got)] else []),
                    refused := got != w.frame && !noticed && l.notices == 0)
  {
    var w := s.writes[0];
    assert s.reports + [] == s.reports && View(s, wid).reports + [] == View(s, wid).reports;
    ReportsOnAppend(s.reports, Answer(w, got), wid);
    NoticesOfAppend(s.notices, w.wid, wid);
    NoticesOfSome(s.notices, wid);
  }

  lemma NoticeTracks(l: Local, actual: Frame)
    requires Tracked(l)
    ensures Tracked(l.(actual := actual, notices := l.notices + 1, refused := false))
  {
  }

  lemma LookAtTracks(l: Local, wid: WindowId, mouse: MouseState)
    requires Tracked(l) && l.notices > 0
    ensures Tracked(l.(notices := l.notices - 1, reports := l.reports + [WindowFrameChanged(wid, l.actual, l.seen, false, Some(mouse))]))
  {
    LastNewsAppend(l.reports, WindowFrameChanged(wid, l.actual, l.seen, false, Some(mouse)), l.sent);
  }

  lemma WriteTracks(l: Local, wid: WindowId, target: Frame)
    requires Tracked(l)
    ensures Tracked(l.(known := target, sent := l.sent + 1, writes := l.writes + [SetWindowFrame(wid, target, l.sent + 1)]))
  {
  }

  /** The oldest report is not so late that its id could be taken for another. */
  predicate Timely(s: System, a: Action)
  {
    a.TakeReport? && s.reports != [] && s.reports[0].wid in s.reactor.windows ==>
      s.reactor.windows[s.reports[0].wid].lastSent < s.reports[0].lastSeen + TXID_RANGE
  }

  /** The reactor accepts a report exactly when it was made after the last write. */
  lemma AcceptsOnlyNews(s: System)
    requires Coherent(s) && s.reports != [] && Timely(s, TakeReport)
    ensures var e := s.reports[0]; Accepts(s.reactor, e) <==> News(e, s.reactor.windows[e.wid].lastSent)
  {
    var e := s.reports[0];
    var l := View(s, e.wid);
    assert Tracked(l) && l.reports[0] == e;
    SameTxidNearby(e.lastSeen, l.sent);
  }

  lemma SameTxidNearby(a: TransactionId, b: TransactionId)
    requires a <= b < a + TXID_RANGE
    ensures SameTxid(a, b) <==> a == b
  {
    if SameTxid(a, b) {
      var m, n := a / TXID_RANGE, b / TXID_RANGE;
      assert b - a == (n - m) * TXID_RANGE;
    }
  }

  lemma TakeReportTracks(l: Local)
    requires Tracked(l) && l.reports != []
    ensures Tracked(l.(known := if News(l.reports[0], l.sent) then l.reports[0].frame else l.known, reports := l.reports[1..]))
  {
    if l.writes != [] {
      assert l.reports[0].lastSeen < l.sent;
    }
  }

  // Every action keeps the protocol coherent.

  lemma {:induction false} LayOutKeepsWindows(s: System, targets: seq<(WindowId, Frame)>, around: Surroundings)
    ensures var t := LayOutAll(s, targets, around);
            t.reactor.windows.Keys == s.reactor.windows.Keys && t.app == s.app && t.reports == s.reports && t.refused == s.refused
  {
    if targets != [] {
      var n := |targets| - 1;
      LayOutKeepsWindows(s, targets[..n], around);
      WriteOneEffect(LayOutAll(s, targets[..n], around).reactor, targets[n].0, targets[n].1, around);
    }
  }

  lemma StepKeepsWindows(s: System, a: Action)
    requires s.app.Keys == s.reactor.windows.Keys && Enabled(s, a)
    ensures Step(s, a).reactor.windows.Keys == Step(s, a).app.Keys == s.app.Keys
  {
    if a.LayOut? {
      LayOutKeepsWindows(s, a.targets, a.around);
    } else if a.TakeReport? {
      TakeInEffect(s.reactor, s.reports[0]);
    }
  }

  /** The reports to come are those under way, less the oldest or with one more. */
  lemma StepKeepsReports(s: System, a: Action)
    requires Enabled(s, a) && forall i :: 0 <= i < |s.reports| ==> s.reports[i].wid in s.app
    ensures forall i :: 0 <= i < |Step(s, a).reports| ==> Step(s, a).reports[i].wid in s.app
  {
    var t := Step(s, a);
    if a.LayOut? {
      LayOutKeepsWindows(s, a.targets, a.around);
    } else if a.Apply? {
      assert t.reports == s.reports + (if a.answered then [Answer(s.writes[0], a.got)] else []);
    } else if a.LookAt? {
      assert t.reports == s.reports + [Noticed(s.app, s.notices[0], a.mouse)];
    } else if a.TakeReport? {
      assert t.reports == s.reports[1..];
    } else {
      assert t.reports == s.reports;
    }
  }

  lemma LayOutOneElsewhere(s: System, wid: WindowId, target: Frame, around: Surroundings, w: WindowId)
    requires w in s.reactor.windows && w in s.app
    requires w != wid || !Writes(s.reactor, wid, target, around)
    ensures var t := LayOutOne(s, wid, target, around); w in t.reactor.windows && View(t, w) == View(s, w)
  {
    WriteOneEffect(s.reactor, wid, target, around);
    var sent := WriteOne(s.reactor, wid, target, around).1;
    WritesToAppend(s.writes, sent, w);
    assert sent == [] || sent[1..] == [];
  }

  lemma LayOutOneHere(s: System, wid: WindowId, target: Frame, around: Surroundings)
    requires wid in s.reactor.windows && wid in s.app && Writes(s.reactor, wid, target, around)
    ensures var t, l := LayOutOne(s, wid, target, around), View(s, wid);
            wid in t.reactor.windows &&
            View(t, wid) == l.(known := target, sent := l.sent + 1, writes := l.writes + [SetWindowFrame(wid, target, l.sent + 1)])
  {
    WriteOneEffect(s.reactor, wid, target, around);
    var sent := WriteOne(s.reactor, wid, target, around).1;
    WritesToAppend(s.writes, sent, wid);
    assert sent[1..] == [];
  }

  lemma LayOutOneTracks(s: System, wid: WindowId, target: Frame, around: Surroundings, w: WindowId)
    requires w in s.reactor.windows && w in s.app && Tracked(View(s, w))
    ensures var t := LayOutOne(s, wid, target, around); t.app == s.app && w in t.reactor.windows && Tracked(View(t, w))
  {
    if w == wid && Writes(s.reactor, wid, target, around) {
      LayOutOneHere(s, wid, target, around);
      WriteTracks(View(s, w), wid, target);
    } else {
      LayOutOneElsewhere(s, wid, target, around, w);
    }
  }

  lemma {:induction false} LayOutTracks(s: System, targets: seq<(WindowId, Frame)>, around: Surroundings, w: WindowId)
    requires w in s.reactor.windows && w in s.app && Tracked(View(s, w))
    ensures var t := LayOutAll(s, targets, around); t.app == s.app && w in t.reactor.windows && Tracked(View(t, w))
  {
    if targets != [] {
      var n := |targets| - 1;
      LayOutTracks(s, targets[..n], around, w);
      LayOutOneTracks(LayOutAll(s, targets[..n], around), targets[n].0, targets[n].1, around, w);
    }
  }

  lemma LookAtLocally(s: System, mouse: MouseState, wid: WindowId)
    requires s.app.Keys == s.reactor.windows.Keys && Enabled(s, LookAt(mouse)) && wid in s.app && Tracked(View(s, wid))
    ensures Tracked(View(Step(s, LookAt(mouse)), wid))
  {
    var l := View(s, wid);
    ReportsOnAppend(s.reports, Noticed(s.app, s.notices[0], mouse), wid);
    if wid == s.notices[0] {
      LookAtTracks(l, wid, mouse);
    } else {
      assert View(Step(s, LookAt(mouse)), wid) == l;
    }
  }

  lemma NoticeLocally(s: System, a: Action, wid: WindowId)
    requires s.app.Keys == s.reactor.windows.Keys && Enabled(s, a) && (a.Move? || a.Notice?) && wid in s.app && Tracked(View(s, wid))
    ensures Tracked(View(Step(s, a), wid))
  {
    var l, t := View(s, wid), Step(s, a);
    NoticesOfAppend(s.notices, a.wid, wid);
    if wid == a.wid {
      NoticeTracks(l, if a.Move? then a.frame else l.actual);
    } else {
      assert View(t, wid) == l;
    }
  }

  lemma TakeReportElsewhere(s: System, wid: WindowId)
    requires s.app.Keys == s.reactor.windows.Keys && Enabled(s, TakeReport) && wid in s.app && wid != s.reports[0].wid
    ensures wid in Step(s, TakeReport).reactor.windows && View(Step(s, TakeReport), wid) == View(s, wid)
  {
    TakeInEffect(s.reactor, s.reports[0]);
  }

  lemma TakeReportHere(s: System)
    requires s.app.Keys == s.reactor.windows.Keys && Enabled(s, TakeReport)
    requires var e := s.reports[0]; Accepts(s.reactor, e) <==> News(e, s.reactor.windows[e.wid].lastSent)
    ensures var wid := s.reports[0].wid;
            var l := View(s, wid);
            wid in Step(s, TakeReport).reactor.windows && l.reports != [] &&
            View(Step(s, TakeReport), wid) ==
            l.(known := if News(l.reports[0], l.sent) then l.reports[0].frame else l.known, reports := l.reports[1..])
  {
    TakeInEffect(s.reactor, s.reports[0]);
  }

  lemma TakeReportLocally(s: System, wid: WindowId)
    requires Coherent(s) && Enabled(s, TakeReport) && Timely(s, TakeReport) && wid in s.app
    ensures wid in Step(s, TakeReport).reactor.windows && Tracked(View(Step(s, TakeReport), wid))
  {
    assert Tracked(View(s, wid));
    if wid == s.reports[0].wid {
      AcceptsOnlyNews(s);
      TakeReportHere(s);
      TakeReportTracks(View(s, wid));
    } else {
      TakeReportElsewhere(s, wid);
    }
  }

  lemma ApplyStepTracks(s: System, got: Frame, noticed: bool, answered: bool, wid: WindowId)
    requires Coherent(s) && Enabled(s, Apply(got, noticed, answered)) && wid in s.app
    ensures Tracked(View(Step(s, Apply(got, noticed, answered)), wid))
  {
    assert Tracked(View(s, wid));
    ApplyLocally(s, got, noticed, answered, wid);
    if wid == s.writes[0].wid {
      ApplyTracks(View(s, wid), got, noticed, answered);
    }
  }

  lemma ReleaseTracks(s: System, wid: WindowId)
    requires Coherent(s) && wid in s.app
    ensures wid in Step(s, Release).app && wid in Step(s, Release).reactor.windows
    ensures View(Step(s, Release), wid) == View(s, wid)
  {
  }

  lemma StepTracks(s: System, a: Action, wid: WindowId)
    requires Coherent(s) && Enabled(s, a) && Timely(s, a) && wid in s.app
    requires Step(s, a).reactor.windows.Keys == Step(s, a).app.Keys == s.app.Keys
    ensures Tracked(View(Step(s, a), wid))
  {
    assert Tracked(View(s, wid));
    match a
    case LayOut(targets, around) => LayOutTracks(s, targets, around, wid);
    case Apply(got, noticed, answered) => ApplyStepTracks(s, got, noticed, answered, wid);
    case LookAt(mouse) => LookAtLocally(s, mouse, wid);
    case TakeReport => TakeReportLocally(s, wid);
    case Release => ReleaseTracks(s, wid);
    case _ => NoticeLocally(s, a, wid);
  }

  lemma StepKeeps(s: System, a: Action)
    requires Coherent(s) && Enabled(s, a) && Timely(s, a)
    ensures Coherent(Step(s, a))
  {
    StepKeepsWindows(s, a);
    StepKeepsReports(s, a);
    forall wid | wid in s.app
      ensures Tracked(View(Step(s, a), wid))
    {
      StepTracks(s, a, wid);
    }
  }

  /** A whole pass of the reactor over its targets, as it makes it, keeps the
      protocol coherent: its writes go behind the ones under way. */
  lemma UpdateLayoutKeeps(s: System, targets: seq<(WindowId, Frame)>, around: Surroundings)
    requires Coherent(s)
    ensures var (reactor, writes) := WriteAll(s.reactor, targets, around);
            Coherent(s.(reactor := reactor, writes := s.writes + writes))
  {
    LayOutQueuesWrites(s, targets, around);
    StepKeeps(s, LayOut(targets, around));
  }

  // Runs.

  /** A run in which no report is four billion writes late. */
  ghost predicate Run(states: seq<System>, actions: seq<Action>)
  {
    |states| == |actions| + 1 &&
    forall i :: 0 <= i < |actions| ==>
      Enabled(states[i], actions[i]) && Timely(states[i], actions[i]) && states[i + 1] == Step(states[i], actions[i])
  }

  /** Everybody agrees on where the windows are, and nothing is under way. */
  ghost predicate Fresh(s: System)
  {
    s.writes == [] && s.notices == [] && s.reports == [] && s.refused == {} && s.app.Keys == s.reactor.windows.Keys &&
    forall wid :: wid in s.app ==> s.reactor.windows[wid] == ReactorWindow(s.app[wid].frame, s.app[wid].lastSeen)
  }

  /** Nothing is under way and nothing is left to look at. */
  predicate Quiescent(s: System)
  {
    s.writes == [] && s.notices == [] && s.reports == []
  }

  lemma {:induction false} RunsAreCoherent(states: seq<System>, actions: seq<Action>, n: nat)
    requires Run(states, actions) && Fresh(states[0]) && n < |states|
    ensures Coherent(states[n])
  {
    if n > 0 {
      RunsAreCoherent(states, actions, n - 1);
      StepKeeps(states[n - 1], actions[n - 1]);
    }
  }

  /** The app leaves the window elsewhere than the write asks, and that is not
      noticed: no notice comes of it, and none of before is still to be looked at. */
  predicate Refuses(s: System, a: Action, wid: WindowId)
  {
    a.Apply? && s.writes != [] && s.writes[0].wid == wid &&
    a.got != s.writes[0].frame && !a.noticed && wid !in s.notices
  }

  /** Something happens to the window that puts an earlier refusal out of date. */
  predicate Attends(s: System, a: Action, wid: WindowId)
  {
    (a.Apply? && s.writes != [] && s.writes[0].wid == wid) || ((a.Move? || a.Notice?) && a.wid == wid)
  }

  /** The last write applied to the window was refused unnoticed, and nothing
      was noticed of the window since. */
  ghost predicate SilentlyRefused(states: seq<System>, actions: seq<Action>, n: nat, wid: WindowId)
    requires n <= |actions| < |states|
  {
    exists k :: 0 <= k < n && Refuses(states[k], actions[k], wid) &&
                forall m :: k < m < n ==> !Attends(states[m], actions[m], wid)
  }

  lemma StepRefused(s: System, a: Action, wid: WindowId)
    requires Enabled(s, a)
    ensures wid in Step(s, a).refused <==> Refuses(s, a, wid) || (!Attends(s, a, wid) && wid in s.refused)
  {
    if a.LayOut? {
      LayOutQueuesWrites(s, a.targets, a.around);
    }
  }

  /** The record of refusals says just what happened. */
  lemma {:induction false} RefusedIs(states: seq<System>, actions: seq<Action>, n: nat, wid: WindowId)
    requires Run(states, actions) && Fresh(states[0]) && n < |states|
    ensures wid in states[n].refused <==> SilentlyRefused(states, actions, n, wid)
  {
    if n > 0 {
      RefusedIs(states, actions, n - 1, wid);
      StepRefused(states[n - 1], actions[n - 1], wid);
      if Refuses(states[n - 1], actions[n - 1], wid) {
        assert SilentlyRefused(states, actions, n, wid);
      } else if !Attends(states[n - 1], actions[n - 1], wid) {
        RefusedEarlier(states, actions, n, wid);
      }
    }
  }

  lemma RefusedEarlier(states: seq<System>, actions: seq<Action>, n: nat, wid: WindowId)
    requires 0 < n <= |actions| < |states| && !Attends(states[n - 1], actions[n - 1], wid)
    ensures SilentlyRefused(states, actions, n, wid) <==> SilentlyRefused(states, actions, n - 1, wid)
  {
    if SilentlyRefused(states, actions, n, wid) {
      var k :| 0 <= k < n && Refuses(states[k], actions[k], wid) &&
        forall m :: k < m < n ==> !Attends(states[m], actions[m], wid);
      assert Attends(states[k], actions[k], wid);
    }
  }

  /** Whenever the system comes to rest, however writes, moves and reports were
      interleaved, the reactor knows where a window is exactly unless the app
      refused the last write to it without anything being noticed since. */
  lemma FramesAgreeAtRest(states: seq<System>, actions: seq<Action>, n: nat, wid: WindowId)
    requires Run(states, actions) && Fresh(states[0]) && n < |states|
    requires Quiescent(states[n]) && wid in states[n].app
    ensures wid in states[n].reactor.windows
    ensures states[n].reactor.windows[wid].frame == states[n].app[wid].frame <==> !SilentlyRefused(states, actions, n, wid)
  {
    RunsAreCoherent(states, actions, n);
    RefusedIs(states, actions, n, wid);
    assert Tracked(View(states[n], wid));
  }

  /** An app that does as it is told, or is noticed where it does not. */
  predicate Honest(s: System, a: Action)
  {
    a.Apply? && s.writes != [] ==> a.got == s.writes[0].frame || a.noticed
  }

  /** With an app that applies writes as they are, or is noticed to do
      otherwise, the reactor knows every frame whenever the system is at rest. */
  lemma HonestAppsAgreeAtRest(states: seq<System>, actions: seq<Action>, n: nat)
    requires Run(states, actions) && Fresh(states[0]) && n < |states| && Quiescent(states[n])
    requires forall i :: 0 <= i < n ==> Honest(states[i], actions[i])
    ensures forall wid :: wid in states[n].app ==>
              wid in states[n].reactor.windows && states[n].reactor.windows[wid].frame == states[n].app[wid].frame
  {
    forall wid | wid in states[n].app
      ensures wid in states[n].reactor.windows && states[n].reactor.windows[wid].frame == states[n].app[wid].frame
    {
      assert forall k :: 0 <= k < n ==> Honest(states[k], actions[k]) && !Refuses(states[k], actions[k], wid);
      FramesAgreeAtRest(states, actions, n, wid);
    }
  }

  /** A window of fixed size refuses a write. The answer carries its frame, but
      answers do not correct the reactor, which is left with the frame it wrote. */
  lemma SilentRefusalGoesUnseen(wid: WindowId, here: Frame, there: Frame) returns (states: seq<System>, actions: seq<Action>)
    requires here != there
    ensures Run(states, actions) && Fresh(states[0]) && Quiescent(states[|actions|])
    ensures wid in states[|actions|].app && wid in states[|actions|].reactor.windows
    ensures states[|actions|].app[wid].frame == here && states[|actions|].reactor.windows[wid].frame == there
  {
    var start := System(Reactor(map[wid := ReactorWindow(here, 0)], map[], map[], None, false), map[wid := AppWindow(here, 0)], [], [], [], {});
    var targets, around := [(wid, there)], Surroundings(0, {}, {wid.pid});
    actions := [LayOut(targets, around), Apply(here, false, true), TakeReport];
    assert LayOutAll(start, targets[..0], around) == start;
    WriteOneEffect(start.reactor, wid, there, around);
    var s1 := Step(start, actions[0]);
    assert s1.writes == [SetWindowFrame(wid, there, 1)];
    var s2 := Step(s1, actions[1]);
    assert s2.reports == [WindowFrameChanged(wid, here, 1, true, None)];
    states := [start, s1, s2, Step(s2, actions[2])];
  }
}
