/** The two ends of the frame protocol: the reactor (`src/actor/reactor.rs`),
    which writes frames and takes in reports, and the thread of an app
    (`src/actor/app.rs`), which applies the writes and sends the reports. */
module FrameWrites {
  import opened Options
  import opened Reals
  import opened Windows

  datatype Frame = Frame(x: real, y: real, width: real, height: real)
  {
    predicate SameSize(other: Frame) { width == other.width && height == other.height }
  }

  datatype MouseState = Up | Down

  /** Transaction ids are 32 bits wide. Ids are counted without bound here and
      compared by what is left of them in 32 bits. */
  type TransactionId = nat

  const TXID_RANGE: nat := 0x1_0000_0000

  predicate SameTxid(a: TransactionId, b: TransactionId)
  {
    a % TXID_RANGE == b % TXID_RANGE
  }

  datatype Write = SetWindowFrame(wid: WindowId, frame: Frame, txid: TransactionId)

  /** A report of a window's frame; `requested` when it answers a write. */
  datatype Report = WindowFrameChanged(wid: WindowId, frame: Frame, lastSeen: TransactionId, requested: bool, mouse: Option<MouseState>)

  // The reactor.

  datatype ReactorWindow = ReactorWindow(frame: Frame, lastSent: TransactionId)

  /** Recent attempts to write a frame; times are in milliseconds. */
  datatype FrameAttempt = FrameAttempt(target: Frame, count: nat, last: int)

  const MAX_FRAME_ATTEMPTS: nat := 5
  const FRAME_ATTEMPT_RESET: int := 2000
  const MAX_COUNT: nat := 0xFFFF_FFFF

  /** The least width and height a window was seen to accept; zero where nothing is known. */
  datatype MinSize = MinSize(width: real, height: real)

  const MIN_SIZE_EPSILON: real := 1.0

  datatype Reactor = Reactor(windows: map<WindowId, ReactorWindow>, attempts: map<WindowId, FrameAttempt>,
                             minSizes: map<WindowId, MinSize>, resizing: Option<WindowId>, inDrag: bool)

  /** What the reactor knows when it lays out windows: the time, the windows on
      spaces that are not shown, and the apps that can be reached. */
  datatype Surroundings = Surroundings(now: int, elsewhere: set<WindowId>, apps: set<int>)

  /** The attempt a write of `target` counts as. */
  function Attempted(before: Option<FrameAttempt>, target: Frame, now: int): FrameAttempt
  {
    var attempt :=
      if before.Some? && before.value.target == target && now - before.value.last <= FRAME_ATTEMPT_RESET then before.value
      else FrameAttempt(target, 0, now);
    FrameAttempt(target, if attempt.count < MAX_COUNT then attempt.count + 1 else attempt.count, now)
  }

  function AttemptFor(r: Reactor, wid: WindowId): Option<FrameAttempt>
  {
    if wid in r.attempts then Some(r.attempts[wid]) else None
  }

  /** Whether the layout has anything to correct on a window. */
  predicate Wants(r: Reactor, wid: WindowId, target: Frame, around: Surroundings)
  {
    r.resizing != Some(wid) && wid !in around.elsewhere && wid in r.windows && target != r.windows[wid].frame
  }

  /** Whether the correction is written, and not given up. */
  predicate Writes(r: Reactor, wid: WindowId, target: Frame, around: Surroundings)
  {
    Wants(r, wid, target, around) && wid.pid in around.apps &&
    Attempted(AttemptFor(r, wid), target, around.now).count <= MAX_FRAME_ATTEMPTS
  }

  /** The reactor after it considered one target, and the write it sent, if any. */
  function WriteOne(r: Reactor, wid: WindowId, target: Frame, around: Surroundings): (Reactor, seq<Write>)
  {
    if !Wants(r, wid, target, around) then (r, [])
    else
      var tried := r.(attempts := r.attempts[wid := Attempted(AttemptFor(r, wid), target, around.now)]);
      if !Writes(r, wid, target, around) then (tried, [])
      else
        var txid := r.windows[wid].lastSent + 1;
        (tried.(windows := r.windows[wid := ReactorWindow(target, txid)]), [SetWindowFrame(wid, target, txid)])
  }

  function WriteAll(r: Reactor, targets: seq<(WindowId, Frame)>, around: Surroundings): (Reactor, seq<Write>)
  {
    if targets == [] then (r, [])
    else
      var n := |targets| - 1;
      var before := WriteAll(r, targets[..n], around);
      var after := WriteOne(before.0, targets[n].0, targets[n].1, around);
      (after.0, before.1 + after.1)
  }

  /** Whether a report was made after the last write. */
  predicate Current(r: Reactor, e: Report)
    requires e.wid in r.windows
  {
    SameTxid(e.lastSeen, r.windows[e.wid].lastSent)
  }

  /** Whether a report tells of a frame the reactor does not know yet. */
  predicate Accepts(r: Reactor, e: Report)
    requires e.wid in r.windows
  {
    Current(r, e) && !e.requested
  }

  // Minimum sizes.

  /** A window this size has no greater minimum. */
  function Relaxed(sizes: map<WindowId, MinSize>, wid: WindowId, frame: Frame): map<WindowId, MinSize>
  {
    if wid !in sizes then sizes
    else sizes[wid := MinSize(Min(sizes[wid].width, frame.width), Min(sizes[wid].height, frame.height))]
  }

  /** What an answer says of the minimum: on an axis that came back larger than
      asked, it is what came back. */
  function Refused(asked: Frame, got: Frame): MinSize
  {
    MinSize(if asked.width + MIN_SIZE_EPSILON < got.width then got.width else 0.0,
            if asked.height + MIN_SIZE_EPSILON < got.height then got.height else 0.0)
  }

  function NotedFor(sizes: map<WindowId, MinSize>, wid: WindowId, size: MinSize): map<WindowId, MinSize>
  {
    var known := if wid in sizes then sizes[wid] else MinSize(0.0, 0.0);
    sizes[wid := MinSize(Max(known.width, size.width), Max(known.height, size.height))]
  }

  /** The minimum sizes after a report. */
  function Learned(r: Reactor, e: Report): map<WindowId, MinSize>
    requires e.wid in r.windows
  {
    if !Current(r, e) then r.minSizes
    else
      var relaxed := Relaxed(r.minSizes, e.wid, e.frame);
      var refused := Refused(r.windows[e.wid].frame, e.frame);
      if e.requested && (0.0 < refused.width || 0.0 < refused.height) then NotedFor(relaxed, e.wid, refused) else relaxed
  }

  /** What a moved window says of the mouse: that it is being resized, or dragged. */
  function Followed(r: Reactor, e: Report, known: Frame): Reactor
  {
    if e.frame == known || e.mouse != Some(Down) then r
    else if !e.frame.SameSize(known) then r.(resizing := Some(e.wid))
    else r.(inDrag := true)
  }

  function TakeIn(r: Reactor, e: Report): Reactor
    requires e.wid in r.windows
  {
    var released := r.(resizing := if e.mouse == Some(Up) then None else r.resizing, minSizes := Learned(r, e));
    if !Accepts(r, e) then released
    else
      var known := r.windows[e.wid];
      Followed(released.(windows := r.windows[e.wid := known.(frame := e.frame)]), e, known.frame)
  }

  /** Whether a report calls for the layout to be brought up to date: a frame
      the reactor did not know, or a greater minimum, unless a drag is under way. */
  predicate Relayouts(r: Reactor, e: Report)
    requires e.wid in r.windows
  {
    !TakeIn(r, e).inDrag && Current(r, e) &&
    if e.requested then Learned(r, e) != Relaxed(r.minSizes, e.wid, e.frame)
    else e.frame != r.windows[e.wid].frame
  }

  /** A report made after the last write leaves no minimum above the size it
      tells of, and an answer that came back larger than asked makes that the
      minimum. Other reports, and other windows, teach nothing. */
  lemma MinimumsAreObserved(r: Reactor, e: Report, wid: WindowId)
    requires e.wid in r.windows && 0.0 <= e.frame.width && 0.0 <= e.frame.height
    requires 0.0 <= r.windows[e.wid].frame.width && 0.0 <= r.windows[e.wid].frame.height
    ensures var asked, sizes := r.windows[e.wid].frame, TakeIn(r, e).minSizes;
            if wid != e.wid || !Current(r, e)
            then (wid in sizes <==> wid in r.minSizes) && (wid in sizes ==> sizes[wid] == r.minSizes[wid])
            else
              (wid in sizes ==> sizes[wid].width <= e.frame.width && sizes[wid].height <= e.frame.height) &&
              (e.requested && asked.width + MIN_SIZE_EPSILON < e.frame.width ==>
                 wid in sizes && sizes[wid].width == e.frame.width) &&
              (e.requested && asked.height + MIN_SIZE_EPSILON < e.frame.height ==>
                 wid in sizes && sizes[wid].height == e.frame.height)
  {
  }

  /** Every write goes to a window nobody is resizing, under the next id, and is
      what the reactor takes the window's frame to be from then on. */
  lemma WriteOneEffect(r: Reactor, wid: WindowId, target: Frame, around: Surroundings)
    ensures var (after, writes) := WriteOne(r, wid, target, around);
            after.resizing == r.resizing && after.inDrag == r.inDrag && after.windows.Keys == r.windows.Keys &&
            (forall w :: w in r.windows && w != wid ==> after.windows[w] == r.windows[w]) &&
            if Writes(r, wid, target, around)
            then writes == [SetWindowFrame(wid, target, r.windows[wid].lastSent + 1)] && r.resizing != Some(wid) &&
                 after.windows[wid] == ReactorWindow(target, r.windows[wid].lastSent + 1)
            else writes == [] && after.windows == r.windows
  {
  }

  lemma FollowedKeeps(r: Reactor, e: Report, known: Frame)
    ensures Followed(r, e, known).windows == r.windows && Followed(r, e, known).attempts == r.attempts
    ensures Followed(r, e, known).minSizes == r.minSizes
  {
  }

  /** An accepted report is where the window is from then on; any other report
      leaves the windows as they are. */
  lemma TakeInEffect(r: Reactor, e: Report)
    requires e.wid in r.windows
    ensures TakeIn(r, e).windows == if Accepts(r, e) then r.windows[e.wid := r.windows[e.wid].(frame := e.frame)] else r.windows
    ensures TakeIn(r, e).attempts == r.attempts
  {
    var released := r.(resizing := if e.mouse == Some(Up) then None else r.resizing, minSizes := Learned(r, e));
    var known := r.windows[e.wid];
    FollowedKeeps(released.(windows := r.windows[e.wid := known.(frame := e.frame)]), e, known.frame);
  }

  // The app thread.

  /** A window as its app has it: where it really is, and the last write seen. */
  datatype AppWindow = AppWindow(frame: Frame, lastSeen: TransactionId)

  /** A write has been applied and left the window at `got`. */
  function Applied(windows: map<WindowId, AppWindow>, w: Write, got: Frame): map<WindowId, AppWindow>
    requires w.wid in windows
  {
    windows[w.wid := AppWindow(got, w.txid)]
  }

  function Answer(w: Write, got: Frame): Report
  {
    WindowFrameChanged(w.wid, got, w.txid, true, None)
  }

  /** What is reported when a window is noticed to have moved. */
  function Noticed(windows: map<WindowId, AppWindow>, wid: WindowId, mouse: MouseState): Report
    requires wid in windows
  {
    WindowFrameChanged(wid, windows[wid].frame, windows[wid].lastSeen, false, Some(mouse))
  }
}
