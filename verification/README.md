# Sugarglider's state machines, modelled and proved

Sugarglider is a tiling window manager for macOS. Under its calls to the system
sit several deterministic state machines and algorithms. This project models six
of them in Dafny and proves what they are for.

- **Frame writes.** The reactor writes frames to windows while users and apps move
  them too. Every write has a transaction id, and reports made before the last
  write are dropped. `FrameWrites` holds the single decisions, `FrameProtocol` the
  two actors with the queues between them and all interleavings, `FrameAttempts`
  how often a frame is written that an app keeps undoing, `FramePasses` what a pass
  writes and what a report says, `FrameActors` the actors as objects.
- **The size solver.** Windows share a row by weight, within minimums, maximums and
  fixed sizes. `ScrollConstraints` has the algorithm on its arrays and describes
  its outcome by one number, the level; all levels it can come to rest at give the
  same sizes. `ScrollReference`
  says what the outcome is of the windows as they are given, `ScrollGrowth` and
  `ScrollShrinks` what more space does to it.
- **Layouts per screen size.** `LayoutMapping` has the reference-counted,
  shared, copied-when-modified cache, proved to behave as what its user sees: a
  list of contents and, for each size, a place in it (`SizeMaps`).
- **The raise manager.** `RaiseSequences` has the sequencer as a state machine,
  `RaiseDelivery` and `RaiseWarps` what becomes of requests, read off the log of what
  was sent, `RaiseManager` the object, `RaiseTimer` the composition with the timer and the
  reactor that relays its timeouts.
- **The layout tree and its manager.** `LayoutForest` and `LayoutTrees` have ordered
  trees with stable ids, selections, and culling; `LayoutMoves` moving a node,
  `LayoutGoals` where that leads;
  `LayoutSync` the merge that sets an app's windows; `LayoutVisibility` what shows
  and what selecting brings to show, `LayoutShowing` the same by containers and
  selections; `SizeShares` and `ShareOutcomes` the locks on shares of the tiled area;
  `LayoutColumns` columns, `LayoutPlaces` where windows come to be in them; `LayoutReconcile` what an update of the windows on
  screen comes to. `LayoutTree` and `LayoutManager` are the objects that change in
  place, each method proved against those.
- **Space enablement.** `SpaceManager` has the actor and the two questions that are
  asked of its state, `SpaceReports` what the others hear on every run.

`dafny verify dfyconfig.toml` checks everything.

Frames, sizes and shares are real numbers, compared exactly where the program
compares floating-point numbers with a tolerance of rounding. A layout's tree is a
forest of values with node ids; the class `LayoutTreeState.LayoutTree` reassigns
it. Time, the mouse, which app threads still answer, and what apps make of a
requested frame are parameters or actions.

## What turned out not to hold

- *Frames agree at rest* fails when an app puts a window elsewhere than asked and
  nothing is noticed afterwards: the answer to a write is used for minimum sizes
  only. `FrameProtocol.FramesAgreeAtRest` has the exact condition,
  `FrameProtocol.SilentRefusalGoesUnseen` a run.
- *The reactor gives up on a window after the allowed number of writes* fails when
  a pass finds the window in place in between: it does not touch the record of
  attempts, whose next entry then comes late and starts over.
  `FrameAttempts.GivesUpExactly` has the exact condition, on the times of the
  attempts, `FrameAttempts.WritesInStretches` the number of writes at whatever
  times they are made, `FrameAttempts.PausesStartOver` runs with any number.
- *More space never makes a window smaller* fails in three ways.
  `ScrollShrinks.ShrinksExactly` has the exact condition on the windows given,
  `ScrollShrinks.ShrinksInRoomExactly` that for spaces with room for all minimums.
  With maximums a window can be held to its own after it was handed more
  (`ScrollShrinks.HeldBackShrinks`), or share the excess with one that starts to
  grow (`ScrollShrinks.UnpinnedShrinksAnother`); in any row one that had more than
  its minimum without room for all can fall back once there is room
  (`ScrollShrinks.RoomShrinksAnother`).
- *The windows fit when there is room for their minimums* fails with fixed sizes:
  `ScrollConstraints.SizesFitExactly` has the exact condition,
  `ScrollConstraints.FixedSizeOverflows` an input.
- *Every window that selecting a node surfaces is returned* fails because
  `select_locally` reports a change of the selected child only, while a group that
  is itself selected shows no child: selecting that same child again shows it
  without a reported change. `LayoutVisibility.SurfacedComplete` has the exact
  condition, `LayoutVisibility.SurfacedMissesOne` a tree.
- *Both answers about spaces agree* fails when the default changes between two
  toggles of one space. `SpaceManager.EntriesAgree` has the exact condition,
  `SpaceManager.DefaultChangeTears` a run.

## Model

| member | source | states |
|---|---|---|
| ScrollConstraints.SolveSizes | src/model/scroll_constraints.rs:19-140 | the sizes are those that one level determines, or the squeezed ones without room, for all inputs the program does not stop on, and `count + 1` passes find them; with `ScrollReference.SolvedIsReference` that is the reference's answer for the weights, bounds and gap given |
| ScrollConstraints.PinViolators | src/model/scroll_constraints.rs:63-96 | the bounded restart loop ends at a level at which exactly the windows whose share is below their minimum are pinned |
| ScrollConstraints.FindViolator | src/model/scroll_constraints.rs:74-85 | finds the first unpinned window whose share is too small, if there is one |
| ScrollConstraints.HoldToMaximums | src/model/scroll_constraints.rs:98-111 | holds windows to their maximum and adds up what that frees |
| ScrollConstraints.HandOut | src/model/scroll_constraints.rs:113-123 | the one redistribution pass, window by window |
| ScrollConstraints.PinInitially | src/model/scroll_constraints.rs:52-61 | which windows start out pinned, and at what size |
| ScrollConstraints.Finish | src/model/scroll_constraints.rs:98-140 | from the pinned sizes to the reported ones, never below one |
| ScrollConstraints.RestIsUnique | src/model/scroll_constraints.rs:63-96 | any two levels the loop can rest at give every window the same size before maximums |
| ScrollConstraints.SolvedIsUnique | src/model/scroll_constraints.rs:19-140 | the sizes are unique for every input, with maximums and fixed sizes |
| ScrollConstraints.OrderDoesNotMatter | src/model/scroll_constraints.rs:74-96 | swapping two windows swaps their sizes and changes no other, so the order in which violators are pinned does not matter |
| ScrollReference.SolvedIsReference | src/model/scroll_constraints.rs:19-140 | for all windows whose fixed sizes can be clamped, the sizes are the solver's answer if and only if there is one level and one rate such that a window of fixed size has that within its bounds, one whose share at the level is below its minimum has the minimum, one whose share is above its maximum the maximum, and any other the rate for its weight, a tenth at least; and the space between the gaps is used up at the level, and at the rate; without room, if and only if all have their share or more |
| ScrollReference.ReportIs | src/model/scroll_constraints.rs:129-139 | a window is reported as constrained just if it does not share and is within its maximum or at its minimum |
| ScrollReference.InProportion | src/model/scroll_constraints.rs:63-123 | any two windows that are at no bound of theirs have space in proportion to their weights, with room and without |
| ScrollConstraints.PinStep | src/model/scroll_constraints.rs:83-93 | pinning a violator lowers the level and keeps every pinned window one that has to be |
| ScrollConstraints.PinDone | src/model/scroll_constraints.rs:68-95 | a pass without a violator has found the level |
| ScrollConstraints.RedistributionTotal | src/model/scroll_constraints.rs:113-123 | what is handed out is what the maximums freed, if any window may take it |
| ScrollConstraints.SizesRespectMinimums | src/model/scroll_constraints.rs:19-140 | with any maximums and fixed sizes, every size is at least its minimum and at least one |
| ScrollConstraints.SizesFit | src/model/scroll_constraints.rs:49-127 | with room, also with fixed sizes, sizes and gaps fit into the space exactly when the least sizes do, and fill it when some window is neither pinned nor capped |
| ScrollConstraints.SizesFitExactly | src/model/scroll_constraints.rs:19-127 | whatever the space, sizes and gaps fit if and only if there is room for the minimums and the space is enough for the least sizes, which are the minimums and the clamped fixed sizes; without fixed sizes they fit whenever there is room |
| ScrollConstraints.FixedSizeOverflows | src/model/scroll_constraints.rs:52-61 | a window of fixed size in half the space it takes, with room for its minimum |
| ScrollConstraints.WaterFilling | src/model/scroll_constraints.rs:49-96 | without maximums and fixed sizes the sizes are a solution if and only if there is a level with every size the greater of its minimum and its share at that level, and the total is the usable space |
| ScrollGrowth.MoreSpaceNeverShrinks | src/model/scroll_constraints.rs:25-127 | without maximums, whatever the minimums and fixed sizes are, and with room both times, more space never makes a window smaller |
| ScrollShrinks.ShrinksInRoomExactly | src/model/scroll_constraints.rs:49-127 | for windows with minimums of at least one, as the callers give them, some more space makes a window smaller, with room both times, if and only if another one reaches its maximum at a lower level, or one has reached its maximum below the level at which another starts to grow while this one is growing |
| ScrollShrinks.ShrinksExactly | src/model/scroll_constraints.rs:19-127 | whether or not there is room, that or its share of the space the minimums need is more than the least size it can have |
| ScrollShrinks.ShrinksAsLaidOut | src/model/size.rs:775-864 | in a row without maximums, or of one window, which is what the layout gives the solver, only the last of these happens |
| ScrollShrinks.RoomShrinksAnother | src/model/scroll_constraints.rs:25-47 | with one unit of space more, and so with room for the minimums, a window goes from 90 to 1 |
| ScrollShrinks.UnpinnedShrinksAnother | src/model/scroll_constraints.rs:113-123 | with one unit of space more a window goes from 189 to 145, because another is no longer pinned and takes of the excess |
| ScrollShrinks.HeldBackShrinks | src/model/scroll_constraints.rs:98-123 | with the same windows pinned, a window goes from 115 to its maximum of 100 as the space grows |
| LayoutMapping.SpaceLayoutMapping.constructor | src/model/layout_mapping.rs:34-46 | a new mapping shows one layout for one size |
| LayoutMapping.SpaceLayoutMapping.ActivateSize | src/model/layout_mapping.rs:48-86 | switches size as the list of contents and places does; afterwards the kept layouts are exactly the active and the remembered ones, in their order, with exact counts, and no layout outside the mapping is touched |
| LayoutMapping.SpaceLayoutMapping.Collect | src/model/layout_mapping.rs:76-85 | removes the layouts with count zero and no others |
| LayoutMapping.SpaceLayoutMapping.SelectLayout | src/model/layout_mapping.rs:91-97 | shows the layout at its place in the list for this size, retained |
| LayoutMapping.SpaceLayoutMapping.ChangeLayoutIndex | src/model/layout_mapping.rs:107-119 | selects the layout that many places on in the list, around the end |
| LayoutMapping.SpaceLayoutMapping.PrepareModify | src/model/layout_mapping.rs:130-142 | copies the active layout exactly when some size remembers it; then no size remembers the active one, and nobody's content has changed |
| LayoutMapping.SpaceLayoutMapping.Modify | src/model/layout_mapping.rs:126-142 | an edit after that is made in place, or on the copy, which comes last in the list; for no remembered size the content changes |
| LayoutMapping.SpaceLayoutMapping.ReplaceActiveLayout | src/model/layout_mapping.rs:144-150 | shows a fresh layout in place of the active one; it comes last in the list |
| LayoutMapping.SpaceLayoutMapping.Execute | src/model/layout_mapping.rs:33-160 | any sequence of commands comes to what `SizeMaps.Next` says of contents and places, command by command; counts stay exact, and no layout outside the mapping is touched on the way |
| LayoutMapping.SaveExact | src/model/layout_mapping.rs:53-60 | saving keeps every count the number of sizes that remember the layout, plus one if it is active |
| LayoutMapping.SwitchExact | src/model/layout_mapping.rs:65-69 | so does switching the active layout |
| LayoutMapping.CollectExact | src/model/layout_mapping.rs:76-85 | after collection the listed layouts are exactly those in use |
| SizeMaps.RememberedStays | src/model/layout_mapping.rs:48-75 | on every run, what a size remembers stays while other sizes are in use, whatever is done there |
| SizeMaps.PutAwayComesBack | src/model/layout_mapping.rs:48-75 | what was retained when a size was left is what comes back with it |
| SizeMaps.ComesTo | src/model/layout_mapping.rs:48-75 | coming to a size shows what it remembers, or else what was in use; what was in use is remembered for the size left exactly if it was retained |
| SizeMaps.OnlyUsedLeft | src/model/layout_mapping.rs:76-85 | just the layouts in use are left then, in their order, and sizes that shared one still do |
| SizeMaps.OthersRemember | src/model/layout_mapping.rs:91-150 | no other command changes what any size remembers; an edit, a replacement or a selection is what shows then, and is retained |
| SizeMaps.EditAdds | src/model/layout_mapping.rs:130-142 | an edit adds a layout if and only if some size remembers the one in use; all others stay at their places |
| SizeMaps.EditsAddOne | src/model/layout_mapping.rs:126-142 | edits in a row add one layout at most, the first one if at all |
| SizeMaps.OffsetsAddUp | src/model/layout_mapping.rs:107-119 | offsets add up, around the end and back: after any of them the place is the first one plus their sum, up to whole turns |
| SizeMaps.NothingFromNowhere | src/model/layout_mapping.rs:33-160 | on every run, all that is shown, remembered or kept was there before or was given by an edit or a replacement |
| LayoutMapping.ViewIsWhole | src/model/layout_mapping.rs:33-160 | in every state of the object, the places in use and remembered are places in the list |
| RaiseManager.RaiseManager.HandleMessage | src/actor/raise.rs:149-224 | handles a message as the state machine does, to the end of the fixed-point loop; what that leads to for requests and raises is `RaiseDelivery`'s |
| RaiseManager.RaiseManager.StartNewSequence | src/actor/raise.rs:236-300 | starts a sequence: batches sent, the focused one held back |
| RaiseManager.RaiseManager.SendBatches | src/actor/raise.rs:247-287 | the loop over the batches |
| RaiseManager.RaiseManager.ProcessActiveSequence | src/actor/raise.rs:303-355 | sends the focused batch when it is due and retires a sequence that is done, and says whether it did either |
| RaiseManager.RaiseManager.ProcessQueuedResponses | src/actor/raise.rs:226-234 | starts the oldest request when nothing is active |
| RaiseManager.RaiseManager.TakeIn | src/actor/raise.rs:150-213 | what a message changes before the loop |
| RaiseManager.RaiseManager.TimerFired | src/actor/raise.rs:121-135 | marks the active sequence and sends its timeout, once |
| RaiseSequences.HandleKeeps | src/actor/raise.rs:149-224 | every message keeps: ids in the log never decrease, at most one non-quiet raise per sequence and only after all its quiet ones, with none pending and a live token; queued neighbours differ; and afterwards there is an active sequence with something pending, or none and an empty queue |
| RaiseSequences.RaisesInOrder | src/actor/raise.rs:149-355 | so on every run |
| RaiseSequences.RoundProgresses | src/actor/raise.rs:215-223 | every round of the loop that changes something makes progress, so it ends |
| RaiseSequences.StaleIsIgnored | src/actor/raise.rs:164-213 | a message for a sequence that is not active changes nothing |
| RaiseSequences.StartDeliversBatches | src/actor/raise.rs:251-287 | every batch of a reachable app is sent, but for the one with the focused window |
| RaiseSequences.StartHoldsFocusBack | src/actor/raise.rs:251-300 | the first batch with the focused window waits, with that window last |
| RaiseSequences.FocusWaits | src/actor/raise.rs:310-330 | as long as a raised window is unanswered, the focused batch is not sent |
| RaiseDelivery.HeldIsRaised | src/actor/raise.rs:303-345 | when a sequence no longer holds its last batch back, a message has raised it, just once, with its windows in order, unless its app cannot be reached; until then nothing takes the focus for it |
| RaiseDelivery.FocusIsTaken | src/actor/raise.rs:236-345 | on every run, also within one message: what takes the focus for a request is the first batch with the window to focus, that window exchanged with the last, or the window alone; raised just once where it can be, when it is no longer held back |
| RaiseDelivery.BatchesAreRaised | src/actor/raise.rs:247-287 | on every run a started request has all other batches raised whose apps can be reached, in order and once each, and waits for all of them |
| RaiseDelivery.EveryRaiseIsAskedFor | src/actor/raise.rs:236-345 | on every run each raise ever sent is one that the request of its sequence asks for |
| RaiseDelivery.RequestsInOrder | src/actor/raise.rs:150-234 | on every run requests are carried out in the order they came, none twice and none left out but for one that repeats the last one waiting |
| RaiseDelivery.AnswersCount | src/actor/raise.rs:164-223 | a message takes just the windows it answers for off those waited for; nothing else happens as long as one is left, and the sequence goes on when none is |
| RaiseDelivery.TimeoutCancels | src/actor/raise.rs:187-212 | a timeout cancels all raises sent so far for its sequence, no other message cancels any, and what is sent has a live token and goes to an app that can be reached |
| RaiseWarps.MouseFollows | src/actor/raise.rs:333-341 | the mouse is sent just where the batches that are released ask for, in order, if their app is known |
| RaiseSequences.HandleShortensLife | src/actor/raise.rs:187-212 | a timeout for a sequence brings it nearer to its end, and no message prolongs it |
| RaiseSequences.TwoTimeoutsRetire | src/actor/raise.rs:187-213 | on every run a sequence is retired by at most two of its timeouts |
| RaiseTimer.StepKeeps | src/actor/raise.rs:96-137 | manager, timer and relay: a sequence is marked as timed out exactly when one timeout with its id is under way, whatever step is taken |
| RaiseTimer.MarkMeansTimeoutUnderWay | src/actor/raise.rs:96-137 | so on every run from the start |
| RaiseTimer.TimeOutOnce | src/actor/reactor.rs:1194-1197 | an active sequence can always have a timeout delivered through the reactor without help from any app |
| RaiseTimer.NoAppBlocks | src/actor/raise.rs:187-211 | from every reachable state there is a schedule of the timer and the relay alone that retires the active sequence |
| RaiseTimer.EveryScheduleRetires | src/actor/raise.rs:96-213 | under every schedule an active sequence is gone, and stays gone, once the timer has fired and what was under way was handed on, twice, whatever is asked or reported in between and after; so no hung app blocks the queue |
| FrameActors.ReactorActor.ConsiderTarget | src/actor/reactor.rs:1739-1799 | one target: written, with the frame taken as known, unless one of the reasons not to applies |
| FrameActors.ReactorActor.UpdateLayout | src/actor/reactor.rs:1739-1799 | the loop over the targets |
| FrameActors.ReactorActor.HandleFrameChanged | src/actor/reactor.rs:693-746 | takes in a report if it is not older than the last write; an answer to a write leaves the known frame and may raise the minimum size; says whether that calls for a relayout |
| FrameActors.AppThread.HandleSetWindowFrame | src/actor/app.rs:620-633 | applies a write and remembers its id, and answers with the frame found unless writing or reading fails |
| FrameWrites.WriteOneEffect | src/actor/reactor.rs:1739-1799 | a write changes the one window's frame and id, and nothing else does |
| FrameWrites.TakeInEffect | src/actor/reactor.rs:693-746 | a report changes the one window's frame, and only if it is news |
| FrameWrites.MinimumsAreObserved | src/actor/reactor.rs:707-742 | no minimum size is left above a size the window was seen at after the last write; an answer larger than asked makes that the minimum, axis by axis; older reports and other windows teach nothing |
| FramePasses.PassWrites | src/actor/reactor.rs:1739-1799 | a pass writes just the frames of windows that are known, not in place, not being resized, not on a space that is not shown and reachable, unless five attempts at that frame followed each other within two seconds each; under the next id, in order; and it counts an attempt for each window not in place |
| FramePasses.ReportSays | src/actor/reactor.rs:694-746 | what a report changes: the known frame if it is no answer and its id is the last one sent in 32 bits; with the button down, that the window is resized if its size is another, or dragged if only its place is |
| FramePasses.ResizingIs | src/actor/reactor.rs:693-855 | on every run a window is held to be resized if and only if that was seen, and since then neither was the button let go nor another one resized |
| FramePasses.DraggingIs | src/actor/reactor.rs:866-936 | on every run a drag is under way if and only if one was seen and the button was not released since |
| FramePasses.RelayoutIs | src/actor/reactor.rs:711-746 | a report calls for a relayout exactly if it tells of another frame, or of a greater minimum than known, and no drag is under way or begins |
| FramePasses.MinimumsAre | src/actor/reactor.rs:707-742 | the minimum known after each report, to the number |
| FrameAttempts.WritesOfARun | src/actor/reactor.rs:1739-1799 | on every run whose passes give a window one target, the writes queued to it are exactly the attempts that are written, or fewer if its app cannot always be reached, whatever is reported in between |
| FrameAttempts.WritesInStretches | src/actor/reactor.rs:1739-1799 | that number, for an app that can always be reached: of each stretch of attempts that follow soon after each other at most `MAX_FRAME_ATTEMPTS` are written, or all if they are fewer; of the first stretch, less what an earlier record counts |
| FrameAttempts.GivesUp | src/actor/reactor.rs:1765-1790 | as long as each attempt follows soon after the one before, at most `MAX_FRAME_ATTEMPTS` writes are queued, whatever was recorded before and whether or not the app can be reached; an attempt is a pass that finds the window elsewhere |
| FrameAttempts.GivesUpExactly | src/actor/reactor.rs:1765-1790 | from a fresh start at most `MAX_FRAME_ATTEMPTS` writes are queued if and only if each attempt follows soon after the one before, or there are no more attempts than that |
| FrameAttempts.PausesStartOver | src/actor/reactor.rs:1762-1782 | passes that follow soon after each other do not suffice: for any number there is a run that queues that many writes, since a pass that finds the window in place touches no record |
| FrameProtocol.StepKeeps | src/actor/reactor.rs:693-746 | every step of every interleaving keeps the protocol coherent: for each window, what the reactor knows will be what it is once the writes, notices and reports under way are through, unless its last write was silently refused |
| FrameProtocol.AcceptsOnlyNews | src/actor/reactor.rs:700-706 | the reactor accepts exactly the unrequested reports made after the app saw its last write |
| FrameProtocol.LayOutQueuesWrites | src/actor/reactor.rs:1739-1799 | a pass over all targets, as the reactor makes it, puts its writes behind those under way, in order |
| FrameProtocol.UpdateLayoutKeeps | src/actor/reactor.rs:1697-1799 | coherence is kept by a whole pass of the reactor's loop |
| FrameProtocol.RunsAreCoherent | src/actor/reactor.rs:693-746 | coherence on every run |
| FrameProtocol.RefusedIs | src/actor/app.rs:620-633 | the record of refusals says just what happened on the run: the last write applied to a window left it elsewhere, unnoticed then and since |
| FrameProtocol.FramesAgreeAtRest | src/actor/reactor.rs:693-746 | with nothing under way the reactor's frame is the window's if and only if the last write applied was not refused unnoticed, whether or not writes are answered |
| FrameProtocol.HonestAppsAgreeAtRest | src/actor/app.rs:620-633 | with apps that apply writes exactly, or get noticed when they do not, all frames agree at rest |
| FrameProtocol.SilentRefusalGoesUnseen | src/actor/reactor.rs:711-742 | a run after which they do not |
| LayoutTrees.CullKeeps | src/model/layout_tree.rs:1300-1321 | cascaded culling ends, keeps every window in its place in the order, leaves no empty container but the root, and no selection of a node that is not a child |
| LayoutTrees.CullSpares | src/model/layout_tree.rs:1300-1321 | culling leaves every node outside the culled chain alone with all that is under it |
| LayoutTrees.CullForms | src/model/layout_tree.rs:1300-1321 | culling keeps ids distinct, adds none, and keeps the root |
| LayoutTrees.UnselectedPoints | src/model/selection.rs:110-119 | when a node leaves, selections point to children only |
| LayoutGoals.UnselectedIs | src/model/selection.rs:110-119 | the next child is selected then, or else the one before, or none; no other selection changes |
| LayoutGoals.CullTrims | src/model/layout_tree.rs:1300-1321 | culling leaves no container with fewer than two children: not the one that lost a child, nor the one above if that goes too |
| LayoutTrees.PlacedForms | src/model/tree.rs:371-391 | a node that moves takes all under it along, loses none and doubles none |
| LayoutMoves.TransferOrder | src/model/tree.rs:345-417 | re-inserting a node changes the place of nothing else in the order of windows, and puts it right next to its target |
| LayoutMoves.TransferIntact | src/model/tree.rs:345-417 | what is under the moved node stays as it was, culling included |
| LayoutMoves.DescendInside | src/model/layout_tree.rs:863-885 | the descent ends below the sibling, or at it when it is a leaf |
| LayoutMoves.MoveKeeps | src/model/layout_tree.rs:829-934 | a move in any direction keeps the tree sound, the moved node whole, and all other windows in their order |
| LayoutMoves.MoveKeepsWindows | src/model/layout_tree.rs:829-934 | a move keeps the multiset of windows with their nodes |
| LayoutMoves.MoveStops | src/model/layout_tree.rs:829-917 | a move is refused exactly for the root, and for the last child on that side of a root that runs that way |
| LayoutMoves.MoveLands | src/model/layout_tree.rs:850-934 | the windows beyond the moved node are exactly those beyond its goal, and no more than before: it never moves backwards |
| LayoutGoals.GoalIs | src/model/layout_tree.rs:850-917 | which node a move goes next to: past a leaf beside it, in a container that runs along the direction; in front of what the way down from a container there leads to, over selected or else first children past all that run the other way; or past the first node on the way up whose parent runs along the direction, and none exactly if there is no such node |
| LayoutGoals.MoveEndsBeside | src/model/layout_tree.rs:918-934 | after a move the node is a child of its goal's parent, right past or right in front of the goal where it went beside or below, and the container it left is trimmed |
| LayoutGoals.MoveEndsOutside | src/model/layout_tree.rs:901-934 | or a child of the new root, horizontal for left and right and vertical for up and down, with every window on its other side |
| LayoutGoals.SelectUpIs | src/model/layout_tree.rs:839-847 | selecting on the way up selects each node passed in its parent, and changes no other selection |
| LayoutGoals.UnselectedStaysSo | src/model/layout_tree.rs:836-847 | a node its parent did not select changes no selection where it goes down to |
| LayoutMoves.MoveNests | src/model/layout_tree.rs:901-917 | when there is nowhere to go under the root, the new root runs the way of the move and has the moved node right under it |
| LayoutMoves.MoveBack | src/model/layout_tree.rs:863-934 | a node that changed places with a leaf changes back when moved the other way; the tree and its selections are the same again |
| LayoutVisibility.MovedStaysSelected | src/model/layout_tree.rs:839-847 | a node that its parent selected is selected where it moves to |
| LayoutTreeState.LayoutTree.RemovedChild | src/model/layout_tree.rs:1300-1321 | the culling recursion, in place |
| LayoutTreeState.LayoutTree.InsertBeside | src/model/tree.rs:345-417 | detaching, re-inserting, and then culling the old parent |
| LayoutTreeState.LayoutTree.Deselect | src/model/selection.rs:110-119 | the next, or else the previous, sibling is selected |
| LayoutTreeState.LayoutTree.FindBelow | src/model/layout_tree.rs:864-877 | the loop down the sibling |
| LayoutTreeState.LayoutTree.FindAbove | src/model/layout_tree.rs:887-897 | the search up the ancestors |
| LayoutTreeState.LayoutTree.MoveNodeInner | src/model/layout_tree.rs:850-934 | one move, in place |
| LayoutTreeState.LayoutTree.MoveNode | src/model/layout_tree.rs:829-848 | says whether the node moved; if not the tree is unchanged, and if so only that node moved |
| LayoutTreeState.LayoutTree.SetWindows | src/model/layout_tree.rs:320-359 | the merge loop, in place |
| LayoutSync.WindowsAsDesired | src/model/layout_tree.rs:320-359 | afterwards the app has exactly the desired windows, each as often as desired |
| LayoutSync.OthersUntouched | src/model/layout_tree.rs:320-359 | other apps' windows stay at their nodes and in their order, whatever is culled |
| LayoutSync.MostNodesStay | src/model/layout_tree.rs:338-358 | only surplus nodes are removed, so a greatest set of nodes stays; the rest keep their order and new ones come last |
| LayoutSync.MergeBalance | src/model/layout_tree.rs:338-358 | what is there and what is added is what is desired and what is removed |
| LayoutSync.MergeKeepsMost | src/model/layout_tree.rs:338-358 | no window is both added and removed |
| LayoutSync.SyncLeaves | src/model/layout_tree.rs:320-359 | the exact windows, nodes and order after the merge, and that the tree stays sound |
| LayoutSync.WindowRemovedSound | src/model/tree.rs:363-369 | removing a window takes out just that window |
| LayoutPlaces.RemovedTrims | src/model/layout_tree.rs:1300-1321 | and leaves no container above with fewer than two children |
| LayoutPlaces.NewWindowsAtRoot | src/model/layout_tree.rs:320-359 | windows that are added come last, each under the root, by app and number |
| LayoutVisibility.VisibleWindowsUnder | src/model/layout_tree.rs:789-801 | the stack walk visits every visible node once and no other, and lists their windows |
| LayoutVisibility.CheckVisible | src/model/layout_tree.rs:803-813 | the check from the node up |
| LayoutVisibility.BothWays | src/model/layout_tree.rs:789-813 | under any node, looking down and looking up agree |
| LayoutVisibility.VisibleAgrees | src/model/layout_tree.rs:789-813 | a layout's root shows exactly the nodes that are visible |
| LayoutShowing.VisibleIs | src/model/layout_tree.rs:803-813 | a node is visible exactly if every tabbed or stacked container above it selects the child on the way, and is not selected itself |
| LayoutTreeState.LayoutTree.SelectReturningSurfaced | src/model/layout_tree.rs:775-787 | selects all the way up, and returns the windows that show under the highest node reported as revealed, each once |
| LayoutVisibility.ReturnedShow | src/model/layout_tree.rs:775-787 | every returned window shows from the root afterwards |
| LayoutVisibility.SurfacesUnderTop | src/model/layout_tree.rs:775-787 | what comes to show is what then shows under the highest node on the way up that was hidden |
| LayoutShowing.SelectingIs | src/model/selection.rs:49-64 | selecting a node selects each node on the way up in its parent, and changes no other selection |
| LayoutShowing.ReturnedIs | src/model/layout_tree.rs:775-801 | what is returned is what then shows under the highest node on the way up that a tabbed or stacked parent had not as its child selected, or else under the node |
| LayoutVisibility.SurfacedComplete | src/model/layout_tree.rs:775-787 | all of that is returned if and only if nothing on the way up was hidden, or no window showed beside the way up between the revealed node and that one |
| LayoutVisibility.SurfacedMissesOne | src/model/selection.rs:38-64 | a tree in which a window comes to show and is not returned |
| SizeShares.EstateBothWays | src/model/layout_tree.rs:477-487 | the estate found from a window up is the first group from the root down, or the window |
| SizeShares.EstateOfOthers | src/model/layout_tree.rs:477-487 | every node in an estate has that estate |
| SizeShares.LockedShareTotal | src/model/layout_tree.rs:620-636 | the loop over the windows counts every estate once: it comes to the sum over the outermost groups and ungrouped windows |
| SizeShares.SumIsTotal | src/model/layout_tree.rs:620-636 | the same for the sum it is |
| SizeShares.TotalAfter | src/actor/layout.rs:1485-1516 | setting a share changes the total by the new share less what the estate held |
| SizeShares.SetShareLocal | src/actor/layout.rs:1476-1516 | applied and released shares change locks in the focused estate only; a rejected one changes none |
| SizeShares.AppliedShows | src/actor/layout.rs:1476-1516 | an applied share is the lock the estate then has; a released estate has none |
| ShareOutcomes.EstateIsOutermost | src/model/layout_tree.rs:477-487 | the estate is the highest tabbed or stacked node on the way up, or the node itself |
| ShareOutcomes.EstateLockIsGreatest | src/model/layout_tree.rs:489-498 | its lock is the greatest lock of a window in it, and none just if no window has one |
| ShareOutcomes.OutcomeIs | src/actor/layout.rs:1478-1516 | released exactly if the estate holds that share, to a millionth; refused exactly if it does not, all locks with it in place of what the estate holds are more than `1 + 1e-9`, and that is to be refused; applied in all other cases |
| ShareOutcomes.FittingIsNotRefused | src/actor/layout.rs:1496-1503 | a share that fits next to the other estates' locks is never refused, also in place of another one |
| ShareOutcomes.CommandIs | src/actor/layout.rs:1403-1424 | the command sets a share between nothing and all, given as such or as one part in so many, for the focused window of the layout, and does nothing otherwise |
| SizeShares.TwiceRestores | src/actor/layout.rs:1485-1495 | one share given twice to an unlocked estate restores all locks |
| SizeShares.LocksAlwaysFit | src/actor/layout.rs:1403-1516 | with overflow rejected, on every run of commands from no locks the total is at most `1 + 1e-9` |
| LayoutTreeState.LayoutTree.FindEstate | src/model/layout_tree.rs:477-487 | the loop over the ancestors |
| LayoutTreeState.LayoutTree.ClearEstateLock | src/model/layout_tree.rs:516-535 | clears the locks of the estate's windows, and says whether there were any |
| LayoutTreeState.LayoutTree.ClearFullscreenFor | src/model/layout_tree.rs:590-597 | the loop up the ancestors takes the flag from the node and exactly the nodes above it |
| LayoutTreeState.WayUpIsPath | src/model/layout_tree.rs:590-597 | the nodes that loop reaches are the node and exactly those it is under |
| LayoutTreeState.LayoutTree.SetSizeShare | src/actor/layout.rs:1476-1516 | applies, releases or refuses a share, in place; an applied one takes the fullscreen flag from the node and all above it |
| LayoutColumns.ReorderColumns | src/model/layout_tree.rs:172-178 | detaching every column in turn and putting it last leaves them in the wanted order |
| LayoutColumns.ColumnsInOrder | src/actor/layout.rs:1536-1570 | the columns are the same and go from left to right by their first window |
| LayoutColumns.ByPositionSound | src/actor/layout.rs:1536-1570 | reordering keeps the tree sound, every node and every window |
| LayoutPlaces.ColumnsGoLeftToRight | src/actor/layout.rs:1536-1570 | if it is known of all columns where their first window is they go from left to right, those at one place in the order they were in; otherwise nothing changes |
| LayoutTreeState.LayoutTree.ReorderByPosition | src/actor/layout.rs:1536-1570 | nothing happens unless all positions are known |
| LayoutColumns.AddScrollingSound | src/model/layout_tree.rs:115-158 | adding a window to a scroll layout keeps the tree sound and adds just that window |
| LayoutPlaces.NewWindowPlace | src/model/layout_tree.rs:115-158 | the new window is in a column of its own right behind the one the selected node is in, or at the end if none is selected; or right behind the selected node |
| LayoutTreeState.LayoutTree.AddToScroll | src/model/layout_tree.rs:115-158 | in a column of its own or behind the selected node, in place |
| LayoutManagerState.LayoutManager.WindowsOnScreenUpdated | src/actor/layout.rs:776-856 | afterwards every window of the app is floating, tiled or neither as its listing, its state before and its class have it, a tiled one at as many nodes as it is listed; other apps' windows stay at their nodes; the active floating windows of the app are exactly the listed ones that float; and the columns go from left to right if a window came in, and are left in their order if none did |
| LayoutManagerState.LayoutManager.Sift | src/actor/layout.rs:803-832 | the filter that sorts the listed windows |
| LayoutManagerState.LayoutManager.UpdateTree | src/actor/layout.rs:833-852 | the tree then holds the windows that are tiled and those that are added, and no change to other apps |
| LayoutManagerState.LayoutManager.AddFloating | src/actor/layout.rs:1580-1585 | notes windows as floating on the space |
| LayoutReconcile.ListedIsOneOf | src/actor/layout.rs:803-855 | a listed window is floating or tiled, never both, or is an untracked one that was neither |
| LayoutReconcile.TiledOnce | src/actor/layout.rs:833-852 | where no window is listed twice, each tiled window of the app is at exactly one node |
| LayoutReconcile.SecondUpdateSettles | src/actor/layout.rs:776-856 | after another update with the same list every window of the app is at as many nodes as before, floats if it did, and the active set, the frames and the focus are the same |
| LayoutReconcile.FramesStay | src/actor/layout.rs:788-794 | frames to restore are never overwritten |
| LayoutReconcile.FramesAre | src/actor/layout.rs:783-794 | the frames remembered are those of before, and of the windows listed for the first time those at their leftmost mention |
| LayoutReconcile.FocusIs | src/actor/layout.rs:795-797 | the last floating focus is forgotten exactly if it is the app's and not listed |
| LayoutReconcile.KindIs | src/actor/layout.rs:795-813 | the class of a window listed more than once is that of its rightmost mention |
| SpaceManager.EntriesAgree | src/actor/space_manager.rs:254-315 | an entry of the active spaces is a space if and only if that is the current space there, it is active, and it was not both enabled and disabled by hand |
| SpaceManager.RunsAgree | src/actor/space_manager.rs:119-315 | on every run on which the default does not change, both answers agree |
| SpaceManager.DefaultChangeTears | src/actor/space_manager.rs:254-315 | a run after which they differ |
| SpaceManager.TogglesOne | src/actor/space_manager.rs:254-275 | a toggle switches one space and no other, and two restore the state |
| SpaceManager.HotkeysFollow | src/actor/space_manager.rs:321-337 | on every run hotkeys are on exactly when a managed space may be in front, and the last message sent about them says so |
| SpaceReports.ReactorHears | src/actor/space_manager.rs:119-204 | on every run, whenever the reactor is told of spaces it is told, for each current one, that one exactly if it may be managed: on every change of screens, and on every change of spaces unless expose is on, and at no other event; and whoever is told whether the focused space is active is told so |
| SpaceReports.RunRemembers | src/actor/space_manager.rs:119-241 | on every run the current spaces, the default and the login state are those told last, and the space started on is the first one told |
| SpaceReports.TogglesRight | src/actor/space_manager.rs:155-165 | a toggle switches just the space on that screen, or the focused one, or else the first, and tells of it; without one nothing happens |
| SpaceReports.GlobalTells | src/actor/space_manager.rs:206-232 | the global switch enables all current spaces or none if spaces are disabled by default, and tells of it; setting it to what it is does nothing |
| SpaceReports.FlagsTell | src/actor/space_manager.rs:149-202 | all that the other events change and tell |
| SpaceReports.HotkeysAtAnyTime | src/actor/space_manager.rs:321-330 | on every run hotkeys are on exactly if there was a first space, and if the program keeps to one space that is in front |
| SpaceManager.Actor.OnEvent | src/actor/space_manager.rs:119-204 | handles every event, with all messages sent, to the reactor, the status item, the mouse and the indicators, in their order |
| SpaceManager.Actor.ListActiveSpaces | src/actor/space_manager.rs:277-296 | the loop that puts out entries |
| SpaceManager.Actor.SwitchGlobally | src/actor/space_manager.rs:206-232 | the global switch, with what it announces |

## Left out

- All calls to the system, threads, logging, files, configuration parsing, window rule matching, the UI and the command line; only the messages between actors are kept.
- Frame animations: every write is one that sets the frame at once.
- `update_complete_window_server_info`, which overwrites known frames from snapshots, and all other events that set them.
- FrameActors.ReactorActor.HandleFrameChanged: the relayout it calls for is reported as a flag; the title bar preview, the change of a window's screen, the release of a size share when the user resizes, and the layout's own handling of the new frame are not followed.
- Several apps at once in `FrameProtocol`: one app thread with any number of windows. A window's frames only depend on its own app's thread and queues.
- Apps and windows that come and go while frames are written; a notice after which the frame cannot be read, and so is not reported.
- FrameProtocol.StepKeeps: transaction ids are compared modulo 2^32 as they wrap; runs in which a report is four billion writes late are excluded.
- Rounding: reals instead of floating-point numbers everywhere, so `same_as` is equality, and targets come rounded to pixels.
- ScrollShrinks.ShrinksExactly: for windows with minimums below one, which no caller gives, nothing is said; the floor of one then hides changes.
- Widths of counters and of the index arithmetic in `change_layout_index` (16 bits) and in reference counts.
- Weights, proportions and pixel geometry; with them `toggle_size_lock`, which needs the current share. Of the fullscreen flags, only that an applied share clears them.
- LayoutTreeState.LayoutTree.ClearEstateLock: when a user resizes by hand the lock is first baked into the stored weights, which are not modelled.
- Node links (`parent`, `next_sibling` and so on in `src/model/tree.rs`): a forest is a value, so that the links agree with each other is not shown.
- Several layouts in one tree: the tree operations act on one layout's root; `convert_layout_kind`, which takes windows out of every layout, is not modelled.
- Structural commands other than moving: splitting, grouping, dragging and swapping windows.
- LayoutTreeState.LayoutTree.SetWindows: ids may be skipped, since a node's id says nothing but that it is new; the order of nodes with the same window is that of their ids.
- Selections in layouts saved from other sessions, which may not be children of their containers.
- LayoutManagerState.LayoutManager.WindowsOnScreenUpdated: the layout of the space is the one the mapping has active; viewports and focus of new windows are not followed.
- SpaceManager.Actor.OnEvent: frames of screens, and the reactor events and commands that are passed on unread, are plain numbers; scale factors, the list of windows on screen and the coordinate converter, which go along with them, are left out.
