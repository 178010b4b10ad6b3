/** Which spaces are managed (`src/actor/space_manager.rs`). Two questions are
    asked of one state: which of the current spaces the reactor should manage,
    and whether one space is active. */
module SpaceManager {
  import opened Options
  import opened Windows

  type Screen = int

  datatype State = State(
    oneSpace: bool, defaultDisable: bool,
    starting: Option<Space>, current: seq<Option<Space>>, screens: seq<Screen>,
    disabled: set<Space>, enabled: set<Space>,
    focused: Option<Screen>, login: bool, expose: bool, globally: bool, hotkeys: bool)

  /** Frames of screens, and what is passed on unread, are numbers here. */
  datatype Event =
    | ScreensChanged(screens: seq<Screen>, frames: seq<int>, spaces: seq<Option<Space>>)
    | SpacesChanged(spaces: seq<Option<Space>>)
    | FocusedScreenChanged(screen: Screen)
    | ToggleFocusedSpace
    | ToggleSpace(screen: Screen)
    | ToggleGlobalEnabled
    | SetGlobalEnabled(value: bool)
    | LoginWindowActive(value: bool)
    | ExposeActive(value: bool)
    | ConfigUpdated(defaultDisable: bool)
    | ReactorEvent(content: int)
    | ReactorCommand(content: int)

  /** What other actors are told. */
  datatype Message =
    | ReactorSpaces(spaces: seq<Option<Space>>)
    | ReactorScreens(frames: seq<int>, spaces: seq<Option<Space>>)
    | PassedOn(content: int)
    | CommandPassedOn(content: int)
    | ConfigChanged(defaultDisable: bool)
    | StatusSpaces(spaces: seq<Option<Space>>)
    | MouseScreens(frames: seq<int>)
    | SpaceEnabled(value: bool)
    | GlobalEnabled(value: bool)
    | GlobalDisabled
    | SpaceDisabled(space: Space)
    | Hotkeys(value: bool)
    | RefreshSpaces

  // The two questions.

  predicate IsSpaceEnabled(s: State, space: Space)
  {
    if s.defaultDisable then space in s.enabled else space !in s.disabled
  }

  predicate IsSpaceActive(s: State, space: Space)
  {
    s.globally && !s.login && (!s.oneSpace || s.starting == Some(space)) && IsSpaceEnabled(s, space)
  }

  /** Whether an entry of the current spaces is kept. */
  predicate Keeps(s: State, entry: Option<Space>)
  {
    if s.login then false
    else if entry.Some? && s.oneSpace && entry != s.starting then false
    else if entry.Some? && entry.value in s.disabled then false
    else if entry.Some? && entry.value in s.enabled then true
    else !s.defaultDisable
  }

  function Filtered(s: State, spaces: seq<Option<Space>>): (kept: seq<Option<Space>>)
    ensures |kept| == |spaces|
    ensures forall i :: 0 <= i < |spaces| ==> kept[i] == if s.globally && Keeps(s, spaces[i]) then spaces[i] else None
  {
    if spaces == [] then []
    else [if s.globally && Keeps(s, spaces[0]) then spaces[0] else None] + Filtered(s, spaces[1..])
  }

  function ActiveSpaces(s: State): seq<Option<Space>>
  {
    Filtered(s, s.current)
  }

  /** The one thing the two answers can differ on. */
  predicate Torn(s: State, space: Space)
  {
    s.globally && !s.login && (!s.oneSpace || s.starting == Some(space)) &&
    s.defaultDisable && space in s.enabled && space in s.disabled
  }

  /** An entry of the active spaces is a space exactly when that is the current
      space there and it is active, and was not both enabled and disabled by hand. */
  lemma EntriesAgree(s: State, i: nat, space: Space)
    requires i < |s.current|
    ensures ActiveSpaces(s)[i] == Some(space) <==>
            s.current[i] == Some(space) && IsSpaceActive(s, space) && !Torn(s, space)
    ensures Torn(s, space) ==> IsSpaceActive(s, space)
  {
  }

  // Events.

  function First(s: State): Option<Space>
  {
    if s.current == [] then None else s.current[0]
  }

  function SpaceForScreen(screens: seq<Screen>, spaces: seq<Option<Space>>, screen: Screen): Option<Space>
  {
    if screens == [] || spaces == [] then None
    else if screens[0] == screen then spaces[0]
    else SpaceForScreen(screens[1..], spaces[1..], screen)
  }

  function FocusedSpace(s: State): Option<Space>
  {
    var space := if s.focused.Some? then SpaceForScreen(s.screens, s.current, s.focused.value) else None;
    if space.Some? then space else First(s)
  }

  function StatusOf(s: State): Message
  {
    SpaceEnabled(FocusedSpace(s).Some? && IsSpaceActive(s, FocusedSpace(s).value))
  }

  function Present(spaces: seq<Option<Space>>): seq<Space>
  {
    if spaces == [] then []
    else (if spaces[0].Some? then [spaces[0].value] else []) + Present(spaces[1..])
  }

  function Disabling(spaces: seq<Space>): seq<Message>
  {
    if spaces == [] then [] else [SpaceDisabled(spaces[0])] + Disabling(spaces[1..])
  }

  function SetGlobal(s: State, value: bool): (State, seq<Message>)
  {
    if s.globally == value then (s, [])
    else if value then
      var s' := s.(globally := true, enabled := if s.defaultDisable then s.enabled + (set x <- Present(s.current)) else s.enabled);
      (s', [GlobalEnabled(true), StatusOf(s'), RefreshSpaces])
    else
      var s' := s.(globally := false, enabled := if s.defaultDisable then {} else s.enabled);
      (s', [GlobalDisabled] + (if s.defaultDisable then Disabling(Present(s.current)) else []) +
           [GlobalEnabled(false), StatusOf(s'), RefreshSpaces])
  }

  function Flip(spaces: set<Space>, space: Space): set<Space>
  {
    if space in spaces then spaces - {space} else spaces + {space}
  }

  function Toggle(s: State, space: Space): State
  {
    if s.defaultDisable then s.(enabled := Flip(s.enabled, space)) else s.(disabled := Flip(s.disabled, space))
  }

  function Toggled(s: State, space: Space): (State, seq<Message>)
  {
    var s' := Toggle(s, space);
    (s', (if IsSpaceEnabled(s', space) then [] else [SpaceDisabled(space)]) + [StatusOf(s'), RefreshSpaces])
  }

  function WithSpaces(s: State, spaces: seq<Option<Space>>): (State, seq<Message>)
  {
    var s1 := s.(current := spaces);
    var s2 := if s1.starting.None? then s1.(starting := First(s1)) else s1;
    var active := s2.starting.Some? && (!s2.oneSpace || s2.starting == First(s2));
    if active != s2.hotkeys then (s2.(hotkeys := active), [Hotkeys(active)]) else (s2, [])
  }

  function Handle(s: State, e: Event): (State, seq<Message>)
  {
    match e
    case ScreensChanged(screens, frames, spaces) =>
      var (s', told) := WithSpaces(s.(screens := screens), spaces);
      (s', told + [ReactorScreens(frames, ActiveSpaces(s')), StatusSpaces(spaces), StatusOf(s'), MouseScreens(frames)])
    case SpacesChanged(spaces) =>
      var (s', told) := WithSpaces(s, spaces);
      (s', told + (if s'.expose then [] else [ReactorSpaces(ActiveSpaces(s'))]) + [StatusSpaces(spaces), StatusOf(s')])
    case FocusedScreenChanged(screen) =>
      var s' := s.(focused := Some(screen));
      (s', [StatusOf(s')])
    case ToggleFocusedSpace =>
      if FocusedSpace(s).Some? then Toggled(s, FocusedSpace(s).value) else (s, [])
    case ToggleSpace(screen) =>
      var space := SpaceForScreen(s.screens, s.current, screen);
      if space.Some? then Toggled(s, space.value) else (s, [])
    case ToggleGlobalEnabled => SetGlobal(s, !s.globally)
    case SetGlobalEnabled(value) => SetGlobal(s, value)
    case LoginWindowActive(value) => (s.(login := value), [RefreshSpaces])
    case ExposeActive(value) => (s.(expose := value), if value then [] else [RefreshSpaces])
    case ConfigUpdated(defaultDisable) =>
      var s' := s.(defaultDisable := defaultDisable);
      (s', [ConfigChanged(defaultDisable), Hotkeys(s'.hotkeys), StatusOf(s'), RefreshSpaces])
    case ReactorEvent(content) => (s, [PassedOn(content)])
    case ReactorCommand(content) => (s, [CommandPassedOn(content)])
  }

  function Start(oneSpace: bool, defaultDisable: bool): State
  {
    State(oneSpace, defaultDisable, None, [], [], {}, {}, None, false, false, true, false)
  }

  function Run(s: State, es: seq<Event>): (State, seq<Message>)
    decreases |es|
  {
    if es == [] then (s, [])
    else
      var (s1, told) := Handle(s, es[0]);
      var (s2, more) := Run(s1, es[1..]);
      (s2, told + more)
  }

  // Runs.

  /** The default does not change. */
  predicate KeepsDefault(es: seq<Event>, defaultDisable: bool)
  {
    forall e <- es :: e.ConfigUpdated? ==> e.defaultDisable == defaultDisable
  }

  /** Only the exceptions from the default are recorded. */
  predicate Whole(s: State)
  {
    if s.defaultDisable then s.disabled == {} else s.enabled == {}
  }

  lemma SetGlobalKeepsWhole(s: State, value: bool)
    requires Whole(s)
    ensures Whole(SetGlobal(s, value).0) && SetGlobal(s, value).0.defaultDisable == s.defaultDisable
  {
  }

  lemma ToggleKeepsWhole(s: State, space: Space)
    requires Whole(s)
    ensures Whole(Toggled(s, space).0) && Toggled(s, space).0.defaultDisable == s.defaultDisable
  {
  }

  lemma WithSpacesKeepsWhole(s: State, spaces: seq<Option<Space>>)
    requires Whole(s)
    ensures Whole(WithSpaces(s, spaces).0) && WithSpaces(s, spaces).0.defaultDisable == s.defaultDisable
  {
  }

  /** Events that set a flag, or the default, or nothing. */
  predicate SetsFlag(e: Event)
  {
    e.FocusedScreenChanged? || e.LoginWindowActive? || e.ExposeActive? || e.ConfigUpdated? ||
    e.ReactorEvent? || e.ReactorCommand?
  }

  /** With the default set to what it is. */
  lemma FlagsKeepWhole(s: State, e: Event)
    requires Whole(s) && (e.ConfigUpdated? ==> e.defaultDisable == s.defaultDisable)
    requires SetsFlag(e)
    ensures Whole(Handle(s, e).0) && Handle(s, e).0.defaultDisable == s.defaultDisable
  {
  }

  lemma SpacesKeepWhole(s: State, e: Event)
    requires Whole(s) && (e.ScreensChanged? || e.SpacesChanged?)
    ensures Whole(Handle(s, e).0) && Handle(s, e).0.defaultDisable == s.defaultDisable
  {
    WithSpacesKeepsWhole(if e.ScreensChanged? then s.(screens := e.screens) else s, e.spaces);
  }

  lemma TogglesKeepWhole(s: State, e: Event)
    requires Whole(s) && (e.ToggleFocusedSpace? || e.ToggleSpace?)
    ensures Whole(Handle(s, e).0) && Handle(s, e).0.defaultDisable == s.defaultDisable
  {
    var space := if e.ToggleSpace? then SpaceForScreen(s.screens, s.current, e.screen) else FocusedSpace(s);
    if space.Some? {
      ToggleKeepsWhole(s, space.value);
    }
  }

  lemma HandleKeepsWhole(s: State, e: Event)
    requires Whole(s) && (e.ConfigUpdated? ==> e.defaultDisable == s.defaultDisable)
    ensures Whole(Handle(s, e).0) && Handle(s, e).0.defaultDisable == s.defaultDisable
  {
    if e.ScreensChanged? || e.SpacesChanged? {
      SpacesKeepWhole(s, e);
    } else if e.ToggleFocusedSpace? || e.ToggleSpace? {
      TogglesKeepWhole(s, e);
    } else if e.ToggleGlobalEnabled? || e.SetGlobalEnabled? {
      SetGlobalKeepsWhole(s, if e.SetGlobalEnabled? then e.value else !s.globally);
    } else {
      FlagsKeepWhole(s, e);
    }
  }

  lemma {:induction false} RunKeepsWhole(s: State, es: seq<Event>)
    requires Whole(s) && KeepsDefault(es, s.defaultDisable)
    ensures Whole(Run(s, es).0)
    decreases |es|
  {
    if es != [] {
      HandleKeepsWhole(s, es[0]);
      RunKeepsWhole(Handle(s, es[0]).0, es[1..]);
    }
  }

  /** On every run on which the default does not change, both answers agree. */
  lemma RunsAgree(oneSpace: bool, defaultDisable: bool, es: seq<Event>, i: nat, space: Space)
    requires KeepsDefault(es, defaultDisable)
    requires i < |Run(Start(oneSpace, defaultDisable), es).0.current|
    ensures var s := Run(Start(oneSpace, defaultDisable), es).0;
            ActiveSpaces(s)[i] == Some(space) <==> s.current[i] == Some(space) && IsSpaceActive(s, space)
  {
    var s := Run(Start(oneSpace, defaultDisable), es).0;
    RunKeepsWhole(Start(oneSpace, defaultDisable), es);
    EntriesAgree(s, i, space);
  }

  /** A run on which the default changes after which the answers differ: the
      space is disabled by hand under one default and enabled under the other. */
  lemma DefaultChangeTears()
    ensures var es := [SpacesChanged([Some(1)]), ToggleFocusedSpace, ConfigUpdated(true), ToggleFocusedSpace];
            var s := Run(Start(false, false), es).0;
            s.current == [Some(1)] && IsSpaceActive(s, 1) && ActiveSpaces(s) == [None]
  {
    var es := [SpacesChanged([Some(1)]), ToggleFocusedSpace, ConfigUpdated(true), ToggleFocusedSpace];
    var s0 := Start(false, false);
    var s1 := Handle(s0, es[0]).0;
    var s2 := Handle(s1, es[1]).0;
    var s3 := Handle(s2, es[2]).0;
    var s4 := Handle(s3, es[3]).0;
    assert s1.current == [Some(1)] && s2.disabled == {1} && s4.enabled == {1} && s4.disabled == {1};
    assert es[1..][1..][1..][1..] == [];
    assert Run(s3, [es[3]]).0 == s4 by {
      assert Run(s4, []).0 == s4;
    }
    assert es[1..][1..][1..] == [es[3]];
    assert Run(s2, es[1..][1..]).0 == s4;
    assert Run(s1, es[1..]).0 == s4;
    assert Run(s0, es).0 == s4;
    assert Filtered(s4, []) == [];
    assert ActiveSpaces(s4) == [None];
  }

  /** A toggle switches the one space and no other, and a second one switches it back. */
  lemma TogglesOne(s: State, space: Space, other: Space)
    ensures IsSpaceEnabled(Toggle(s, space), space) <==> !IsSpaceEnabled(s, space)
    ensures other != space ==> (IsSpaceEnabled(Toggle(s, space), other) <==> IsSpaceEnabled(s, other))
    ensures Toggle(Toggle(s, space), space) == s
  {
    assert Flip(Flip(s.enabled, space), space) == s.enabled;
    assert Flip(Flip(s.disabled, space), space) == s.disabled;
  }

  /** Hotkeys are on while the space the program started on, or any space, may be managed. */
  predicate HotkeysRight(s: State)
  {
    s.hotkeys == (s.starting.Some? && (!s.oneSpace || s.starting == First(s)))
  }

  /** What the window manager controller last heard of hotkeys. */
  function LastHotkeys(told: seq<Message>, before: bool): bool
  {
    if told == [] then before
    else LastHotkeys(told[1..], if told[0].Hotkeys? then told[0].value else before)
  }

  lemma {:induction false} LastHotkeysJoined(a: seq<Message>, b: seq<Message>, before: bool)
    ensures LastHotkeys(a + b, before) == LastHotkeys(b, LastHotkeys(a, before))
    decreases |a|
  {
    if a == [] {
      assert a + b == b;
    } else {
      LastHotkeysJoined(a[1..], b, if a[0].Hotkeys? then a[0].value else before);
      assert (a + b)[1..] == a[1..] + b;
    }
  }

  lemma {:induction false} NoHotkeys(told: seq<Message>, before: bool)
    requires forall m <- told :: !m.Hotkeys?
    ensures LastHotkeys(told, before) == before
    decreases |told|
  {
    if told != [] {
      NoHotkeys(told[1..], before);
    }
  }

  lemma {:induction false} DisablingOnly(spaces: seq<Space>)
    ensures forall m <- Disabling(spaces) :: m.SpaceDisabled?
  {
    if spaces != [] {
      DisablingOnly(spaces[1..]);
    }
  }

  lemma WithSpacesHotkeys(s: State, spaces: seq<Option<Space>>)
    ensures HotkeysRight(WithSpaces(s, spaces).0)
    ensures LastHotkeys(WithSpaces(s, spaces).1, s.hotkeys) == WithSpaces(s, spaces).0.hotkeys
  {
    var told := WithSpaces(s, spaces).1;
    assert told != [] ==> told[1..] == [];
  }

  lemma SetGlobalHotkeys(s: State, value: bool)
    ensures HotkeysRight(SetGlobal(s, value).0) == HotkeysRight(s) && SetGlobal(s, value).0.hotkeys == s.hotkeys
    ensures forall m <- SetGlobal(s, value).1 :: !m.Hotkeys?
  {
    DisablingOnly(Present(s.current));
  }

  lemma ToggledHotkeys(s: State, space: Space)
    ensures HotkeysRight(Toggled(s, space).0) == HotkeysRight(s) && Toggled(s, space).0.hotkeys == s.hotkeys
    ensures forall m <- Toggled(s, space).1 :: !m.Hotkeys?
  {
  }

  lemma SpacesKeepHotkeys(s: State, e: Event)
    requires e.ScreensChanged? || e.SpacesChanged?
    ensures HotkeysRight(Handle(s, e).0)
    ensures LastHotkeys(Handle(s, e).1, s.hotkeys) == Handle(s, e).0.hotkeys
  {
    var before := if e.ScreensChanged? then s.(screens := e.screens) else s;
    WithSpacesHotkeys(before, e.spaces);
    var (s', first) := WithSpaces(before, e.spaces);
    var more :=
      if e.ScreensChanged?
      then [ReactorScreens(e.frames, ActiveSpaces(s')), StatusSpaces(e.spaces), StatusOf(s'), MouseScreens(e.frames)]
      else (if s'.expose then [] else [ReactorSpaces(ActiveSpaces(s'))]) + [StatusSpaces(e.spaces), StatusOf(s')];
    assert Handle(s, e).1 == first + more;
    LastHotkeysJoined(first, more, s.hotkeys);
    NoHotkeys(more, LastHotkeys(first, s.hotkeys));
  }

  lemma FlagsKeepHotkeys(s: State, e: Event)
    requires HotkeysRight(s) && SetsFlag(e)
    ensures HotkeysRight(Handle(s, e).0)
    ensures LastHotkeys(Handle(s, e).1, s.hotkeys) == Handle(s, e).0.hotkeys
  {
    var told := Handle(s, e).1;
    if e.ConfigUpdated? {
      NoHotkeys(told[1..][1..], s.hotkeys);
    } else {
      NoHotkeys(told, s.hotkeys);
    }
  }

  lemma TogglesKeepHotkeys(s: State, e: Event)
    requires HotkeysRight(s) && (e.ToggleFocusedSpace? || e.ToggleSpace?)
    ensures HotkeysRight(Handle(s, e).0)
    ensures LastHotkeys(Handle(s, e).1, s.hotkeys) == Handle(s, e).0.hotkeys
  {
    var space := if e.ToggleSpace? then SpaceForScreen(s.screens, s.current, e.screen) else FocusedSpace(s);
    if space.Some? {
      ToggledHotkeys(s, space.value);
    }
    NoHotkeys(Handle(s, e).1, s.hotkeys);
  }

  lemma HandleKeepsHotkeys(s: State, e: Event)
    requires HotkeysRight(s)
    ensures HotkeysRight(Handle(s, e).0)
    ensures LastHotkeys(Handle(s, e).1, s.hotkeys) == Handle(s, e).0.hotkeys
  {
    if e.ScreensChanged? || e.SpacesChanged? {
      SpacesKeepHotkeys(s, e);
    } else if e.ToggleFocusedSpace? || e.ToggleSpace? {
      TogglesKeepHotkeys(s, e);
    } else if e.ToggleGlobalEnabled? || e.SetGlobalEnabled? {
      var value := if e.SetGlobalEnabled? then e.value else !s.globally;
      SetGlobalHotkeys(s, value);
      NoHotkeys(SetGlobal(s, value).1, s.hotkeys);
    } else {
      FlagsKeepHotkeys(s, e);
    }
  }

  /** On every run, hotkeys are what they should be, and the controller has been told so. */
  lemma {:induction false} HotkeysFollow(s: State, es: seq<Event>)
    requires HotkeysRight(s)
    ensures HotkeysRight(Run(s, es).0)
    ensures LastHotkeys(Run(s, es).1, s.hotkeys) == Run(s, es).0.hotkeys
    decreases |es|
  {
    if es != [] {
      var (s1, told) := Handle(s, es[0]);
      HandleKeepsHotkeys(s, es[0]);
      HotkeysFollow(s1, es[1..]);
      LastHotkeysJoined(told, Run(s1, es[1..]).1, s.hotkeys);
    }
  }

  // The actor.

  /** The actor, with what it has told others so far. */
  class Actor {
    var oneSpace: bool
    var defaultDisable: bool
    var starting: Option<Space>
    var current: seq<Option<Space>>
    var screens: seq<Screen>
    var disabled: set<Space>
    var enabled: set<Space>
    var focused: Option<Screen>
    var login: bool
    var expose: bool
    var globally: bool
    var hotkeys: bool
    var told: seq<Message>

    function Now(): State
      reads this
    {
      State(oneSpace, defaultDisable, starting, current, screens, disabled, enabled, focused, login, expose, globally, hotkeys)
    }

    constructor (oneSpace: bool, defaultDisable: bool)
      ensures Now() == Start(oneSpace, defaultDisable) && told == [GlobalEnabled(true)]
    {
      this.oneSpace, this.defaultDisable := oneSpace, defaultDisable;
      starting, current, screens := None, [], [];
      disabled, enabled, focused := {}, {}, None;
      login, expose, globally, hotkeys := false, false, true, false;
      told := [GlobalEnabled(true)];
    }

    /** The loop that puts out the entries that are not enabled. */
    method ListActiveSpaces() returns (spaces: seq<Option<Space>>)
      ensures spaces == ActiveSpaces(Now())
    {
      if !globally {
        spaces := seq(|current|, _ => None);
        return;
      }
      spaces := current;
      for i := 0 to |spaces|
        invariant |spaces| == |current|
        invariant forall k :: 0 <= k < i ==> spaces[k] == ActiveSpaces(Now())[k]
        invariant forall k :: i <= k < |spaces| ==> spaces[k] == current[k]
      {
        if !Keeps(Now(), spaces[i]) {
          spaces := spaces[i := None];
        }
      }
    }

    method SendStatus()
      modifies this`told
      ensures told == old(told) + [StatusOf(Now())]
    {
      told := told + [StatusOf(Now())];
    }

    method HandleSpaceChanged(spaces: seq<Option<Space>>)
      modifies this`current, this`starting, this`hotkeys, this`told
      ensures Now() == WithSpaces(old(Now()), spaces).0
      ensures told == old(told) + WithSpaces(old(Now()), spaces).1
    {
      current := spaces;
      if starting.None? {
        starting := First(Now());
      }
      var active := starting.Some? && (!oneSpace || starting == First(Now()));
      if active != hotkeys {
        hotkeys := active;
        told := told + [Hotkeys(hotkeys)];
      }
    }

    method FlipSpace(space: Space)
      modifies this`enabled, this`disabled, this`told
      ensures Now() == Toggled(old(Now()), space).0
      ensures told == old(told) + Toggled(old(Now()), space).1
    {
      if defaultDisable {
        enabled := if space in enabled then enabled - {space} else enabled + {space};
      } else {
        disabled := if space in disabled then disabled - {space} else disabled + {space};
      }
      if !IsSpaceEnabled(Now(), space) {
        told := told + [SpaceDisabled(space)];
      }
      SendStatus();
      told := told + [RefreshSpaces];
    }

    /** Enables every current space. */
    method EnableCurrent()
      modifies this`enabled
      ensures enabled == old(enabled) + set x <- Present(current)
    {
      for i := 0 to |current|
        invariant enabled == old(enabled) + set x <- Present(current[..i])
      {
        PresentMore(current, i);
        if current[i].Some? {
          enabled := enabled + {current[i].value};
        }
      }
      assert current[..|current|] == current;
    }

    method AnnounceDisabled()
      modifies this`told
      ensures told == old(told) + Disabling(Present(current))
    {
      for i := 0 to |current|
        invariant told == old(told) + Disabling(Present(current[..i]))
      {
        PresentMore(current, i);
        if current[i].Some? {
          ghost var before := Disabling(Present(current[..i]));
          DisablingMore(Present(current[..i]), current[i].value);
          told := told + [SpaceDisabled(current[i].value)];
          assert told == old(told) + (before + [SpaceDisabled(current[i].value)]);
        }
      }
      assert current[..|current|] == current;
    }

    /** Tells of the global switch, and what it means for the focused space. */
    method AnnounceSwitch()
      modifies this`told
      ensures told == old(told) + [GlobalEnabled(globally), StatusOf(Now()), RefreshSpaces]
    {
      told := told + [GlobalEnabled(globally)];
      SendStatus();
      told := told + [RefreshSpaces];
    }

    method SwitchOn()
      requires !globally
      modifies this`globally, this`enabled, this`told
      ensures Now() == SetGlobal(old(Now()), true).0
      ensures told == old(told) + SetGlobal(old(Now()), true).1
    {
      globally := true;
      if defaultDisable {
        EnableCurrent();
      }
      AnnounceSwitch();
    }

    /** Tells group bars to go. */
    method AnnounceOff()
      modifies this`told
      ensures told == old(told) + ([GlobalDisabled] + if defaultDisable then Disabling(Present(current)) else [])
    {
      told := told + [GlobalDisabled];
      if defaultDisable {
        AnnounceDisabled();
      }
    }

    method SwitchOff()
      requires globally
      modifies this`globally, this`enabled, this`told
      ensures Now() == SetGlobal(old(Now()), false).0
      ensures told == old(told) + SetGlobal(old(Now()), false).1
    {
      globally := false;
      AnnounceOff();
      if defaultDisable {
        enabled := {};
      }
      AnnounceSwitch();
    }

    method SwitchGlobally(value: bool)
      modifies this`globally, this`enabled, this`told
      ensures Now() == SetGlobal(old(Now()), value).0
      ensures told == old(told) + SetGlobal(old(Now()), value).1
    {
      if globally != value {
        if value {
          SwitchOn();
        } else {
          SwitchOff();
        }
      }
    }

    method ChangeScreens(ids: seq<Screen>, frames: seq<int>, spaces: seq<Option<Space>>)
      modifies this
      ensures Now() == Handle(old(Now()), ScreensChanged(ids, frames, spaces)).0
      ensures told == old(told) + Handle(old(Now()), ScreensChanged(ids, frames, spaces)).1
    {
      screens := ids;
      HandleSpaceChanged(spaces);
      var active := ListActiveSpaces();
      told := told + [ReactorScreens(frames, active), StatusSpaces(spaces)];
      SendStatus();
      told := told + [MouseScreens(frames)];
    }

    method ChangeSpaces(spaces: seq<Option<Space>>)
      modifies this
      ensures Now() == Handle(old(Now()), SpacesChanged(spaces)).0
      ensures told == old(told) + Handle(old(Now()), SpacesChanged(spaces)).1
    {
      HandleSpaceChanged(spaces);
      if !expose {
        var active := ListActiveSpaces();
        told := told + [ReactorSpaces(active)];
      }
      told := told + [StatusSpaces(spaces)];
      SendStatus();
    }

    method FlipFocused()
      modifies this
      ensures Now() == Handle(old(Now()), ToggleFocusedSpace).0
      ensures told == old(told) + Handle(old(Now()), ToggleFocusedSpace).1
    {
      var space := FocusedSpace(Now());
      if space.Some? {
        FlipSpace(space.value);
      }
    }

    method FlipOnScreen(screen: Screen)
      modifies this
      ensures Now() == Handle(old(Now()), ToggleSpace(screen)).0
      ensures told == old(told) + Handle(old(Now()), ToggleSpace(screen)).1
    {
      var space := SpaceForScreen(screens, current, screen);
      if space.Some? {
        FlipSpace(space.value);
      }
    }

    method UpdateConfig(value: bool)
      modifies this
      ensures Now() == Handle(old(Now()), ConfigUpdated(value)).0
      ensures told == old(told) + Handle(old(Now()), ConfigUpdated(value)).1
    {
      defaultDisable := value;
      told := told + [ConfigChanged(value), Hotkeys(hotkeys)];
      SendStatus();
      told := told + [RefreshSpaces];
    }

    method Focus(screen: Screen)
      modifies this`focused, this`told
      ensures Now() == Handle(old(Now()), FocusedScreenChanged(screen)).0
      ensures told == old(told) + Handle(old(Now()), FocusedScreenChanged(screen)).1
    {
      focused := Some(screen);
      SendStatus();
    }

    method ChangeLogin(value: bool)
      modifies this`login, this`told
      ensures Now() == Handle(old(Now()), LoginWindowActive(value)).0
      ensures told == old(told) + Handle(old(Now()), LoginWindowActive(value)).1
    {
      login := value;
      told := told + [RefreshSpaces];
    }

    method ChangeExpose(value: bool)
      modifies this`expose, this`told
      ensures Now() == Handle(old(Now()), ExposeActive(value)).0
      ensures told == old(told) + Handle(old(Now()), ExposeActive(value)).1
    {
      expose := value;
      if !value {
        told := told + [RefreshSpaces];
      }
    }

    method OnEvent(e: Event)
      modifies this
      ensures Now() == Handle(old(Now()), e).0
      ensures told == old(told) + Handle(old(Now()), e).1
    {
      match e {
        case ScreensChanged(ids, frames, spaces) =>
          ChangeScreens(ids, frames, spaces);
        case SpacesChanged(spaces) =>
          ChangeSpaces(spaces);
        case FocusedScreenChanged(screen) =>
          Focus(screen);
        case ToggleFocusedSpace =>
          FlipFocused();
        case ToggleSpace(screen) =>
          FlipOnScreen(screen);
        case ToggleGlobalEnabled =>
          SwitchGlobally(!globally);
        case SetGlobalEnabled(value) =>
          SwitchGlobally(value);
        case LoginWindowActive(value) =>
          ChangeLogin(value);
        case ExposeActive(value) =>
          ChangeExpose(value);
        case ConfigUpdated(value) =>
          UpdateConfig(value);
        case ReactorEvent(content) =>
          told := told + [PassedOn(content)];
        case ReactorCommand(content) =>
          told := told + [CommandPassedOn(content)];
      }
    }
  }

  lemma {:induction false} PresentMore(spaces: seq<Option<Space>>, i: nat)
    requires i < |spaces|
    ensures Present(spaces[..i + 1]) ==
            if spaces[i].Some? then Present(spaces[..i]) + [spaces[i].value] else Present(spaces[..i])
  {
    if i == 0 {
      assert spaces[..1][1..] == [];
    } else {
      PresentMore(spaces[1..], i - 1);
      assert spaces[..i + 1][1..] == spaces[1..][..i];
      assert spaces[..i][1..] == spaces[1..][..i - 1];
    }
  }

  lemma {:induction false} DisablingMore(spaces: seq<Space>, space: Space)
    ensures Disabling(spaces + [space]) == Disabling(spaces) + [SpaceDisabled(space)]
  {
    if spaces != [] {
      DisablingMore(spaces[1..], space);
      assert (spaces + [space])[1..] == spaces[1..] + [space];
    }
  }
}
