/** What the actors around the space manager hear (`src/actor/space_manager.rs`),
    on every run: which spaces the reactor is told to manage, whether the focused
    space is said to be active, and what each switch switches. */
module SpaceReports {
  import opened Options
  import opened Windows
  import opened SpaceManager

  // Runs, message by message.

  /** The state after the first `n` events. */
  function StateAt(s: State, es: seq<Event>, n: nat): State
    requires n <= |es|
  {
    Run(s, es[..n]).0
  }

  /** What is told at event `n`. */
  function ToldAt(s: State, es: seq<Event>, n: nat): seq<Message>
    requires n < |es|
  {
    Handle(StateAt(s, es, n), es[n]).1
  }

  lemma {:induction false} RunNext(s: State, es: seq<Event>, e: Event)
    ensures Run(s, es + [e]) == (Handle(Run(s, es).0, e).0, Run(s, es).1 + Handle(Run(s, es).0, e).1)
    decreases |es|
  {
    if es == [] {
      assert [] + [e] == [e] && [e][1..] == [];
      var (s1, told) := Handle(s, e);
      assert Run(s1, []) == (s1, []);
      assert told + [] == told && [] + told == told;
    } else {
      var (s1, told) := Handle(s, es[0]);
      RunNext(s1, es[1..], e);
      assert (es + [e])[1..] == es[1..] + [e];
      var rest := Run(s1, es[1..]);
      assert told + (rest.1 + Handle(rest.0, e).1) == (told + rest.1) + Handle(rest.0, e).1;
    }
  }

  /** What is told at the events makes up what is told. */
  lemma ToldInTurn(s: State, es: seq<Event>, n: nat)
    requires n < |es|
    ensures StateAt(s, es, n + 1) == Handle(StateAt(s, es, n), es[n]).0
    ensures Run(s, es[..n + 1]).1 == Run(s, es[..n]).1 + ToldAt(s, es, n)
  {
    assert es[..n + 1] == es[..n] + [es[n]];
    RunNext(s, es[..n], es[n]);
  }

  // Which spaces are managed.

  /** A space the reactor may manage. */
  predicate Manageable(s: State, x: Space)
  {
    s.globally && !s.login && (s.oneSpace ==> s.starting == Some(x)) && x !in s.disabled && (s.defaultDisable ==> x in s.enabled)
  }

  /** A space that is active when asked about by itself. */
  predicate Answered(s: State, x: Space)
  {
    s.globally && !s.login && (s.oneSpace ==> s.starting == Some(x)) &&
    if s.defaultDisable then x in s.enabled else x !in s.disabled
  }

  /** The current spaces, without those that may not be managed. */
  ghost predicate Filters(s: State, spaces: seq<Option<Space>>)
  {
    |spaces| == |s.current| &&
    forall i :: 0 <= i < |spaces| ==> forall x: Space :: spaces[i] == Some(x) <==> s.current[i] == Some(x) && Manageable(s, x)
  }

  lemma ActiveFilters(s: State)
    ensures Filters(s, ActiveSpaces(s))
    ensures forall x: Space :: IsSpaceActive(s, x) <==> Answered(s, x)
  {
    forall i | 0 <= i < |s.current| ensures forall x: Space :: ActiveSpaces(s)[i] == Some(x) <==> s.current[i] == Some(x) && Manageable(s, x) {
      assert ActiveSpaces(s)[i] == if s.globally && Keeps(s, s.current[i]) then s.current[i] else None;
    }
  }

  /** The first screen with an id, and the space on it. */
  ghost predicate OnScreen(s: State, screen: Screen, x: Space)
  {
    exists k :: 0 <= k < |s.screens| && k < |s.current| && s.screens[k] == screen && s.current[k] == Some(x) &&
      forall j :: 0 <= j < k ==> s.screens[j] != screen
  }

  lemma {:induction false} ScreenIs(screens: seq<Screen>, spaces: seq<Option<Space>>, screen: Screen) returns (k: nat)
    ensures var space := SpaceForScreen(screens, spaces, screen);
            k <= |screens| && (forall j :: 0 <= j < k ==> screens[j] != screen) &&
            if k < |screens| && k < |spaces| then screens[k] == screen && space == spaces[k]
            else space == None && forall j :: 0 <= j < |screens| && j < |spaces| ==> screens[j] != screen
  {
    if screens == [] || spaces == [] || screens[0] == screen {
      k := 0;
    } else {
      var rest := ScreenIs(screens[1..], spaces[1..], screen);
      k := rest + 1;
      assert forall j :: 0 < j < |screens| ==> screens[j] == screens[1..][j - 1];
    }
  }

  lemma OnScreenIs(s: State, screen: Screen)
    ensures forall x: Space :: OnScreen(s, screen, x) <==> SpaceForScreen(s.screens, s.current, screen) == Some(x)
  {
    var k := ScreenIs(s.screens, s.current, screen);
  }

  /** The space on the focused screen, or else the first one. */
  ghost predicate IsFocused(s: State, x: Space)
  {
    if s.focused.Some? && exists y: Space :: OnScreen(s, s.focused.value, y) then OnScreen(s, s.focused.value, x)
    else s.current != [] && s.current[0] == Some(x)
  }

  lemma FocusedIs(s: State)
    ensures forall x: Space :: IsFocused(s, x) <==> FocusedSpace(s) == Some(x)
  {
    if s.focused.Some? {
      OnScreenIs(s, s.focused.value);
      var space := SpaceForScreen(s.screens, s.current, s.focused.value);
      assert space.Some? ==> OnScreen(s, s.focused.value, space.value);
    }
  }

  // What is told.

  /** The focused space is active. */
  ghost predicate FocusedActive(s: State)
  {
    exists x: Space :: IsFocused(s, x) && Answered(s, x)
  }

  lemma StatusIs(s: State)
    ensures StatusOf(s) == SpaceEnabled(FocusedActive(s))
  {
    FocusedIs(s);
    ActiveFilters(s);
    if FocusedSpace(s).Some? {
      assert IsFocused(s, FocusedSpace(s).value);
    }
  }

  lemma {:induction false} DisablingAre(spaces: seq<Option<Space>>)
    ensures forall m <- Disabling(Present(spaces)) :: m.SpaceDisabled? && Some(m.space) in spaces
    ensures forall x: Space :: Some(x) in spaces ==> SpaceDisabled(x) in Disabling(Present(spaces))
  {
    if spaces != [] {
      DisablingAre(spaces[1..]);
      assert spaces == [spaces[0]] + spaces[1..];
      var rest := Present(spaces[1..]);
      if spaces[0].Some? {
        assert ([spaces[0].value] + rest)[1..] == rest;
      } else {
        assert [] + rest == rest;
      }
    }
  }

  lemma {:induction false} PresentAre(spaces: seq<Option<Space>>)
    ensures forall x: Space :: x in Present(spaces) <==> Some(x) in spaces
  {
    if spaces != [] {
      PresentAre(spaces[1..]);
      assert spaces == [spaces[0]] + spaces[1..];
    }
  }

  // Each kind of event.

  /** What a list of spaces sets: the current ones, and at first the one the
      program started on. */
  predicate SetsSpaces(s: State, e: Event, t: State)
    requires e.ScreensChanged? || e.SpacesChanged?
  {
    t == s.(current := e.spaces, screens := if e.ScreensChanged? then e.screens else s.screens,
            starting := if s.starting.None? && e.spaces != [] then e.spaces[0] else s.starting, hotkeys := t.hotkeys)
  }

  lemma SpacesSet(s: State, e: Event)
    requires e.ScreensChanged? || e.SpacesChanged?
    ensures SetsSpaces(s, e, Handle(s, e).0)
  {
    SpacesGiven(if e.ScreensChanged? then s.(screens := e.screens) else s, e.spaces);
  }

  lemma SpacesGiven(s: State, spaces: seq<Option<Space>>)
    ensures var t := WithSpaces(s, spaces).0;
            t == s.(current := spaces, starting := if s.starting.None? && spaces != [] then spaces[0] else s.starting, hotkeys := t.hotkeys)
  {
  }

  /** Hotkeys are told of first, if they change. */
  function HotkeysTold(s: State, t: State): seq<Message>
  {
    if t.hotkeys == s.hotkeys then [] else [Hotkeys(t.hotkeys)]
  }

  lemma HotkeysAre(s: State, spaces: seq<Option<Space>>)
    ensures WithSpaces(s, spaces).1 == HotkeysTold(s, WithSpaces(s, spaces).0)
  {
  }

  lemma ScreensTell(s: State, screens: seq<Screen>, frames: seq<int>, spaces: seq<Option<Space>>)
    ensures var e := ScreensChanged(screens, frames, spaces);
            var (t, told) := Handle(s, e);
            exists filtered :: Filters(t, filtered) &&
              told == HotkeysTold(s, t) +
                      [ReactorScreens(frames, filtered), StatusSpaces(spaces), SpaceEnabled(FocusedActive(t)), MouseScreens(frames)]
  {
    var t := Handle(s, ScreensChanged(screens, frames, spaces)).0;
    HotkeysAre(s.(screens := screens), spaces);
    ActiveFilters(t);
    StatusIs(t);
  }

  lemma SpacesTell(s: State, spaces: seq<Option<Space>>)
    ensures var e := SpacesChanged(spaces);
            var (t, told) := Handle(s, e);
            exists filtered :: Filters(t, filtered) &&
              told == HotkeysTold(s, t) + (if t.expose then [] else [ReactorSpaces(filtered)]) +
                      [StatusSpaces(spaces), SpaceEnabled(FocusedActive(t))]
  {
    var t := Handle(s, SpacesChanged(spaces)).0;
    HotkeysAre(s, spaces);
    ActiveFilters(t);
    StatusIs(t);
  }

  /** The one space is switched, among those disabled or those enabled by hand. */
  predicate Switches(s: State, t: State, x: Space)
  {
    t == s.(enabled := t.enabled, disabled := t.disabled) &&
    if s.defaultDisable then t.disabled == s.disabled && t.enabled == (if x in s.enabled then s.enabled - {x} else s.enabled + {x})
    else t.enabled == s.enabled && t.disabled == (if x in s.disabled then s.disabled - {x} else s.disabled + {x})
  }

  lemma ToggleTells(s: State, x: Space)
    ensures var (t, told) := Toggled(s, x);
            Switches(s, t, x) &&
            told == (if (if t.defaultDisable then x in t.enabled else x !in t.disabled) then [] else [SpaceDisabled(x)]) +
                    [SpaceEnabled(FocusedActive(t)), RefreshSpaces]
  {
    StatusIs(Toggled(s, x).0);
  }

  /** What a toggle leads to for the space it is about, if there is one. */
  ghost predicate TogglesIt(s: State, t: State, told: seq<Message>, x: Space)
  {
    Switches(s, t, x) &&
    told == (if (if t.defaultDisable then x in t.enabled else x !in t.disabled) then [] else [SpaceDisabled(x)]) +
            [SpaceEnabled(FocusedActive(t)), RefreshSpaces]
  }

  /** A toggle switches the space on the screen, or the focused one, and no other;
      where there is none, nothing happens. */
  lemma TogglesRight(s: State, e: Event)
    requires e.ToggleSpace? || e.ToggleFocusedSpace?
    ensures var (t, told) := Handle(s, e);
            (forall x: Space :: (if e.ToggleSpace? then OnScreen(s, e.screen, x) else IsFocused(s, x)) ==> TogglesIt(s, t, told, x)) &&
            ((forall x: Space :: !(if e.ToggleSpace? then OnScreen(s, e.screen, x) else IsFocused(s, x))) ==> t == s && told == [])
  {
    FocusedIs(s);
    if e.ToggleSpace? {
      OnScreenIs(s, e.screen);
    }
    var space := if e.ToggleSpace? then SpaceForScreen(s.screens, s.current, e.screen) else FocusedSpace(s);
    if space.Some? {
      ToggleTells(s, space.value);
      assert if e.ToggleSpace? then OnScreen(s, e.screen, space.value) else IsFocused(s, space.value);
    }
  }

  /** The global switch. With the spaces disabled by default it enables all the
      current ones, or none. */
  ghost predicate SwitchesAll(s: State, t: State, value: bool)
  {
    t == s.(globally := value, enabled := t.enabled) &&
    if !s.defaultDisable then t.enabled == s.enabled
    else if value then forall x: Space :: x in t.enabled <==> x in s.enabled || Some(x) in s.current
    else t.enabled == {}
  }

  /** The spaces that are told of as disabled by the global switch. */
  ghost predicate GoneWith(s: State, value: bool, gone: seq<Message>)
  {
    (forall m <- gone :: m.SpaceDisabled? && Some(m.space) in s.current) &&
    forall x: Space :: !value && s.defaultDisable && Some(x) in s.current ==> SpaceDisabled(x) in gone
  }

  ghost predicate GlobalTold(s: State, t: State, told: seq<Message>, value: bool)
  {
    if value then told == [GlobalEnabled(true), SpaceEnabled(FocusedActive(t)), RefreshSpaces]
    else exists gone :: GoneWith(s, value, gone) && (gone != [] ==> s.defaultDisable) &&
           told == [GlobalDisabled] + gone + [GlobalEnabled(false), SpaceEnabled(FocusedActive(t)), RefreshSpaces]
  }

  lemma GlobalSwitches(s: State, value: bool)
    requires value != s.globally
    ensures SwitchesAll(s, SetGlobal(s, value).0, value)
  {
    PresentAre(s.current);
  }

  lemma GlobalTells(s: State, value: bool)
    ensures var (t, told) := SetGlobal(s, value);
            if value == s.globally then t == s && told == [] else SwitchesAll(s, t, value) && GlobalTold(s, t, told, value)
  {
    if value != s.globally {
      GlobalSwitches(s, value);
      StatusIs(SetGlobal(s, value).0);
      if !value {
        DisablingAre(s.current);
        assert GoneWith(s, value, if s.defaultDisable then Disabling(Present(s.current)) else []);
      }
    }
  }

  /** Every other event sets what it says, and tells just those who are concerned. */
  lemma FlagsTell(s: State, e: Event)
    ensures var (t, told) := Handle(s, e);
            match e
            case FocusedScreenChanged(screen) => t == s.(focused := Some(screen)) && told == [SpaceEnabled(FocusedActive(t))]
            case LoginWindowActive(value) => t == s.(login := value) && told == [RefreshSpaces]
            case ExposeActive(value) => t == s.(expose := value) && told == if value then [] else [RefreshSpaces]
            case ConfigUpdated(value) =>
              t == s.(defaultDisable := value) &&
              told == [ConfigChanged(value), Hotkeys(t.hotkeys), SpaceEnabled(FocusedActive(t)), RefreshSpaces]
            case ReactorEvent(content) => t == s && told == [PassedOn(content)]
            case ReactorCommand(content) => t == s && told == [CommandPassedOn(content)]
            case _ => true
  {
    StatusIs(Handle(s, e).0);
  }

  // On every run.

  ghost predicate ReactorNotTold(t: State, told: seq<Message>)
  {
    forall m <- told :: !m.ReactorSpaces? && !m.ReactorScreens? && (m.SpaceEnabled? ==> m.value == FocusedActive(t))
  }

  /** What an event tells, with the state after it. */
  ghost predicate Tells(s: State, e: Event, t: State, told: seq<Message>)
  {
    match e
    case ScreensChanged(_, frames, spaces) =>
      SetsSpaces(s, e, t) &&
      exists filtered :: Filters(t, filtered) &&
        told == HotkeysTold(s, t) +
                [ReactorScreens(frames, filtered), StatusSpaces(spaces), SpaceEnabled(FocusedActive(t)), MouseScreens(frames)]
    case SpacesChanged(spaces) =>
      SetsSpaces(s, e, t) &&
      exists filtered :: Filters(t, filtered) &&
        told == HotkeysTold(s, t) + (if t.expose then [] else [ReactorSpaces(filtered)]) +
                [StatusSpaces(spaces), SpaceEnabled(FocusedActive(t))]
    case _ => ReactorNotTold(t, told)
  }

  lemma GlobalQuiet(s: State, t: State, told: seq<Message>, value: bool)
    requires GlobalTold(s, t, told, value)
    ensures ReactorNotTold(t, told)
  {
    if !value {
      var gone :| GoneWith(s, value, gone) && (gone != [] ==> s.defaultDisable) &&
        told == [GlobalDisabled] + gone + [GlobalEnabled(false), SpaceEnabled(FocusedActive(t)), RefreshSpaces];
    }
  }

  lemma SwitchTells(s: State, e: Event)
    requires e.ToggleSpace? || e.ToggleFocusedSpace? || e.ToggleGlobalEnabled? || e.SetGlobalEnabled?
    ensures ReactorNotTold(Handle(s, e).0, Handle(s, e).1)
  {
    if e.ToggleSpace? || e.ToggleFocusedSpace? {
      TogglesRight(s, e);
    } else {
      var value := if e.SetGlobalEnabled? then e.value else !s.globally;
      GlobalTells(s, value);
      if value != s.globally {
        GlobalQuiet(s, SetGlobal(s, value).0, SetGlobal(s, value).1, value);
      }
    }
  }

  lemma FlagsQuiet(s: State, e: Event)
    requires SetsFlag(e)
    ensures ReactorNotTold(Handle(s, e).0, Handle(s, e).1)
  {
    FlagsTell(s, e);
  }

  lemma HandleTells(s: State, e: Event)
    ensures Tells(s, e, Handle(s, e).0, Handle(s, e).1)
  {
    if e.ScreensChanged? {
      SpacesSet(s, e);
      ScreensTell(s, e.screens, e.frames, e.spaces);
    } else if e.SpacesChanged? {
      SpacesSet(s, e);
      SpacesTell(s, e.spaces);
    } else if SetsFlag(e) {
      FlagsQuiet(s, e);
    } else {
      SwitchTells(s, e);
    }
  }

  /** On every run, whenever the reactor is told of spaces it is told of the
      current ones, each exactly if it may be managed: on every change of screens,
      and on every change of spaces unless expose is on. Nothing else tells it of
      spaces. Whoever is told whether the focused space is active is told so. */
  lemma ReactorHears(oneSpace: bool, defaultDisable: bool, es: seq<Event>, n: nat)
    requires n < |es|
    ensures var start := Start(oneSpace, defaultDisable);
            Tells(StateAt(start, es, n), es[n], StateAt(start, es, n + 1), ToldAt(start, es, n)) &&
            Run(start, es[..n + 1]).1 == Run(start, es[..n]).1 + ToldAt(start, es, n)
  {
    var start := Start(oneSpace, defaultDisable);
    ToldInTurn(start, es, n);
    HandleTells(StateAt(start, es, n), es[n]);
  }

  // What is remembered on a run.

  /** The spaces told of last. */
  function LastSpaces(es: seq<Event>): seq<Option<Space>>
  {
    if es == [] then []
    else
      var e := es[|es| - 1];
      if e.ScreensChanged? || e.SpacesChanged? then e.spaces else LastSpaces(es[..|es| - 1])
  }

  function LastDefault(es: seq<Event>, before: bool): bool
  {
    if es == [] then before
    else
      var e := es[|es| - 1];
      if e.ConfigUpdated? then e.defaultDisable else LastDefault(es[..|es| - 1], before)
  }

  function LastLogin(es: seq<Event>): bool
  {
    if es == [] then false
    else
      var e := es[|es| - 1];
      if e.LoginWindowActive? then e.value else LastLogin(es[..|es| - 1])
  }

  /** The space the program started on is the first one there was. */
  function FirstSpace(es: seq<Event>): Option<Space>
  {
    if es == [] then None
    else
      var before, e := FirstSpace(es[..|es| - 1]), es[|es| - 1];
      if before.None? && (e.ScreensChanged? || e.SpacesChanged?) && e.spaces != [] then e.spaces[0] else before
  }

  ghost predicate Remembers(s: State, e: Event, t: State)
  {
    t.oneSpace == s.oneSpace && t.current == (if e.ScreensChanged? || e.SpacesChanged? then e.spaces else s.current) &&
    t.defaultDisable == (if e.ConfigUpdated? then e.defaultDisable else s.defaultDisable) &&
    t.login == (if e.LoginWindowActive? then e.value else s.login) &&
    t.starting == if s.starting.None? && (e.ScreensChanged? || e.SpacesChanged?) && e.spaces != [] then e.spaces[0] else s.starting
  }

  lemma SwitchRemembers(s: State, e: Event)
    requires e.ToggleSpace? || e.ToggleFocusedSpace? || e.ToggleGlobalEnabled? || e.SetGlobalEnabled?
    ensures Remembers(s, e, Handle(s, e).0)
  {
    if e.ToggleSpace? || e.ToggleFocusedSpace? {
      TogglesRight(s, e);
    } else {
      GlobalTells(s, if e.SetGlobalEnabled? then e.value else !s.globally);
    }
  }

  lemma HandleRemembers(s: State, e: Event)
    ensures Remembers(s, e, Handle(s, e).0)
  {
    if e.ScreensChanged? || e.SpacesChanged? {
      SpacesSet(s, e);
    } else if SetsFlag(e) {
      FlagsTell(s, e);
    } else {
      SwitchRemembers(s, e);
    }
  }

  /** What a run goes by is what it was told last, and of the first space first. */
  lemma {:induction false} RunRemembers(oneSpace: bool, defaultDisable: bool, es: seq<Event>)
    ensures var s := Run(Start(oneSpace, defaultDisable), es).0;
            s.oneSpace == oneSpace && s.current == LastSpaces(es) && s.defaultDisable == LastDefault(es, defaultDisable) &&
            s.login == LastLogin(es) && s.starting == FirstSpace(es)
  {
    if es != [] {
      var n := |es| - 1;
      RunRemembers(oneSpace, defaultDisable, es[..n]);
      RunNext(Start(oneSpace, defaultDisable), es[..n], es[n]);
      assert es == es[..n] + [es[n]];
      HandleRemembers(Run(Start(oneSpace, defaultDisable), es[..n]).0, es[n]);
    }
  }

  /** On every run hotkeys are on exactly when there was a first space and, if the
      program keeps to one space, that space is in front. */
  lemma HotkeysAtAnyTime(oneSpace: bool, defaultDisable: bool, es: seq<Event>)
    ensures var s, first := Run(Start(oneSpace, defaultDisable), es).0, FirstSpace(es);
            s.hotkeys <==> first.Some? && (oneSpace ==> LastSpaces(es) != [] && LastSpaces(es)[0] == first)
  {
    HotkeysFollow(Start(oneSpace, defaultDisable), es);
    RunRemembers(oneSpace, defaultDisable, es);
  }
}
