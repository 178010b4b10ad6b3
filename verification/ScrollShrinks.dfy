/** Which windows the size solver can make smaller when it is given more space
    (`src/model/scroll_constraints.rs`), said on its inputs. */
module ScrollShrinks {
  import opened Options
  import opened Reals
  import opened ScrollConstraints
  import opened ScrollGrowth

  // What can be said of a window by itself.

  /** A window that is not pinned from the start. */
  predicate Open(w: WindowInput) { InitialPin(w).None? }

  /** The level from which on an open window has more than its minimum. */
  function Foot(w: WindowInput): real { w.minSize / Weight(w) }

  /** The level from which on an open window has more than its maximum. */
  function Top(w: WindowInput): real
    requires w.maxSize.Some?
  {
    w.maxSize.value / Weight(w)
  }

  lemma Compare(level: real, weight: real, size: real)
    requires 0.0 < weight
    ensures level < size / weight <==> level * weight < size
    ensures size / weight < level <==> size < level * weight
  {
    var at := size / weight;
    assert at * weight == size;
    if level < at {
      ShareGrows(level, at, weight);
    } else {
      ShareGrows(at, level, weight);
    }
  }

  lemma OpenAt(w: WindowInput, level: real)
    requires Open(w)
    ensures Pinned(w, level) <==> level < Foot(w)
    ensures Capped(w, level) <==> w.maxSize.Some? && Top(w) < level
    ensures w.maxSize.Some? ==> Foot(w) < Top(w) && CapOf(w) == w.maxSize
    ensures Base(w, Foot(w)) == w.minSize
  {
    Compare(level, Weight(w), w.minSize);
    Compare(Foot(w), Weight(w), w.minSize);
    if w.maxSize.Some? {
      Compare(level, Weight(w), w.maxSize.value);
      Compare(Foot(w), Weight(w), w.maxSize.value);
    }
  }

  lemma ClosedNeverCapped(w: WindowInput, level: real)
    requires !Open(w) && Clampable([w])
    ensures !Capped(w, level) && Pinned(w, level)
  {
    assert [w][0] == w;
  }

  // The conditions.

  /** Another window reaches its maximum before this one does. */
  ghost predicate Overtaken(ws: seq<WindowInput>, i: nat)
    requires i < |ws|
  {
    Open(ws[i]) && ws[i].maxSize.Some? &&
    exists j :: 0 <= j < |ws| && Open(ws[j]) && ws[j].maxSize.Some? && Top(ws[j]) < Top(ws[i])
  }

  /** A window has reached its maximum when another one starts to grow, and this
      one is growing then. */
  ghost predicate Joined(ws: seq<WindowInput>, i: nat)
    requires i < |ws|
  {
    Open(ws[i]) &&
    exists j, k :: 0 <= j < |ws| && 0 <= k < |ws| && Meets(ws[i], ws[j], ws[k])
  }

  predicate Meets(w: WindowInput, capped: WindowInput, growing: WindowInput)
  {
    Open(capped) && Open(growing) && capped.maxSize.Some? && Top(capped) < Foot(growing) &&
    Foot(w) < Foot(growing) && (w.maxSize.Some? ==> Foot(growing) <= Top(w))
  }

  /** Somewhere, with room both times, more space makes a window smaller. */
  ghost predicate CanShrinkInRoom(ws: seq<WindowInput>, gap: real, i: nat)
    requires i < |ws|
  {
    exists less, more, s, t ::
      less <= more && Solved(ws, less, gap, s) && Solved(ws, more, gap, t) && t[i] < s[i] &&
      HasRoom(ws, Usable(less, gap, |ws|)) && HasRoom(ws, Usable(more, gap, |ws|))
  }

  // A window that shrinks meets one of them.

  lemma CappedIs(ws: seq<WindowInput>, level: real, j: nat)
    requires Clampable(ws) && j < |ws| && Capped(ws[j], level)
    ensures Open(ws[j]) && ws[j].maxSize.Some? && Top(ws[j]) < level
  {
    if Open(ws[j]) {
      OpenAt(ws[j], level);
    } else {
      ClosedNeverCapped(ws[j], level);
    }
  }

  lemma ShrinksOnlyIf(ws: seq<WindowInput>, less: real, more: real, a: real, b: real, i: nat)
    requires Clampable(ws) && less <= more && Rests(ws, less, a) && Rests(ws, more, b) && i < |ws|
    requires Finished(ws, b)[i] < Finished(ws, a)[i]
    ensures Overtaken(ws, i) || Joined(ws, i)
  {
    ShrinksEitherWay(ws, less, more, a, b, i);
    if b < a {
      RestsInOrder(ws, less, more, a, b);
      SameBasesFinishAlike(ws, a, b);
      assert false;
    }
    if NoneCapped(ws, a) {
      GrowsFromUncapped(ws, a, b, i);
      assert false;
    }
    var j :| 0 <= j < |ws| && Capped(ws[j], a);
    CappedIs(ws, a, j);
    OpenAt(ws[i], a);
    OpenAt(ws[i], b);
    if !Capped(ws[i], b) {
      ShrinksIfHeldBackOnly(ws, less, more, a, b, i);
      var k :| 0 <= k < |ws| && Pinned(ws[k], a) && !Pinned(ws[k], b);
      OpenAt(ws[k], a);
      OpenAt(ws[k], b);
      assert Meets(ws[i], ws[j], ws[k]);
    }
  }

  lemma ShrinksIfHeldBackOnly(ws: seq<WindowInput>, less: real, more: real, a: real, b: real, i: nat)
    requires less <= more && Rests(ws, less, a) && Rests(ws, more, b) && i < |ws|
    requires Finished(ws, b)[i] < Finished(ws, a)[i] && !Capped(ws[i], b)
    ensures !StayPinned(ws, a, b)
  {
    if StayPinned(ws, a, b) {
      ShrinksIfHeldBack(ws, less, more, a, b, i);
    }
  }

  // A window that meets one of them shrinks.

  /** Minimums that are not negative, and at least one for the window in question. */
  predicate Grounded(ws: seq<WindowInput>, i: nat)
    requires i < |ws|
  {
    Clampable(ws) && 1.0 <= ws[i].minSize && forall k :: 0 <= k < |ws| ==> 0.0 <= ws[k].minSize
  }

  /** What a level comes to is the answer for just that space, with room. */
  lemma RestsInRoom(ws: seq<WindowInput>, gap: real, level: real, i: nat)
    requires i < |ws| && Grounded(ws, i) && Rests(ws, Sum(Bases(ws, level)), level)
    ensures var available := Sum(Bases(ws, level)) + Gaps(gap, |ws|);
            HasRoom(ws, Usable(available, gap, |ws|)) && Solved(ws, available, gap, Finished(ws, level))
  {
    SumOrder(Minimums(ws), Bases(ws, level));
    SumAtLeast(Bases(ws, level), i);
    assert Bases(ws, level)[i] == Base(ws[i], level);
  }

  lemma ShrinksBetween(ws: seq<WindowInput>, gap: real, a: real, b: real, i: nat)
    requires i < |ws| && Grounded(ws, i) && a <= b && !Pinned(ws[i], a) && Finished(ws, b)[i] < Finished(ws, a)[i]
    ensures CanShrinkInRoom(ws, gap, i)
  {
    BasesGrow(ws, a, b);
    BaseGrows(ws[i], a, b);
    assert Rests(ws, Sum(Bases(ws, a)), a) && Rests(ws, Sum(Bases(ws, b)), b);
    RestsInRoom(ws, gap, a, i);
    RestsInRoom(ws, gap, b, i);
    var less, more := Sum(Bases(ws, a)) + Gaps(gap, |ws|), Sum(Bases(ws, b)) + Gaps(gap, |ws|);
    assert less <= more && Solved(ws, less, gap, Finished(ws, a)) && Solved(ws, more, gap, Finished(ws, b));
  }

  /** A window that takes is handed more than its base when another one is held to its maximum. */
  lemma HandedMore(ws: seq<WindowInput>, level: real, i: nat, j: nat)
    requires i < |ws| && j < |ws| && Takes(ws[i], level) && Capped(ws[j], level)
    ensures Base(ws[i], level) < Redistributed(ws, level, i)
  {
    assert Helds(ws, level)[j] < Bases(ws, level)[j];
    SumOrder(Helds(ws, level), Bases(ws, level));
    var taken := Masked(Weights(ws), TakeMask(ws, level), true);
    SumAtLeast(taken, i);
    assert taken[i] == Weight(ws[i]);
    PortionPositive(Excess(ws, level), Weight(ws[i]), TakeWeight(ws, level));
  }

  lemma OvertakenShrinks(ws: seq<WindowInput>, gap: real, i: nat)
    requires i < |ws| && Grounded(ws, i) && Overtaken(ws, i)
    ensures CanShrinkInRoom(ws, gap, i)
  {
    var j :| 0 <= j < |ws| && Open(ws[j]) && ws[j].maxSize.Some? && Top(ws[j]) < Top(ws[i]);
    var a := Top(ws[i]);
    OpenAt(ws[i], a);
    OpenAt(ws[j], a);
    OpenAt(ws[i], a + 1.0);
    HandedMore(ws, a, i, j);
    assert Base(ws[i], a) == ws[i].maxSize.value;
    ShrinksBetween(ws, gap, a, a + 1.0, i);
  }

  /** A level just below another one, at which every window is held to its maximum that is held then. */
  lemma {:induction false} JustBelow(ws: seq<WindowInput>, low: real, high: real) returns (level: real)
    requires Clampable(ws) && low < high
    ensures low <= level < high
    ensures forall j :: 0 <= j < |ws| && Capped(ws[j], high) ==> Capped(ws[j], level)
  {
    level := low;
    if ws != [] {
      var n := |ws| - 1;
      var before := JustBelow(ws[..n], low, high);
      level := before;
      if Capped(ws[n], high) {
        CappedIs(ws, high, n);
        level := Max(before, (Top(ws[n]) + high) / 2.0);
        OpenAt(ws[n], level);
      }
      forall j | 0 <= j < n && Capped(ws[j], high) ensures Capped(ws[j], level) {
        assert Capped(ws[..n][j], before);
        BaseGrows(ws[j], before, level);
      }
    }
  }

  /** From one level to another a window has at most its weight times the difference more. */
  lemma BaseStep(w: WindowInput, a: real, b: real)
    requires a <= b
    ensures Base(w, b) <= Base(w, a) + AtRate(b - a, Weight(w))
  {
    ShareGrows(a, b, Weight(w));
    assert b * Weight(w) == a * Weight(w) + (b - a) * Weight(w);
  }

  lemma AtRateAdds(rate: real, v: real, w: real)
    ensures AtRate(rate, v + w) == AtRate(rate, v) + AtRate(rate, w)
  {
    Distribute(rate, v, w);
  }

  lemma {:induction false} SumStep(s: seq<real>, t: seq<real>, weights: seq<real>, step: real)
    requires |s| == |t| == |weights| && forall k :: 0 <= k < |s| ==> t[k] <= s[k] + AtRate(step, weights[k])
    ensures Sum(t) <= Sum(s) + AtRate(step, Sum(weights))
  {
    if s != [] {
      var n := |s| - 1;
      SumStep(s[..n], t[..n], weights[..n], step);
      AtRateAdds(step, Sum(weights[..n]), weights[n]);
    }
  }

  lemma BasesStep(ws: seq<WindowInput>, a: real, b: real)
    requires a <= b
    ensures Sum(Bases(ws, b)) <= Sum(Bases(ws, a)) + AtRate(b - a, Sum(Weights(ws)))
  {
    forall k | 0 <= k < |ws| ensures Bases(ws, b)[k] <= Bases(ws, a)[k] + AtRate(b - a, Weights(ws)[k]) {
      BaseStep(ws[k], a, b);
      assert Weights(ws)[k] == Weight(ws[k]);
    }
    SumStep(Bases(ws, a), Bases(ws, b), Weights(ws), b - a);
  }

  /** If the rate does not fall, nobody who is not held to a maximum in between has less. */
  lemma NoLess(ws: seq<WindowInput>, a: real, b: real, n: nat)
    requires a <= b && n < |ws| && Rate(ws, a) <= Rate(ws, b) && (Capped(ws[n], b) ==> Capped(ws[n], a))
    ensures Redistributed(ws, a, n) <= Redistributed(ws, b, n)
  {
    if Takes(ws[n], a) {
      UnpinnedAbove(ws[n], a, b);
      TakenAtRate(ws, a, n);
      TakenAtRate(ws, b, n);
      AtRateGrows(Rate(ws, a), Rate(ws, b), Weight(ws[n]));
    } else {
      OnlyTakersShrink(ws, a, b, n);
    }
  }

  /** A window that starts to take costs more than the step up brings, so the rate falls. */
  lemma RateDrops(ws: seq<WindowInput>, a: real, b: real, i: nat, k: nat)
    requires a <= b && i < |ws| && k < |ws| && Takes(ws[i], a) && Takes(ws[i], b)
    requires Pinned(ws[k], a) && !Capped(ws[k], a) && Takes(ws[k], b) && Base(ws[k], a) == Base(ws[k], b)
    requires forall j :: 0 <= j < |ws| && Capped(ws[j], b) ==> Capped(ws[j], a)
    requires AtRate(b - a, Sum(Weights(ws))) < Redistributed(ws, b, k) - Base(ws[k], b)
    ensures Rate(ws, b) < Rate(ws, a)
  {
    if Rate(ws, a) <= Rate(ws, b) {
      var gain := Redistributed(ws, b, k) - Base(ws[k], b);
      var before, after := Redistributions(ws, a), Redistributions(ws, b);
      var raised := before[k := before[k] + gain];
      forall n | 0 <= n < |ws| ensures raised[n] <= after[n] {
        NoLess(ws, a, b, n);
      }
      SumOrder(raised, after);
      SumUpdate(before, k, before[k] + gain);
      RedistributionTotal(ws, a);
      RedistributionTotal(ws, b);
      BasesStep(ws, a, b);
    }
  }

  /** A step small enough. */
  lemma SmallStep(total: real, gain: real, low: real, high: real) returns (level: real)
    requires 0.0 < total && 0.0 < gain && low < high
    ensures low <= level < high && AtRate(high - level, total) < gain
  {
    var step := gain / (2.0 * total);
    assert step * total == gain / 2.0;
    level := Max(low, high - step);
    AtRateGrows(high - level, step, total);
  }

  /** A level just below the one a window starts to grow at. */
  lemma BelowFoot(ws: seq<WindowInput>, low: real, gain: real, k: nat) returns (level: real)
    requires Clampable(ws) && k < |ws| && Open(ws[k]) && low < Foot(ws[k]) && 0.0 < gain
    ensures low <= level < Foot(ws[k]) && AtRate(Foot(ws[k]) - level, Sum(Weights(ws))) < gain
    ensures forall n :: 0 <= n < |ws| && Capped(ws[n], Foot(ws[k])) ==> Capped(ws[n], level)
    ensures Pinned(ws[k], level) && !Capped(ws[k], level) && Base(ws[k], level) == Base(ws[k], Foot(ws[k]))
  {
    var b := Foot(ws[k]);
    SumAtLeast(Weights(ws), k);
    assert Weights(ws)[k] == Weight(ws[k]);
    var near := JustBelow(ws, low, b);
    level := SmallStep(Sum(Weights(ws)), gain, near, b);
    OpenAt(ws[k], level);
    forall n | 0 <= n < |ws| && Capped(ws[n], b) ensures Capped(ws[n], level) {
      BaseGrows(ws[n], near, level);
    }
  }

  /** A growing window goes on taking between its foot and a level it is not capped at. */
  lemma TakesBetween(w: WindowInput, level: real)
    requires Open(w) && Foot(w) <= level && (w.maxSize.Some? ==> level <= Top(w))
    ensures Takes(w, level)
  {
    OpenAt(w, level);
  }

  lemma JoinedAt(ws: seq<WindowInput>, i: nat, j: nat, k: nat) returns (a: real, b: real)
    requires i < |ws| && j < |ws| && k < |ws| && Clampable(ws) && Open(ws[i]) && Meets(ws[i], ws[j], ws[k])
    ensures a < b && Takes(ws[i], a) && Takes(ws[i], b) && Rate(ws, b) < Rate(ws, a)
  {
    b := Foot(ws[k]);
    OpenAt(ws[j], b);
    OpenAt(ws[k], b);
    HandedMore(ws, b, k, j);
    a := BelowFoot(ws, Foot(ws[i]), Redistributed(ws, b, k) - Base(ws[k], b), k);
    TakesBetween(ws[i], a);
    TakesBetween(ws[i], b);
    RateDrops(ws, a, b, i, k);
  }

  lemma JoinedShrinks(ws: seq<WindowInput>, gap: real, i: nat)
    requires i < |ws| && Grounded(ws, i) && Joined(ws, i)
    ensures CanShrinkInRoom(ws, gap, i)
  {
    var j, k :| 0 <= j < |ws| && 0 <= k < |ws| && Meets(ws[i], ws[j], ws[k]);
    var a, b := JoinedAt(ws, i, j, k);
    TakenAtRate(ws, a, i);
    TakenAtRate(ws, b, i);
    AtRateGrows(Rate(ws, b), Rate(ws, a), Weight(ws[i]));
    HandedNoLess(ws, b, i);
    ShrinksBetween(ws, gap, a, b, i);
  }

  /** With room both times, exactly these windows can be made smaller by more space. */
  lemma ShrinksInRoomExactly(ws: seq<WindowInput>, gap: real, i: nat)
    requires i < |ws| && Grounded(ws, i)
    ensures CanShrinkInRoom(ws, gap, i) <==> Overtaken(ws, i) || Joined(ws, i)
  {
    if CanShrinkInRoom(ws, gap, i) {
      var less, more, s, t :|
        less <= more && Solved(ws, less, gap, s) && Solved(ws, more, gap, t) && t[i] < s[i] &&
        HasRoom(ws, Usable(less, gap, |ws|)) && HasRoom(ws, Usable(more, gap, |ws|));
      var u, v := Usable(less, gap, |ws|), Usable(more, gap, |ws|);
      var a :| Rests(ws, u, a) && s == Finished(ws, a);
      var b :| Rests(ws, v, b) && t == Finished(ws, b);
      ShrinksOnlyIf(ws, u, v, a, b, i);
    } else if Overtaken(ws, i) {
      OvertakenShrinks(ws, gap, i);
    } else if Joined(ws, i) {
      JoinedShrinks(ws, gap, i);
    }
  }

  // Without room for the minimums.

  /** Somewhere more space makes a window smaller. */
  ghost predicate CanShrink(ws: seq<WindowInput>, gap: real, i: nat)
    requires i < |ws|
  {
    exists less, more, s, t :: less <= more && Solved(ws, less, gap, s) && Solved(ws, more, gap, t) && t[i] < s[i]
  }

  /** Its share of the space that the minimums need is more than the least size
      of a window: it has to give way once the others get their minimum. */
  predicate GivesWay(ws: seq<WindowInput>, i: nat)
    requires i < |ws|
  {
    Least(ws[i]) < ShareOf(ws, Sum(Minimums(ws)), i)
  }

  /** The share of a space that falls to a window. */
  function ShareOf(ws: seq<WindowInput>, space: real, i: nat): real
    requires i < |ws|
  {
    SumAtLeast(Weights(ws), i);
    Portion(space, Weight(ws[i]), Sum(Weights(ws)))
  }

  lemma SharesGrow(ws: seq<WindowInput>, low: real, high: real, i: nat)
    requires i < |ws| && low <= high
    ensures ShareOf(ws, low, i) <= ShareOf(ws, high, i)
    ensures ShareOf(ws, 0.0, i) == 0.0
  {
    SumAtLeast(Weights(ws), i);
    assert Weights(ws)[i] == Weight(ws[i]);
    var part := Weight(ws[i]) / Sum(Weights(ws));
    assert 0.0 < part;
    ShareGrows(low, high, part);
  }

  /** Some smaller space has a share that is still more than `size`. */
  lemma ShareJustBelow(ws: seq<WindowInput>, space: real, size: real, i: nat) returns (less: real)
    requires i < |ws| && 0.0 <= size < ShareOf(ws, space, i)
    ensures 0.0 < less < space && size < ShareOf(ws, less, i)
  {
    SumAtLeast(Weights(ws), i);
    assert Weights(ws)[i] == Weight(ws[i]);
    var part := Weight(ws[i]) / Sum(Weights(ws));
    assert 0.0 < part;
    Compare(space, part, size);
    less := (size / part + space) / 2.0;
    Compare(less, part, size);
  }

  lemma RoomGivesLeast(ws: seq<WindowInput>, level: real, i: nat)
    requires i < |ws| && Clampable(ws)
    ensures Least(ws[i]) <= Finished(ws, level)[i]
  {
    HandedNoLess(ws, level, i);
    if Capped(ws[i], level) {
      CappedIs(ws, level, i);
    }
  }

  /** The lowest level at which an open window starts to grow. */
  lemma {:induction false} LowestFoot(ws: seq<WindowInput>) returns (level: real)
    ensures forall i :: 0 <= i < |ws| && Open(ws[i]) ==> level <= Foot(ws[i])
    ensures (exists i :: 0 <= i < |ws| && Open(ws[i])) ==> exists i :: 0 <= i < |ws| && Open(ws[i]) && level == Foot(ws[i])
  {
    level := 0.0;
    if ws != [] {
      var n := |ws| - 1;
      var before := LowestFoot(ws[..n]);
      assert forall i :: 0 <= i < n ==> ws[..n][i] == ws[i];
      level := before;
      if Open(ws[n]) && (Foot(ws[n]) < before || forall i :: 0 <= i < n ==> !Open(ws[i])) {
        level := Foot(ws[n]);
      }
    }
  }

  /** For some space, with room, every window has its least size. */
  lemma LeastLevel(ws: seq<WindowInput>) returns (level: real)
    requires Clampable(ws)
    ensures Rests(ws, Sum(Bases(ws, level)), level)
    ensures forall i :: 0 <= i < |ws| ==> Redistributed(ws, level, i) == Least(ws[i])
  {
    level := LowestFoot(ws);
    forall i | 0 <= i < |ws|
      ensures Base(ws[i], level) == Least(ws[i]) && !Capped(ws[i], level)
      ensures Open(ws[i]) && level == Foot(ws[i]) ==> !Pinned(ws[i], level)
    {
      if Open(ws[i]) {
        OpenAt(ws[i], level);
      } else {
        ClosedNeverCapped(ws[i], level);
      }
    }
    assert Helds(ws, level) == Bases(ws, level);
  }

  lemma GivingWayShrinks(ws: seq<WindowInput>, gap: real, i: nat)
    requires i < |ws| && Grounded(ws, i) && GivesWay(ws, i)
    ensures CanShrink(ws, gap, i)
  {
    var less := ShareJustBelow(ws, Sum(Minimums(ws)), Least(ws[i]), i);
    var s := seq(|ws|, k requires 0 <= k < |ws| => Squeezed(ws, less, k));
    assert Solved(ws, less + Gaps(gap, |ws|), gap, s);
    var level := LeastLevel(ws);
    RestsInRoom(ws, gap, level, i);
    SumOrder(Minimums(ws), Bases(ws, level));
    var more := Sum(Bases(ws, level));
    assert Solved(ws, more + Gaps(gap, |ws|), gap, Finished(ws, level)) && less <= more;
  }

  /** A window that has less than it was squeezed to had to give way. */
  lemma SqueezedShrinks(ws: seq<WindowInput>, less: real, more: real, gap: real, s: seq<real>, t: seq<real>, i: nat)
    requires i < |ws| && Grounded(ws, i) && less <= more && !HasRoom(ws, Usable(less, gap, |ws|))
    requires Solved(ws, less, gap, s) && Solved(ws, more, gap, t) && t[i] < s[i]
    ensures GivesWay(ws, i)
  {
    var u, v := Usable(less, gap, |ws|), Usable(more, gap, |ws|);
    SharesGrow(ws, Max(u, 0.0), Max(v, 0.0), i);
    if HasRoom(ws, v) {
      var b :| Rests(ws, v, b) && t == Finished(ws, b);
      RoomGivesLeast(ws, b, i);
      if u < Sum(Minimums(ws)) {
        SharesGrow(ws, u, Sum(Minimums(ws)), i);
      }
    }
  }

  /** The windows that more space can make smaller, said on the inputs. */
  lemma ShrinksExactly(ws: seq<WindowInput>, gap: real, i: nat)
    requires i < |ws| && Grounded(ws, i)
    ensures CanShrink(ws, gap, i) <==> Overtaken(ws, i) || Joined(ws, i) || GivesWay(ws, i)
  {
    ShrinksInRoomExactly(ws, gap, i);
    if CanShrink(ws, gap, i) {
      var less, more, s, t :| less <= more && Solved(ws, less, gap, s) && Solved(ws, more, gap, t) && t[i] < s[i];
      if !HasRoom(ws, Usable(less, gap, |ws|)) {
        SqueezedShrinks(ws, less, more, gap, s, t, i);
      }
    }
    if GivesWay(ws, i) {
      GivingWayShrinks(ws, gap, i);
    }
  }

  /** In a row with no maximums, or of one window, which are the rows that are laid
      out, a window shrinks only when it has to give way. */
  lemma ShrinksAsLaidOut(ws: seq<WindowInput>, gap: real, i: nat)
    requires i < |ws| && Grounded(ws, i)
    requires |ws| == 1 || forall k :: 0 <= k < |ws| ==> ws[k].maxSize.None?
    ensures !CanShrinkInRoom(ws, gap, i)
    ensures CanShrink(ws, gap, i) <==> GivesWay(ws, i)
  {
    ShrinksInRoomExactly(ws, gap, i);
    ShrinksExactly(ws, gap, i);
    NobodyMeets(ws, i);
  }

  lemma NobodyMeets(ws: seq<WindowInput>, i: nat)
    requires i < |ws| && (|ws| == 1 || forall k :: 0 <= k < |ws| ==> ws[k].maxSize.None?)
    ensures !Overtaken(ws, i) && !Joined(ws, i)
  {
  }

  // Inputs.

  lemma SumTwo(s: seq<real>)
    requires |s| == 2
    ensures Sum(s) == s[0] + s[1]
  {
    assert s[..1][..0] == [] && s[..1] == [s[0]];
    assert Sum(s[..1]) == s[0];
  }

  lemma SumThree(s: seq<real>)
    requires |s| == 3
    ensures Sum(s) == s[0] + s[1] + s[2]
  {
    SumTwo(s[..2]);
  }

  /** With a maximum a window can shrink because another one is no longer pinned
      and takes of the excess too. */
  lemma UnpinnedShrinksAnother()
    ensures var plain := (minimum: real, maximum: Option<real>) => WindowInput(1.0, minimum, maximum, None);
            var ws := [plain(1.0, Some(10.0)), plain(1.0, None), plain(100.0, None)];
            Solved(ws, 299.0, 0.0, [10.0, 189.0, 100.0]) && Solved(ws, 300.0, 0.0, [10.0, 145.0, 145.0])
  {
    var plain := (minimum: real, maximum: Option<real>) => WindowInput(1.0, minimum, maximum, None);
    var ws := [plain(1.0, Some(10.0)), plain(1.0, None), plain(100.0, None)];
    SumThree(Minimums(ws));
    FinishThree(ws, 99.5);
    FinishThree(ws, 100.0);
    assert Finished(ws, 99.5) == [10.0, 189.0, 100.0];
    assert Finished(ws, 100.0) == [10.0, 145.0, 145.0];
  }

  lemma FinishThree(ws: seq<WindowInput>, level: real)
    requires |ws| == 3
    ensures Sum(Bases(ws, level)) == Base(ws[0], level) + Base(ws[1], level) + Base(ws[2], level)
    ensures Excess(ws, level) ==
            Base(ws[0], level) + Base(ws[1], level) + Base(ws[2], level) - Held(ws[0], level) - Held(ws[1], level) - Held(ws[2], level)
    ensures TakeWeight(ws, level) ==
            (if Takes(ws[0], level) then Weight(ws[0]) else 0.0) + (if Takes(ws[1], level) then Weight(ws[1]) else 0.0) +
            (if Takes(ws[2], level) then Weight(ws[2]) else 0.0)
  {
    SumThree(Bases(ws, level));
    SumThree(Helds(ws, level));
    SumThree(Masked(Weights(ws), TakeMask(ws, level), true));
  }

  /** And one can shrink because it is held to its maximum, having been handed
      more than that with less space. */
  lemma HeldBackShrinks()
    ensures var plain := (maximum: Option<real>) => WindowInput(1.0, 1.0, maximum, None);
            var ws := [plain(Some(10.0)), plain(Some(100.0)), plain(None)];
            Solved(ws, 240.0, 0.0, [10.0, 115.0, 115.0]) && Solved(ws, 303.0, 0.0, [10.0, 100.0, 193.0])
  {
    var plain := (maximum: Option<real>) => WindowInput(1.0, 1.0, maximum, None);
    var ws := [plain(Some(10.0)), plain(Some(100.0)), plain(None)];
    SumThree(Minimums(ws));
    FinishThree(ws, 80.0);
    FinishThree(ws, 101.0);
    assert Finished(ws, 80.0) == [10.0, 115.0, 115.0];
    assert Finished(ws, 101.0) == [10.0, 100.0, 193.0];
  }

  /** Without maximums one can shrink because the other then has its minimum. */
  lemma RoomShrinksAnother()
    ensures var ws := [WindowInput(9.0, 1.0, None, None), WindowInput(1.0, 100.0, None, None)];
            Solved(ws, 100.0, 0.0, [90.0, 100.0]) && Solved(ws, 101.0, 0.0, [1.0, 100.0])
  {
    var ws := [WindowInput(9.0, 1.0, None, None), WindowInput(1.0, 100.0, None, None)];
    SumTwo(Minimums(ws));
    SumTwo(Weights(ws));
    SumTwo(Bases(ws, 1.0 / 9.0));
    assert Helds(ws, 1.0 / 9.0) == Bases(ws, 1.0 / 9.0);
    assert Finished(ws, 1.0 / 9.0) == [1.0, 100.0];
    assert Squeezed(ws, 100.0, 0) == 90.0 && Squeezed(ws, 100.0, 1) == 100.0;
  }
}
