/** What more space does to the sizes the solver hands out
    (`src/model/scroll_constraints.rs`), from one resting level to another. Without
    maximums no window shrinks as long as there is room for all. */
module ScrollGrowth {
  import opened Reals
  import opened ScrollConstraints

  /** The level for more space is no lower, unless both levels give the same sizes. */
  lemma RestsInOrder(ws: seq<WindowInput>, less: real, more: real, a: real, b: real)
    requires less <= more && Rests(ws, less, a) && Rests(ws, more, b) && b < a
    ensures Bases(ws, a) == Bases(ws, b)
    ensures forall i :: 0 <= i < |ws| ==> (Pinned(ws[i], a) <==> Pinned(ws[i], b))
  {
    BasesGrow(ws, b, a);
    forall i | 0 <= i < |ws| ensures Pinned(ws[i], a) ==> Pinned(ws[i], b) {
      BaseGrows(ws[i], b, a);
    }
    SumOrder(Bases(ws, b), Bases(ws, a));
    if exists i :: 0 <= i < |ws| && !Pinned(ws[i], b) {
      RestIsUnique(ws, less, b, a);
    } else if exists i :: 0 <= i < |ws| && InitialPin(ws[i]).None? {
      AllPinned(ws, less, more, a, b);
    } else {
      assert Bases(ws, a) == Bases(ws, b);
    }
  }

  /** Where every window is pinned for more space, so it is for less. */
  lemma AllPinned(ws: seq<WindowInput>, less: real, more: real, a: real, b: real)
    requires less <= more && Rests(ws, less, a) && more < Sum(Bases(ws, b)) <= Sum(Bases(ws, a))
    requires forall i :: 0 <= i < |ws| ==> Pinned(ws[i], b)
    ensures forall i :: 0 <= i < |ws| ==> Pinned(ws[i], a)
    ensures Bases(ws, a) == Bases(ws, b)
  {
    assert !exists i :: 0 <= i < |ws| && !Pinned(ws[i], a);
    forall i | 0 <= i < |ws| ensures Bases(ws, a)[i] == Bases(ws, b)[i] {
      assert Pinned(ws[i], a) && Pinned(ws[i], b);
    }
  }

  // What a window takes of the space the maximums gave back.

  /** What a weight of one comes to for a window that takes of it. */
  function Rate(ws: seq<WindowInput>, level: real): real
  {
    if 0.0 < Excess(ws, level) && 0.0 < TakeWeight(ws, level) then level + Excess(ws, level) / TakeWeight(ws, level) else level
  }

  /** What a weight comes to at a rate. */
  function AtRate(rate: real, weight: real): real
  {
    rate * weight
  }

  lemma AtRateGrows(low: real, high: real, weight: real)
    requires 0.0 < weight
    ensures low <= high ==> AtRate(low, weight) <= AtRate(high, weight)
    ensures low < high ==> AtRate(low, weight) < AtRate(high, weight)
  {
    if low <= high {
      ShareGrows(low, high, weight);
    }
  }

  lemma RateTimes(level: real, excess: real, total: real, weight: real)
    requires 0.0 < total && 0.0 < excess
    ensures AtRate(level, weight) + Portion(excess, weight, total) == AtRate(level + excess / total, weight)
    ensures level <= level + excess / total
  {
    assert Portion(excess, weight, total) == (excess / total) * weight;
    assert 0.0 <= excess / total;
  }

  /** A window that is not pinned has its share at the level. */
  lemma BaseAtLevel(w: WindowInput, level: real)
    requires !Pinned(w, level)
    ensures Base(w, level) == AtRate(level, Weight(w)) && 0.0 < Weight(w)
  {
  }

  lemma TakenAtRate(ws: seq<WindowInput>, level: real, i: nat)
    requires i < |ws| && Takes(ws[i], level)
    ensures Redistributed(ws, level, i) == AtRate(Rate(ws, level), Weight(ws[i]))
    ensures level <= Rate(ws, level) && 0.0 < Weight(ws[i])
  {
    BaseAtLevel(ws[i], level);
    if 0.0 < Excess(ws, level) && 0.0 < TakeWeight(ws, level) {
      RateTimes(level, Excess(ws, level), TakeWeight(ws, level), Weight(ws[i]));
    }
  }

  /** Every window pinned for less space is pinned for more. */
  ghost predicate StayPinned(ws: seq<WindowInput>, a: real, b: real)
  {
    forall i :: 0 <= i < |ws| ==> Pinned(ws[i], a) ==> Pinned(ws[i], b)
  }

  ghost predicate NoneCapped(ws: seq<WindowInput>, level: real)
  {
    forall i :: 0 <= i < |ws| ==> !Capped(ws[i], level)
  }

  /** How a window fares from one level to a higher one. */
  lemma FaresFrom(ws: seq<WindowInput>, a: real, b: real, i: nat)
    requires a <= b && StayPinned(ws, a, b) && i < |ws|
    ensures !Takes(ws[i], a) ==> !Takes(ws[i], b) && Redistributed(ws, a, i) == Redistributed(ws, b, i)
    ensures Takes(ws[i], a) && !Takes(ws[i], b) ==> Capped(ws[i], b) && Redistributed(ws, b, i) == CapOf(ws[i]).value
  {
    BaseGrows(ws[i], a, b);
  }

  /** A window held to its maximum with more space has less than its share at that level. */
  lemma HeldBelowShare(w: WindowInput, level: real)
    requires Capped(w, level) && !Pinned(w, level)
    ensures CapOf(w).value < AtRate(level, Weight(w)) && 0.0 < Weight(w)
  {
    BaseAtLevel(w, level);
  }

  lemma UnpinnedAbove(w: WindowInput, a: real, b: real)
    requires a <= b && !Pinned(w, a)
    ensures !Pinned(w, b)
  {
    BaseGrows(w, a, b);
  }

  /** A lower rate means less for every window that takes, and for every one that is held then. */
  lemma LowerRateTakesLess(ws: seq<WindowInput>, a: real, b: real, i: nat)
    requires a <= b && StayPinned(ws, a, b) && i < |ws| && b <= Rate(ws, b) < Rate(ws, a)
    ensures Redistributed(ws, b, i) <= Redistributed(ws, a, i)
    ensures Takes(ws[i], a) ==> Redistributed(ws, b, i) < Redistributed(ws, a, i)
  {
    FaresFrom(ws, a, b, i);
    if Takes(ws[i], a) {
      TakenAtRate(ws, a, i);
      AtRateGrows(Rate(ws, b), Rate(ws, a), Weight(ws[i]));
      if Takes(ws[i], b) {
        TakenAtRate(ws, b, i);
      } else {
        UnpinnedAbove(ws[i], a, b);
        HeldBelowShare(ws[i], b);
        AtRateGrows(b, Rate(ws, b), Weight(ws[i]));
      }
    }
  }

  /** A lower rate would leave some of the space unused. */
  lemma LowerRateLeavesSpace(ws: seq<WindowInput>, a: real, b: real, i: nat)
    requires a <= b && StayPinned(ws, a, b) && b <= Rate(ws, b) < Rate(ws, a)
    requires i < |ws| && Takes(ws[i], a)
    ensures Sum(Redistributions(ws, b)) < Sum(Redistributions(ws, a))
  {
    forall k | 0 <= k < |ws| ensures Redistributions(ws, b)[k] <= Redistributions(ws, a)[k] {
      LowerRateTakesLess(ws, a, b, k);
    }
    LowerRateTakesLess(ws, a, b, i);
    SumOrder(Redistributions(ws, b), Redistributions(ws, a));
    assert Redistributions(ws, b)[i] < Redistributions(ws, a)[i];
  }

  /** Where somebody takes, all of the space is used. */
  lemma AllUsed(ws: seq<WindowInput>, usable: real, level: real, i: nat)
    requires Rests(ws, usable, level) && i < |ws| && Takes(ws[i], level)
    ensures Sum(Redistributions(ws, level)) == usable
  {
    RedistributionTotal(ws, level);
    assert !Pinned(ws[i], level);
  }

  /** With the same windows pinned the rate does not fall, as long as somebody takes. */
  lemma RateGrows(ws: seq<WindowInput>, less: real, more: real, a: real, b: real, i: nat)
    requires less <= more && a <= b && Rests(ws, less, a) && Rests(ws, more, b) && StayPinned(ws, a, b)
    requires i < |ws| && Takes(ws[i], b)
    ensures Takes(ws[i], a) && Rate(ws, a) <= Rate(ws, b)
  {
    FaresFrom(ws, a, b, i);
    AllUsed(ws, less, a, i);
    AllUsed(ws, more, b, i);
    TakenAtRate(ws, b, i);
    if Rate(ws, b) < Rate(ws, a) {
      LowerRateLeavesSpace(ws, a, b, i);
    }
  }

  // Which windows shrink.

  /** With more space a window is held to its maximum, which with less space it
      was handed more than. */
  predicate HeldBack(ws: seq<WindowInput>, a: real, b: real, i: nat)
    requires i < |ws|
  {
    Takes(ws[i], a) && Capped(ws[i], b) && Max(CapOf(ws[i]).value, 1.0) < Finished(ws, a)[i]
  }

  lemma GrowsUnlessHeldBack(ws: seq<WindowInput>, less: real, more: real, a: real, b: real, i: nat)
    requires less <= more && a <= b && Rests(ws, less, a) && Rests(ws, more, b) && StayPinned(ws, a, b) && i < |ws|
    ensures Finished(ws, b)[i] < Finished(ws, a)[i] <==> HeldBack(ws, a, b, i)
  {
    FaresFrom(ws, a, b, i);
    if Takes(ws[i], b) {
      RateGrows(ws, less, more, a, b, i);
      TakenAtRate(ws, a, i);
      TakenAtRate(ws, b, i);
      AtRateGrows(Rate(ws, a), Rate(ws, b), Weight(ws[i]));
      assert Redistributed(ws, a, i) <= Redistributed(ws, b, i);
    }
  }

  /** Where nobody is held to a maximum with less space, the sizes are the base
      sizes, and no window shrinks. */
  lemma GrowsFromUncapped(ws: seq<WindowInput>, a: real, b: real, i: nat)
    requires a <= b && NoneCapped(ws, a) && i < |ws|
    ensures Finished(ws, a)[i] <= Finished(ws, b)[i] && !HeldBack(ws, a, b, i)
  {
    assert Helds(ws, a) == Bases(ws, a);
    RedistributionTotal(ws, b);
    BaseGrows(ws[i], a, b);
    HandedNoLess(ws, b, i);
  }

  lemma HandedNoLess(ws: seq<WindowInput>, level: real, i: nat)
    requires i < |ws|
    ensures Held(ws[i], level) <= Redistributed(ws, level, i)
  {
    if 0.0 < Excess(ws, level) && 0.0 < TakeWeight(ws, level) {
      PortionPositive(Excess(ws, level), Weight(ws[i]), TakeWeight(ws, level));
    }
  }

  /** The rate falls for a window that takes with less space and with more. */
  predicate RateFalls(ws: seq<WindowInput>, a: real, b: real, i: nat)
    requires i < |ws|
  {
    Takes(ws[i], a) && Takes(ws[i], b) &&
    Max(AtRate(Rate(ws, b), Weight(ws[i])), 1.0) < Max(AtRate(Rate(ws, a), Weight(ws[i])), 1.0)
  }

  /** A window that does not take with less space has no less with more. */
  lemma OnlyTakersShrink(ws: seq<WindowInput>, a: real, b: real, i: nat)
    requires a <= b && i < |ws| && !Takes(ws[i], a)
    ensures Redistributed(ws, a, i) <= Redistributed(ws, b, i)
  {
    RedistributionTotal(ws, b);
    BaseGrows(ws[i], a, b);
    HandedNoLess(ws, b, i);
  }

  /** The two ways a window shrinks: it takes with less space, and with more it is
      held to its maximum or takes at a lower rate. */
  lemma ShrinksEitherWay(ws: seq<WindowInput>, less: real, more: real, a: real, b: real, i: nat)
    requires less <= more && Rests(ws, less, a) && Rests(ws, more, b) && i < |ws|
    ensures Finished(ws, b)[i] < Finished(ws, a)[i] <==> HeldBack(ws, a, b, i) || RateFalls(ws, a, b, i)
  {
    if b < a {
      RestsInOrder(ws, less, more, a, b);
      SameBasesFinishAlike(ws, a, b);
      assert Bases(ws, a)[i] == Bases(ws, b)[i];
      if Takes(ws[i], a) && Takes(ws[i], b) {
        TakenAtRate(ws, a, i);
        TakenAtRate(ws, b, i);
        assert Finished(ws, a)[i] == Finished(ws, b)[i];
      }
    } else if !Takes(ws[i], a) {
      OnlyTakersShrink(ws, a, b, i);
    } else {
      UnpinnedAbove(ws[i], a, b);
      TakenAtRate(ws, a, i);
      if Takes(ws[i], b) {
        TakenAtRate(ws, b, i);
      }
    }
  }

  /** Where nobody is held to a maximum with less space, or every window pinned
      with less is pinned with more, no rate falls, and the windows
      that more space shrinks are exactly those held back by their maximum. */
  lemma ShrinksIfHeldBack(ws: seq<WindowInput>, less: real, more: real, a: real, b: real, i: nat)
    requires less <= more && Rests(ws, less, a) && Rests(ws, more, b) && i < |ws|
    requires NoneCapped(ws, a) || StayPinned(ws, a, b)
    ensures Finished(ws, b)[i] < Finished(ws, a)[i] <==> HeldBack(ws, a, b, i)
  {
    if b < a {
      RestsInOrder(ws, less, more, a, b);
      SameBasesFinishAlike(ws, a, b);
      assert Bases(ws, a)[i] == Bases(ws, b)[i];
    } else if NoneCapped(ws, a) {
      GrowsFromUncapped(ws, a, b, i);
    } else {
      GrowsUnlessHeldBack(ws, less, more, a, b, i);
    }
  }

  /** Without maximums more space never makes a window smaller, whatever the
      minimums and fixed sizes. */
  lemma MoreSpaceNeverShrinks(ws: seq<WindowInput>, less: real, more: real, gap: real, s: seq<real>, t: seq<real>)
    requires less <= more && forall i :: 0 <= i < |ws| ==> ws[i].maxSize.None?
    requires HasRoom(ws, Usable(less, gap, |ws|)) && HasRoom(ws, Usable(more, gap, |ws|))
    requires Solved(ws, less, gap, s) && Solved(ws, more, gap, t)
    ensures forall i :: 0 <= i < |ws| ==> s[i] <= t[i]
  {
    var u, v := Usable(less, gap, |ws|), Usable(more, gap, |ws|);
    var a :| Rests(ws, u, a) && s == Finished(ws, a);
    var b :| Rests(ws, v, b) && t == Finished(ws, b);
    forall i | 0 <= i < |ws| ensures s[i] <= t[i] {
      ShrinksIfHeldBack(ws, u, v, a, b, i);
    }
  }
}
