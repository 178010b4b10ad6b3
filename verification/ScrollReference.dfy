/** What the size solver comes to, said of the windows as they are given
    (`src/model/scroll_constraints.rs`): one level below which a window keeps its
    minimum and above which it reaches its maximum, and one rate at which the
    others are given space for their weight. */
module ScrollReference {
  import opened Options
  import opened Reals
  import opened ScrollConstraints
  import opened ScrollGrowth

  // The reference.

  /** What a weight counts as. */
  function Worth(w: WindowInput): real { if w.weight < 0.1 then 0.1 else w.weight }

  /** Whether a window has a part in the sharing at all. */
  predicate CanShare(w: WindowInput)
  {
    w.fixedSize.None? && (w.maxSize.Some? ==> w.minSize < w.maxSize.value)
  }

  /** Its share is not below its minimum. */
  predicate Shares(w: WindowInput, level: real) { CanShare(w) && w.minSize <= AtRate(level, Worth(w)) }

  /** Its share is above its maximum. */
  predicate Full(w: WindowInput, level: real)
  {
    Shares(w, level) && w.maxSize.Some? && w.maxSize.value < AtRate(level, Worth(w))
  }

  /** A fixed size within its bounds; otherwise the minimum. */
  function Unshared(w: WindowInput): real
  {
    if w.fixedSize.None? || w.fixedSize.value < w.minSize then w.minSize
    else if w.maxSize.Some? && w.maxSize.value < w.fixedSize.value then w.maxSize.value
    else w.fixedSize.value
  }

  function SizeAt(w: WindowInput, level: real, rate: real): real
  {
    if !Shares(w, level) then Unshared(w) else if Full(w, level) then w.maxSize.value else AtRate(rate, Worth(w))
  }

  /** The sizes before maximums are looked at. */
  function Uncapped(ws: seq<WindowInput>, level: real): (r: seq<real>)
    ensures |r| == |ws|
  {
    seq(|ws|, i requires 0 <= i < |ws| => if Shares(ws[i], level) then AtRate(level, Worth(ws[i])) else Unshared(ws[i]))
  }

  /** The sizes before the floor of one. */
  function SizesAt(ws: seq<WindowInput>, level: real, rate: real): (r: seq<real>)
    ensures |r| == |ws|
  {
    seq(|ws|, i requires 0 <= i < |ws| => SizeAt(ws[i], level, rate))
  }

  /** The space is used up at the level, unless nobody shares and it is not enough. */
  ghost predicate Levelled(ws: seq<WindowInput>, usable: real, level: real)
  {
    if exists i :: 0 <= i < |ws| && Shares(ws[i], level) then Sum(Uncapped(ws, level)) == usable
    else (exists i :: 0 <= i < |ws| && CanShare(ws[i])) ==> usable < Sum(Uncapped(ws, level))
  }

  /** What the maximums give back raises the rate above the level, and is used up
      too, as long as anybody can take it. */
  ghost predicate Balanced(ws: seq<WindowInput>, usable: real, level: real, rate: real, sizes: seq<real>)
  {
    |sizes| == |ws| && Levelled(ws, usable, level) && level <= rate &&
    (forall i :: 0 <= i < |ws| ==> sizes[i] == Max(SizeAt(ws[i], level, rate), 1.0)) &&
    ((forall i :: 0 <= i < |ws| ==> !Full(ws[i], level)) ==> rate == level) &&
    ((exists i :: 0 <= i < |ws| && Shares(ws[i], level) && !Full(ws[i], level)) ==> Sum(SizesAt(ws, level, rate)) == usable)
  }

  /** Without room every window has its share, or its minimum if that is more. */
  ghost predicate SqueezedTo(ws: seq<WindowInput>, usable: real, rate: real, sizes: seq<real>)
  {
    |sizes| == |ws| &&
    AtRate(rate, Sum(seq(|ws|, i requires 0 <= i < |ws| => Worth(ws[i])))) == (if usable < 0.0 then 0.0 else usable) &&
    forall i :: 0 <= i < |ws| ==> sizes[i] == Max(Max(AtRate(rate, Worth(ws[i])), ws[i].minSize), 1.0)
  }

  /** What is left for windows once there are gaps between them. */
  function LeftFor(ws: seq<WindowInput>, available: real, gap: real): real
  {
    if ws == [] then available else available - gap * (|ws| - 1) as real
  }

  /** Whether all minimums fit. */
  predicate Roomy(ws: seq<WindowInput>, usable: real)
  {
    0.0 < usable && Sum(seq(|ws|, i requires 0 <= i < |ws| => ws[i].minSize)) <= usable
  }

  ghost predicate Reference(ws: seq<WindowInput>, available: real, gap: real, sizes: seq<real>)
  {
    var usable := LeftFor(ws, available, gap);
    if Roomy(ws, usable) then exists level, rate :: Balanced(ws, usable, level, rate, sizes)
    else exists rate :: SqueezedTo(ws, usable, rate, sizes)
  }

  // The solver's answer is the reference's.

  lemma SameWindow(w: WindowInput, level: real)
    requires Clampable([w])
    ensures Weight(w) == Worth(w)
    ensures CanShare(w) <==> InitialPin(w).None?
    ensures Shares(w, level) <==> !Pinned(w, level)
    ensures Full(w, level) <==> Capped(w, level)
    ensures Base(w, level) == if Shares(w, level) then AtRate(level, Worth(w)) else Unshared(w)
    ensures Held(w, level) == if Full(w, level) then w.maxSize.value else Base(w, level)
  {
    assert [w][0] == w;
  }

  lemma OneClampable(ws: seq<WindowInput>, i: nat)
    requires Clampable(ws) && i < |ws|
    ensures Clampable([ws[i]])
  {
  }

  lemma SameLevel(ws: seq<WindowInput>, usable: real, level: real)
    requires Clampable(ws)
    ensures Bases(ws, level) == Uncapped(ws, level)
    ensures Rests(ws, usable, level) <==> Levelled(ws, usable, level)
    ensures forall i :: 0 <= i < |ws| ==> (Takes(ws[i], level) <==> Shares(ws[i], level) && !Full(ws[i], level))
  {
    forall i | 0 <= i < |ws|
      ensures Base(ws[i], level) == (if Shares(ws[i], level) then AtRate(level, Worth(ws[i])) else Unshared(ws[i]))
      ensures (Shares(ws[i], level) <==> !Pinned(ws[i], level)) && (CanShare(ws[i]) <==> InitialPin(ws[i]).None?)
      ensures Full(ws[i], level) <==> Capped(ws[i], level)
    {
      OneClampable(ws, i);
      SameWindow(ws[i], level);
    }
  }

  lemma SizeIs(ws: seq<WindowInput>, level: real, i: nat)
    requires Clampable(ws) && i < |ws|
    ensures Redistributed(ws, level, i) == SizeAt(ws[i], level, Rate(ws, level))
  {
    OneClampable(ws, i);
    SameWindow(ws[i], level);
    if Takes(ws[i], level) {
      TakenAtRate(ws, level, i);
    }
  }

  lemma RateAtLeast(ws: seq<WindowInput>, level: real)
    ensures level <= Rate(ws, level)
    ensures (forall i :: 0 <= i < |ws| ==> !Capped(ws[i], level)) ==> Rate(ws, level) == level
  {
    if 0.0 < Excess(ws, level) && 0.0 < TakeWeight(ws, level) {
      RateTimes(level, Excess(ws, level), TakeWeight(ws, level), 1.0);
    }
    if forall i :: 0 <= i < |ws| ==> !Capped(ws[i], level) {
      assert Helds(ws, level) == Bases(ws, level);
    }
  }

  /** The sizes at a resting level are balanced. */
  lemma RestingIsBalanced(ws: seq<WindowInput>, usable: real, level: real)
    requires Clampable(ws) && Rests(ws, usable, level)
    ensures Balanced(ws, usable, level, Rate(ws, level), Finished(ws, level))
  {
    SameLevel(ws, usable, level);
    RateAtLeast(ws, level);
    forall i | 0 <= i < |ws| ensures Redistributed(ws, level, i) == SizeAt(ws[i], level, Rate(ws, level)) {
      SizeIs(ws, level, i);
    }
    assert SizesAt(ws, level, Rate(ws, level)) == Redistributions(ws, level);
    if i :| 0 <= i < |ws| && Shares(ws[i], level) && !Full(ws[i], level) {
      AllUsed(ws, usable, level, i);
    }
  }

  /** A lower rate gives less in all. */
  lemma RateFixed(ws: seq<WindowInput>, level: real, low: real, high: real, i: nat)
    requires low <= high && Sum(SizesAt(ws, level, low)) == Sum(SizesAt(ws, level, high))
    requires i < |ws| && Shares(ws[i], level) && !Full(ws[i], level)
    ensures low == high
  {
    var s, t := SizesAt(ws, level, low), SizesAt(ws, level, high);
    forall k | 0 <= k < |ws| ensures s[k] <= t[k] {
      SizeGrows(ws[k], level, low, high);
    }
    SumOrder(s, t);
    SizeGrows(ws[i], level, low, high);
    assert s[i] == t[i];
  }

  lemma SizeGrows(w: WindowInput, level: real, low: real, high: real)
    requires low <= high
    ensures SizeAt(w, level, low) <= SizeAt(w, level, high)
    ensures Shares(w, level) && !Full(w, level) && low < high ==> SizeAt(w, level, low) < SizeAt(w, level, high)
  {
    AtRateGrows(low, high, Worth(w));
  }

  /** Balanced sizes are those of a resting level. */
  lemma BalancedRests(ws: seq<WindowInput>, usable: real, level: real, rate: real, sizes: seq<real>)
    requires Clampable(ws) && Balanced(ws, usable, level, rate, sizes)
    ensures Rests(ws, usable, level) && sizes == Finished(ws, level)
  {
    SameLevel(ws, usable, level);
    RestingIsBalanced(ws, usable, level);
    if i :| 0 <= i < |ws| && Shares(ws[i], level) && !Full(ws[i], level) {
      if rate <= Rate(ws, level) {
        RateFixed(ws, level, rate, Rate(ws, level), i);
      } else {
        RateFixed(ws, level, Rate(ws, level), rate, i);
      }
    }
    assert forall k :: 0 <= k < |ws| ==> sizes[k] == Finished(ws, level)[k];
  }

  lemma SameSpace(ws: seq<WindowInput>, available: real, gap: real)
    ensures LeftFor(ws, available, gap) == Usable(available, gap, |ws|)
    ensures Roomy(ws, Usable(available, gap, |ws|)) <==> HasRoom(ws, Usable(available, gap, |ws|))
  {
    assert seq(|ws|, i requires 0 <= i < |ws| => ws[i].minSize) == Minimums(ws);
  }

  lemma TotalWorth(ws: seq<WindowInput>)
    requires ws != []
    ensures seq(|ws|, i requires 0 <= i < |ws| => Worth(ws[i])) == Weights(ws) && 0.0 < Sum(Weights(ws))
  {
    assert seq(|ws|, i requires 0 <= i < |ws| => Worth(ws[i])) == Weights(ws);
    SumAtLeast(Weights(ws), 0);
    assert Weights(ws)[0] == Weight(ws[0]);
  }

  lemma SqueezedSize(ws: seq<WindowInput>, usable: real, rate: real, i: nat)
    requires i < |ws| && 0.0 < Sum(Weights(ws)) && rate == Max(usable, 0.0) / Sum(Weights(ws))
    ensures Squeezed(ws, usable, i) == Max(Max(AtRate(rate, Worth(ws[i])), ws[i].minSize), 1.0)
  {
    PortionRate(Max(usable, 0.0), Weight(ws[i]), Sum(Weights(ws)));
    assert Weight(ws[i]) == Worth(ws[i]);
  }

  lemma SqueezedIs(ws: seq<WindowInput>, usable: real, sizes: seq<real>)
    requires ws != []
    ensures (|sizes| == |ws| && forall i :: 0 <= i < |ws| ==> sizes[i] == Squeezed(ws, usable, i)) <==>
            exists rate :: SqueezedTo(ws, usable, rate, sizes)
  {
    TotalWorth(ws);
    var total, space := Sum(Weights(ws)), Max(usable, 0.0);
    var rate := space / total;
    Quotient(rate, total, space);
    forall i | 0 <= i < |ws| ensures Squeezed(ws, usable, i) == Max(Max(AtRate(rate, Worth(ws[i])), ws[i].minSize), 1.0) {
      SqueezedSize(ws, usable, rate, i);
    }
    if |sizes| == |ws| && forall i :: 0 <= i < |ws| ==> sizes[i] == Squeezed(ws, usable, i) {
      assert SqueezedTo(ws, usable, rate, sizes);
    }
    if other :| SqueezedTo(ws, usable, other, sizes) {
      Quotient(other, total, space);
    }
  }

  lemma Quotient(rate: real, total: real, space: real)
    requires 0.0 < total
    ensures AtRate(rate, total) == space <==> rate == space / total
  {
  }

  /** For all windows whose fixed sizes can be clamped, where there is room: sizes
      are the solver's answer if and only if they are the reference's. */
  lemma SolvedIsReference(ws: seq<WindowInput>, available: real, gap: real, sizes: seq<real>)
    requires ws != [] && (Roomy(ws, LeftFor(ws, available, gap)) ==> Clampable(ws))
    ensures Solved(ws, available, gap, sizes) <==> Reference(ws, available, gap, sizes)
  {
    var usable := Usable(available, gap, |ws|);
    SameSpace(ws, available, gap);
    if !HasRoom(ws, usable) {
      SqueezedIs(ws, usable, sizes);
    } else {
      if level :| Rests(ws, usable, level) && sizes == Finished(ws, level) {
        RestingIsBalanced(ws, usable, level);
      }
      if level, rate :| Balanced(ws, usable, level, rate, sizes) {
        BalancedRests(ws, usable, level, rate, sizes);
      }
    }
  }

  /** A window is reported as constrained if it does not share and is no bigger
      than its maximum, or has its minimum. */
  lemma ReportIs(ws: seq<WindowInput>, usable: real, level: real, out: seq<WindowOutput>)
    requires Clampable(ws) && Reported(ws, usable, level, out)
    ensures exists rate :: Balanced(ws, usable, level, rate, SizesOf(out))
    ensures forall i :: 0 <= i < |ws| ==>
              (out[i].wasConstrained <==>
               !Shares(ws[i], level) &&
               ((ws[i].maxSize.Some? && out[i].size <= ws[i].maxSize.value) ||
                (-1.0 < (out[i].size - ws[i].minSize) * 4503599627370496.0 < 1.0)))
  {
    RestingIsBalanced(ws, usable, level);
    forall i | 0 <= i < |ws| ensures Shares(ws[i], level) <==> !Pinned(ws[i], level) {
      OneClampable(ws, i);
      SameWindow(ws[i], level);
    }
  }

  // In proportion.

  /** Neither at its minimum nor at its maximum, nor of a fixed size. */
  predicate Between(w: WindowInput, size: real)
  {
    w.fixedSize.None? && w.minSize < size && w.maxSize != Some(size)
  }

  lemma BetweenAtRate(w: WindowInput, level: real, rate: real)
    requires 1.0 <= w.minSize && 0.1 <= w.weight
    ensures Between(w, Max(SizeAt(w, level, rate), 1.0)) ==> Max(SizeAt(w, level, rate), 1.0) == AtRate(rate, w.weight)
    ensures Between(w, Max(Max(AtRate(rate, Worth(w)), w.minSize), 1.0)) ==> Max(Max(AtRate(rate, Worth(w)), w.minSize), 1.0) == AtRate(rate, w.weight)
  {
  }

  lemma AtOneRate(ws: seq<WindowInput>, available: real, gap: real, sizes: seq<real>) returns (rate: real)
    requires ws != [] && AtLeastOne(ws) && Reference(ws, available, gap, sizes)
    ensures |sizes| == |ws|
    ensures forall i :: 0 <= i < |ws| && 0.1 <= ws[i].weight && Between(ws[i], sizes[i]) ==> sizes[i] == AtRate(rate, ws[i].weight)
  {
    var usable := LeftFor(ws, available, gap);
    if Roomy(ws, usable) {
      var level, r :| Balanced(ws, usable, level, r, sizes);
      rate := r;
      forall i | 0 <= i < |ws| && 0.1 <= ws[i].weight && Between(ws[i], sizes[i]) ensures sizes[i] == AtRate(rate, ws[i].weight) {
        BetweenAtRate(ws[i], level, rate);
      }
    } else {
      var r :| SqueezedTo(ws, usable, r, sizes);
      rate := r;
      forall i | 0 <= i < |ws| && 0.1 <= ws[i].weight && Between(ws[i], sizes[i]) ensures sizes[i] == AtRate(rate, ws[i].weight) {
        BetweenAtRate(ws[i], 0.0, rate);
      }
    }
  }

  /** Of two windows that are at no bound of theirs, each has space for its
      weight, with room and without. */
  lemma InProportion(ws: seq<WindowInput>, available: real, gap: real, sizes: seq<real>, i: nat, j: nat)
    requires AtLeastOne(ws) && Clampable(ws) && Solved(ws, available, gap, sizes) && i < |ws| && j < |ws|
    requires 0.1 <= ws[i].weight && 0.1 <= ws[j].weight && Between(ws[i], sizes[i]) && Between(ws[j], sizes[j])
    ensures InRatio(sizes[i], sizes[j], ws[i].weight, ws[j].weight)
  {
    SolvedIsReference(ws, available, gap, sizes);
    var rate := AtOneRate(ws, available, gap, sizes);
    CrossMultiply(sizes[i], sizes[j], rate, ws[i].weight, ws[j].weight);
  }

  predicate InRatio(s: real, t: real, v: real, w: real) { s * w == t * v }

  lemma CrossMultiply(s: real, t: real, rate: real, v: real, w: real)
    requires s == AtRate(rate, v) && t == AtRate(rate, w)
    ensures InRatio(s, t, v, w)
  {
    assert (rate * v) * w == (rate * w) * v;
  }
}
