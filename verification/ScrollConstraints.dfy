/** The size solver of `src/model/scroll_constraints.rs`.

    Windows share one row (or column) of space in proportion to their weights,
    subject to minimum, maximum and fixed sizes. The solver pins violators of
    their minimum one at a time and starts over. What it reaches is described
    here by one number, the `level`: the space a weight of one is given.
    A window is pinned exactly when its share at that level is below its
    minimum, so the outcome does not depend on the order of pinning. */
module ScrollConstraints {
  import opened Options
  import opened Reals

  datatype WindowInput = WindowInput(weight: real, minSize: real, maxSize: Option<real>, fixedSize: Option<real>)

  datatype WindowOutput = WindowOutput(size: real, wasConstrained: bool)

  /** The distance below which two 64-bit floats next to one are the same. */
  const EPSILON: real := 1.0 / 4503599627370496.0

  /** The weight of a window; never below a tenth. */
  function Weight(w: WindowInput): real { Max(w.weight, 0.1) }

  /** The space taken by the gaps between `count` windows. */
  function Gaps(gap: real, count: nat): real
  {
    gap * Max(count as real - 1.0, 0.0)
  }

  /** The space left for windows once the gaps between them are taken out. */
  function Usable(available: real, gap: real, count: nat): real
  {
    available - Gaps(gap, count)
  }

  function Clamp(x: real, low: real, high: Option<real>): real
  {
    if x < low then low else if high.Some? && high.value < x then high.value else x
  }

  /** The size a window has before any space is shared out, if it has one. */
  function InitialPin(w: WindowInput): Option<real>
  {
    if w.fixedSize.Some? then Some(Clamp(w.fixedSize.value, w.minSize, w.maxSize))
    else if w.maxSize.Some? && w.maxSize.value <= w.minSize then Some(w.minSize)
    else None
  }

  /** Whether a window takes no part in the sharing at `level`. */
  predicate Pinned(w: WindowInput, level: real)
  {
    InitialPin(w).Some? || level * Weight(w) < w.minSize
  }

  /** The size of a window at `level`, before maximums are looked at. */
  function Base(w: WindowInput, level: real): real
  {
    if InitialPin(w).Some? then InitialPin(w).value else Max(w.minSize, level * Weight(w))
  }

  /** The least size a window ever has where there is room. */
  function Least(w: WindowInput): real
  {
    if InitialPin(w).Some? then InitialPin(w).value else w.minSize
  }

  /** The maximum a window is held to; its minimum wins over its maximum. */
  function CapOf(w: WindowInput): Option<real>
  {
    if w.maxSize.Some? then Some(Max(w.maxSize.value, w.minSize)) else None
  }

  predicate Capped(w: WindowInput, level: real)
  {
    CapOf(w).Some? && CapOf(w).value < Base(w, level)
  }

  function Held(w: WindowInput, level: real): real
  {
    if Capped(w, level) then CapOf(w).value else Base(w, level)
  }

  /** The part of `space` that falls to `weight` out of `total`. */
  function Portion(space: real, weight: real, total: real): real
    requires total != 0.0
  {
    space * (weight / total)
  }

  function Sum(s: seq<real>): real
  {
    if s == [] then 0.0 else Sum(s[..|s| - 1]) + s[|s| - 1]
  }

  /** The values at the positions where `mask` is `want`, zero elsewhere. */
  function Masked(s: seq<real>, mask: seq<bool>, want: bool): (r: seq<real>)
    requires |s| == |mask|
    ensures |r| == |s|
  {
    seq(|s|, i requires 0 <= i < |s| => if mask[i] == want then s[i] else 0.0)
  }

  function SumWhere(s: seq<real>, mask: seq<bool>, want: bool): real
    requires |s| == |mask|
  {
    Sum(Masked(s, mask, want))
  }

  function Weights(ws: seq<WindowInput>): (r: seq<real>)
    ensures |r| == |ws|
  {
    seq(|ws|, i requires 0 <= i < |ws| => Weight(ws[i]))
  }

  function Minimums(ws: seq<WindowInput>): (r: seq<real>)
    ensures |r| == |ws|
  {
    seq(|ws|, i requires 0 <= i < |ws| => ws[i].minSize)
  }

  function Leasts(ws: seq<WindowInput>): (r: seq<real>)
    ensures |r| == |ws|
  {
    seq(|ws|, i requires 0 <= i < |ws| => Least(ws[i]))
  }

  function Bases(ws: seq<WindowInput>, level: real): (r: seq<real>)
    ensures |r| == |ws|
  {
    seq(|ws|, i requires 0 <= i < |ws| => Base(ws[i], level))
  }

  function Helds(ws: seq<WindowInput>, level: real): (r: seq<real>)
    ensures |r| == |ws|
  {
    seq(|ws|, i requires 0 <= i < |ws| => Held(ws[i], level))
  }

  /** Whether there is room for every minimum. */
  predicate HasRoom(ws: seq<WindowInput>, usable: real)
  {
    0.0 < usable && Sum(Minimums(ws)) <= usable
  }

  /** The level the pinning comes to rest at: either somebody shares, and all
      of the usable space is used, or everybody who could share is held at a
      minimum and the space is more than used up. */
  ghost predicate Rests(ws: seq<WindowInput>, usable: real, level: real)
  {
    if exists i :: 0 <= i < |ws| && !Pinned(ws[i], level)
    then Sum(Bases(ws, level)) == usable
    else (exists i :: 0 <= i < |ws| && InitialPin(ws[i]).None?) ==> usable < Sum(Bases(ws, level))
  }

  /** Whether a window takes a share of the space the maximums gave back. */
  predicate Takes(w: WindowInput, level: real) { !Capped(w, level) && !Pinned(w, level) }

  function TakeMask(ws: seq<WindowInput>, level: real): (r: seq<bool>)
    ensures |r| == |ws|
  {
    seq(|ws|, i requires 0 <= i < |ws| => Takes(ws[i], level))
  }

  /** The space given back by windows held to their maximum. */
  function Excess(ws: seq<WindowInput>, level: real): real
  {
    Sum(Bases(ws, level)) - Sum(Helds(ws, level))
  }

  function TakeWeight(ws: seq<WindowInput>, level: real): real
  {
    SumWhere(Weights(ws), TakeMask(ws, level), true)
  }

  function Redistributed(ws: seq<WindowInput>, level: real, i: nat): real
    requires i < |ws|
  {
    var w := ws[i];
    if 0.0 < Excess(ws, level) && 0.0 < TakeWeight(ws, level) && Takes(w, level)
    then Held(w, level) + Portion(Excess(ws, level), Weight(w), TakeWeight(ws, level))
    else Held(w, level)
  }

  /** The sizes handed out at `level`. */
  function Finished(ws: seq<WindowInput>, level: real): (r: seq<real>)
    ensures |r| == |ws|
  {
    seq(|ws|, i requires 0 <= i < |ws| => Max(Redistributed(ws, level, i), 1.0))
  }

  /** The size of a window when the minimums do not fit. */
  function Squeezed(ws: seq<WindowInput>, usable: real, i: nat): real
    requires i < |ws|
  {
    SumAtLeast(Weights(ws), i);
    Max(Max(Portion(Max(usable, 0.0), Weight(ws[i]), Sum(Weights(ws))), ws[i].minSize), 1.0)
  }

  /** What a call of the solver promises about the sizes it returns. */
  ghost predicate Solved(ws: seq<WindowInput>, available: real, gap: real, sizes: seq<real>)
  {
    var usable := Usable(available, gap, |ws|);
    |sizes| == |ws| &&
    if HasRoom(ws, usable)
    then exists level :: Rests(ws, usable, level) && sizes == Finished(ws, level)
    else forall i :: 0 <= i < |ws| ==> sizes[i] == Squeezed(ws, usable, i)
  }

  /** Where a fixed size is given the minimum must not be above the maximum:
      the clamp of the fixed size stops the program otherwise. Sizes are only
      clamped when there is room. */
  predicate Clampable(ws: seq<WindowInput>)
  {
    forall i :: 0 <= i < |ws| && ws[i].fixedSize.Some? && ws[i].maxSize.Some? ==> ws[i].minSize <= ws[i].maxSize.value
  }

  // Sums.

  /** A sum of non-negative values is at least each of them. */
  lemma {:induction false} SumAtLeast(s: seq<real>, i: nat)
    requires i < |s| && forall j :: 0 <= j < |s| ==> 0.0 <= s[j]
    ensures s[i] <= Sum(s)
  {
    var n := |s| - 1;
    if i < n {
      SumAtLeast(s[..n], i);
    } else if n > 0 {
      SumAtLeast(s[..n], n - 1);
    }
  }

  /** A pointwise smaller sequence has a smaller sum, and an equal sum only
      when it is the same sequence. */
  lemma {:induction false} SumOrder(a: seq<real>, b: seq<real>)
    requires |a| == |b| && forall i :: 0 <= i < |a| ==> a[i] <= b[i]
    ensures Sum(a) <= Sum(b)
    ensures Sum(a) == Sum(b) ==> a == b
  {
    if a != [] {
      var n := |a| - 1;
      SumOrder(a[..n], b[..n]);
      assert a == a[..n] + [a[n]] && b == b[..n] + [b[n]];
    }
  }

  lemma {:induction false} SumUpdate(s: seq<real>, i: nat, v: real)
    requires i < |s|
    ensures Sum(s[i := v]) == Sum(s) - s[i] + v
  {
    var n := |s| - 1;
    if i < n {
      SumUpdate(s[..n], i, v);
      assert s[i := v][..n] == s[..n][i := v];
    } else {
      assert s[i := v][..n] == s[..n];
    }
  }

  lemma {:induction false} SumAdd(a: seq<real>, b: seq<real>, c: seq<real>)
    requires |a| == |b| == |c| && forall i :: 0 <= i < |a| ==> c[i] == a[i] + b[i]
    ensures Sum(c) == Sum(a) + Sum(b)
  {
    if a != [] {
      var n := |a| - 1;
      SumAdd(a[..n], b[..n], c[..n]);
    }
  }

  lemma Distribute(rate: real, a: real, b: real)
    ensures rate * (a + b) == rate * a + rate * b
  {
  }

  lemma SumSplit(s: seq<real>, mask: seq<bool>)
    requires |s| == |mask|
    ensures Sum(s) == SumWhere(s, mask, true) + SumWhere(s, mask, false)
  {
    SumAdd(Masked(s, mask, true), Masked(s, mask, false), s);
  }

  /** Pinning position `i` at `v` moves it from one sum to the other. */
  lemma SumPin(s: seq<real>, weights: seq<real>, mask: seq<bool>, i: nat, v: real)
    requires |s| == |mask| == |weights| && i < |s| && !mask[i]
    ensures SumWhere(s[i := v], mask[i := true], true) == SumWhere(s, mask, true) + v
    ensures SumWhere(weights, mask[i := true], false) == SumWhere(weights, mask, false) - weights[i]
  {
    SumUpdate(Masked(s, mask, true), i, v);
    assert Masked(s[i := v], mask[i := true], true) == Masked(s, mask, true)[i := v];
    SumUpdate(Masked(weights, mask, false), i, 0.0);
    assert Masked(weights, mask[i := true], false) == Masked(weights, mask, false)[i := 0.0];
  }

  function Other(k: nat, i: nat, j: nat): nat
  {
    if k == i then j else if k == j then i else k
  }

  /** The second sequence is the first with two positions exchanged. */
  ghost predicate Swapped<T>(s: seq<T>, t: seq<T>, i: nat, j: nat)
  {
    |s| == |t| && i < |s| && j < |s| && forall k: nat :: k < |s| ==> t[k] == s[Other(k, i, j)]
  }

  lemma SumSwap(s: seq<real>, t: seq<real>, i: nat, j: nat)
    requires Swapped(s, t, i, j)
    ensures Sum(s) == Sum(t)
  {
    SumUpdate(s, i, s[j]);
    SumUpdate(s[i := s[j]], j, s[i]);
    assert t == s[i := s[j]][j := s[i]];
  }

  // The resting level.

  lemma ShareGrows(low: real, high: real, weight: real)
    requires low <= high && 0.0 < weight
    ensures low * weight <= high * weight
    ensures low < high ==> low * weight < high * weight
  {
  }

  /** Sizes grow with the level. */
  lemma BaseGrows(w: WindowInput, low: real, high: real)
    requires low <= high
    ensures Base(w, low) <= Base(w, high)
    ensures Pinned(w, high) ==> Pinned(w, low)
    ensures !Pinned(w, low) && low < high ==> Base(w, low) < Base(w, high)
  {
    ShareGrows(low, high, Weight(w));
  }

  lemma BasesGrow(ws: seq<WindowInput>, low: real, high: real)
    requires low <= high
    ensures forall i :: 0 <= i < |ws| ==> Bases(ws, low)[i] <= Bases(ws, high)[i]
    ensures Sum(Bases(ws, low)) <= Sum(Bases(ws, high))
  {
    forall i | 0 <= i < |ws|
      ensures Bases(ws, low)[i] <= Bases(ws, high)[i]
    {
      BaseGrows(ws[i], low, high);
    }
    SumOrder(Bases(ws, low), Bases(ws, high));
  }

  /** Two levels the pinning could rest at give every window the same size and
      pin the same windows. */
  lemma RestIsUnique(ws: seq<WindowInput>, usable: real, low: real, high: real)
    requires low <= high && Rests(ws, usable, low) && Rests(ws, usable, high)
    ensures Bases(ws, low) == Bases(ws, high)
    ensures forall i :: 0 <= i < |ws| ==> (Pinned(ws[i], low) <==> Pinned(ws[i], high))
  {
    BasesGrow(ws, low, high);
    if i :| 0 <= i < |ws| && !Pinned(ws[i], low) {
      BaseGrows(ws[i], low, high);
      SumOrder(Bases(ws, low), Bases(ws, high));
      assert Bases(ws, low)[i] == Bases(ws, high)[i];
    } else {
      forall i | 0 <= i < |ws|
        ensures Pinned(ws[i], high) && Base(ws[i], low) == Base(ws[i], high)
      {
        assert Pinned(ws[i], low);
        if !Pinned(ws[i], high) {
          assert false;
        }
      }
    }
  }

  /** Every size is a matter of the base sizes and of who is pinned. */
  lemma SameBasesFinishAlike(ws: seq<WindowInput>, low: real, high: real)
    requires Bases(ws, low) == Bases(ws, high)
    requires forall i :: 0 <= i < |ws| ==> (Pinned(ws[i], low) <==> Pinned(ws[i], high))
    ensures Finished(ws, low) == Finished(ws, high)
  {
    forall i | 0 <= i < |ws|
      ensures Held(ws[i], low) == Held(ws[i], high) && Takes(ws[i], low) == Takes(ws[i], high)
    {
      assert Bases(ws, low)[i] == Bases(ws, high)[i];
    }
    assert Helds(ws, low) == Helds(ws, high);
    assert TakeMask(ws, low) == TakeMask(ws, high);
  }

  /** The solver's answer is forced: whatever order the violators are pinned
      in, with minimums, maximums and fixed sizes alike, the sizes are the same. */
  lemma SolvedIsUnique(ws: seq<WindowInput>, available: real, gap: real, s: seq<real>, t: seq<real>)
    requires Solved(ws, available, gap, s) && Solved(ws, available, gap, t)
    ensures s == t
  {
    var usable := Usable(available, gap, |ws|);
    if HasRoom(ws, usable) {
      var a :| Rests(ws, usable, a) && s == Finished(ws, a);
      var b :| Rests(ws, usable, b) && t == Finished(ws, b);
      RestIsUnique(ws, usable, Min(a, b), Max(a, b));
      SameBasesFinishAlike(ws, Min(a, b), Max(a, b));
    }
  }

  /** Exchanging two windows exchanges their sizes and changes nothing else. */
  lemma OrderDoesNotMatter(ws: seq<WindowInput>, vs: seq<WindowInput>, available: real, gap: real, s: seq<real>, t: seq<real>, i: nat, j: nat)
    requires Swapped(ws, vs, i, j) && Swapped(s, t, i, j) && Solved(ws, available, gap, s)
    ensures Solved(vs, available, gap, t)
  {
    var usable := Usable(available, gap, |ws|);
    SumSwap(Minimums(ws), Minimums(vs), i, j);
    if HasRoom(ws, usable) {
      var level :| Rests(ws, usable, level) && s == Finished(ws, level);
      SwapRests(ws, vs, usable, level, i, j);
      SwapFinished(ws, vs, level, i, j);
      assert t == Finished(vs, level);
    } else {
      SwapSqueezed(ws, vs, usable, i, j);
    }
  }

  lemma SwapSqueezed(ws: seq<WindowInput>, vs: seq<WindowInput>, usable: real, i: nat, j: nat)
    requires Swapped(ws, vs, i, j)
    ensures forall k: nat :: k < |vs| ==> Squeezed(vs, usable, k) == Squeezed(ws, usable, Other(k, i, j))
  {
    SumSwap(Weights(ws), Weights(vs), i, j);
    forall k: nat | k < |vs|
      ensures Squeezed(vs, usable, k) == Squeezed(ws, usable, Other(k, i, j))
    {
      assert vs[k] == ws[Other(k, i, j)];
    }
  }

  lemma SwapRests(ws: seq<WindowInput>, vs: seq<WindowInput>, usable: real, level: real, i: nat, j: nat)
    requires Swapped(ws, vs, i, j) && Rests(ws, usable, level)
    ensures Rests(vs, usable, level)
  {
    SumSwap(Bases(ws, level), Bases(vs, level), i, j);
    forall k: nat | k < |ws|
      ensures ws[k] == vs[Other(k, i, j)]
    {
      assert Other(Other(k, i, j), i, j) == k;
    }
  }

  lemma SwapFinished(ws: seq<WindowInput>, vs: seq<WindowInput>, level: real, i: nat, j: nat)
    requires Swapped(ws, vs, i, j)
    ensures forall k: nat :: k < |vs| ==> Finished(vs, level)[k] == Finished(ws, level)[Other(k, i, j)]
  {
    SumSwap(Bases(ws, level), Bases(vs, level), i, j);
    SumSwap(Helds(ws, level), Helds(vs, level), i, j);
    SumSwap(Masked(Weights(ws), TakeMask(ws, level), true), Masked(Weights(vs), TakeMask(vs, level), true), i, j);
    assert Excess(ws, level) == Excess(vs, level) && TakeWeight(ws, level) == TakeWeight(vs, level);
    forall k: nat | k < |vs|
      ensures Redistributed(vs, level, k) == Redistributed(ws, level, Other(k, i, j))
    {
      assert vs[k] == ws[Other(k, i, j)];
    }
  }

  // What the sizes add up to.

  /** The sizes before the floor of one. */
  function Redistributions(ws: seq<WindowInput>, level: real): (r: seq<real>)
    ensures |r| == |ws|
  {
    seq(|ws|, i requires 0 <= i < |ws| => Redistributed(ws, level, i))
  }

  /** What the maximums gave back is handed out in full, if anybody takes it. */
  lemma RedistributionTotal(ws: seq<WindowInput>, level: real)
    ensures 0.0 <= Excess(ws, level)
    ensures Sum(Redistributions(ws, level)) ==
            if exists i :: 0 <= i < |ws| && Takes(ws[i], level) then Sum(Bases(ws, level)) else Sum(Helds(ws, level))
  {
    var mask, weights := TakeMask(ws, level), Weights(ws);
    var taken := Masked(weights, mask, true);
    SumOrder(Helds(ws, level), Bases(ws, level));
    if i :| 0 <= i < |ws| && Takes(ws[i], level) {
      SumAtLeast(taken, i);
      assert taken[i] == Weight(ws[i]);
      if Excess(ws, level) > 0.0 {
        Share(ws, level, taken);
      } else {
        assert Redistributions(ws, level) == Helds(ws, level);
      }
    } else {
      assert Redistributions(ws, level) == Helds(ws, level);
    }
  }

  function Portions(space: real, parts: seq<real>, total: real): (r: seq<real>)
    requires total != 0.0
    ensures |r| == |parts|
  {
    seq(|parts|, i requires 0 <= i < |parts| => Portion(space, parts[i], total))
  }

  lemma PortionRate(space: real, weight: real, total: real)
    requires total != 0.0
    ensures Portion(space, weight, total) == space / total * weight
    ensures weight == total ==> Portion(space, weight, total) == space
    ensures weight == 0.0 ==> Portion(space, weight, total) == 0.0
  {
  }

  /** The portions of a space make up the space. */
  lemma {:induction false} SumPortions(space: real, parts: seq<real>, total: real)
    requires total != 0.0
    ensures Sum(Portions(space, parts, total)) == space / total * Sum(parts)
  {
    if parts != [] {
      var n := |parts| - 1;
      SumPortions(space, parts[..n], total);
      assert Portions(space, parts, total)[..n] == Portions(space, parts[..n], total);
      PortionRate(space, parts[n], total);
      Distribute(space / total, Sum(parts[..n]), parts[n]);
    }
  }

  lemma PortionsMakeUp(space: real, parts: seq<real>)
    requires Sum(parts) != 0.0
    ensures Sum(Portions(space, parts, Sum(parts))) == space
  {
    SumPortions(space, parts, Sum(parts));
  }

  lemma Share(ws: seq<WindowInput>, level: real, taken: seq<real>)
    requires taken == Masked(Weights(ws), TakeMask(ws, level), true)
    requires 0.0 < Sum(taken) && 0.0 < Excess(ws, level)
    ensures Sum(Redistributions(ws, level)) == Sum(Helds(ws, level)) + Excess(ws, level)
  {
    var extra := Portions(Excess(ws, level), taken, Sum(taken));
    forall i | 0 <= i < |ws|
      ensures Redistributions(ws, level)[i] == Helds(ws, level)[i] + extra[i]
    {
      PortionRate(Excess(ws, level), taken[i], Sum(taken));
    }
    PortionsMakeUp(Excess(ws, level), taken);
    SumAdd(Helds(ws, level), extra, Redistributions(ws, level));
  }

  lemma RedistributedAtLeastMinimum(ws: seq<WindowInput>, level: real, i: nat)
    requires Clampable(ws) && i < |ws|
    ensures ws[i].minSize <= Held(ws[i], level) <= Redistributed(ws, level, i)
  {
    if 0.0 < Excess(ws, level) && 0.0 < TakeWeight(ws, level) {
      PortionPositive(Excess(ws, level), Weight(ws[i]), TakeWeight(ws, level));
    }
  }

  lemma PortionPositive(space: real, weight: real, total: real)
    requires 0.0 < space && 0.0 < weight && 0.0 < total
    ensures 0.0 < Portion(space, weight, total)
  {
    assert 0.0 < weight / total;
  }

  /** Nobody is smaller than its minimum, and nobody is smaller than one. */
  lemma SizesRespectMinimums(ws: seq<WindowInput>, available: real, gap: real, sizes: seq<real>)
    requires HasRoom(ws, Usable(available, gap, |ws|)) ==> Clampable(ws)
    requires Solved(ws, available, gap, sizes)
    ensures forall i :: 0 <= i < |ws| ==> ws[i].minSize <= sizes[i] && 1.0 <= sizes[i]
  {
    var usable := Usable(available, gap, |ws|);
    if HasRoom(ws, usable) {
      var level :| Rests(ws, usable, level) && sizes == Finished(ws, level);
      forall i | 0 <= i < |ws|
        ensures ws[i].minSize <= sizes[i]
      {
        RedistributedAtLeastMinimum(ws, level, i);
      }
    }
  }

  /** Minimums of at least one. */
  predicate AtLeastOne(ws: seq<WindowInput>)
  {
    forall i :: 0 <= i < |ws| ==> 1.0 <= ws[i].minSize
  }

  /** Either somebody shares, and all the space is used, or every window has its least size. */
  lemma BasesFit(ws: seq<WindowInput>, usable: real, level: real)
    requires Clampable(ws) && Rests(ws, usable, level)
    ensures Sum(Helds(ws, level)) <= usable || Helds(ws, level) == Leasts(ws)
    ensures Sum(Leasts(ws)) <= Sum(Helds(ws, level))
    ensures (exists i :: 0 <= i < |ws| && !Pinned(ws[i], level)) ==> Sum(Bases(ws, level)) == usable && Sum(Leasts(ws)) <= usable
  {
    forall i | 0 <= i < |ws|
      ensures Least(ws[i]) <= Held(ws[i], level) <= Base(ws[i], level)
      ensures Pinned(ws[i], level) ==> Held(ws[i], level) == Least(ws[i])
    {
    }
    SumOrder(Leasts(ws), Helds(ws, level));
    SumOrder(Helds(ws, level), Bases(ws, level));
    if forall i :: 0 <= i < |ws| ==> Pinned(ws[i], level) {
      assert Helds(ws, level) == Leasts(ws);
    }
  }

  /** With room the windows and the gaps between them fit into the available
      space exactly when the least sizes do. They fill it as soon as one window is
      neither pinned nor capped. */
  lemma SizesFit(ws: seq<WindowInput>, available: real, gap: real, level: real)
    requires Clampable(ws) && AtLeastOne(ws) && Rests(ws, Usable(available, gap, |ws|), level)
    ensures Sum(Finished(ws, level)) + Gaps(gap, |ws|) <= available <==> Sum(Leasts(ws)) <= Usable(available, gap, |ws|)
    ensures (exists i :: 0 <= i < |ws| && Takes(ws[i], level)) ==> Sum(Finished(ws, level)) + Gaps(gap, |ws|) == available
  {
    forall i | 0 <= i < |ws|
      ensures Finished(ws, level)[i] == Redistributions(ws, level)[i]
    {
      RedistributedAtLeastMinimum(ws, level, i);
    }
    assert Finished(ws, level) == Redistributions(ws, level);
    RedistributionTotal(ws, level);
    BasesFit(ws, Usable(available, gap, |ws|), level);
  }

  /** The sizes and the gaps between them fit exactly when there is room, and the
      space is enough for the least sizes. Without fixed sizes room is enough. */
  lemma SizesFitExactly(ws: seq<WindowInput>, available: real, gap: real, sizes: seq<real>)
    requires ws != [] && AtLeastOne(ws) && (HasRoom(ws, Usable(available, gap, |ws|)) ==> Clampable(ws))
    requires Solved(ws, available, gap, sizes)
    ensures Sum(sizes) + Gaps(gap, |ws|) <= available <==>
            HasRoom(ws, Usable(available, gap, |ws|)) && Sum(Leasts(ws)) <= Usable(available, gap, |ws|)
    ensures HasRoom(ws, Usable(available, gap, |ws|)) && (forall i :: 0 <= i < |ws| ==> ws[i].fixedSize.None?) ==>
            Sum(sizes) + Gaps(gap, |ws|) <= available
  {
    var usable := Usable(available, gap, |ws|);
    if HasRoom(ws, usable) {
      var level :| Rests(ws, usable, level) && sizes == Finished(ws, level);
      SizesFit(ws, available, gap, level);
      if forall i :: 0 <= i < |ws| ==> ws[i].fixedSize.None? {
        assert Leasts(ws) == Minimums(ws);
      }
    } else {
      SumOrder(Minimums(ws), sizes);
      SumAtLeast(Minimums(ws), 0);
      assert Minimums(ws)[0] == ws[0].minSize;
    }
  }

  /** With a fixed size room for the minimums is not enough. */
  lemma FixedSizeOverflows()
    ensures var ws := [WindowInput(1.0, 1.0, None, Some(100.0))];
            HasRoom(ws, Usable(50.0, 0.0, 1)) && Solved(ws, 50.0, 0.0, [100.0])
  {
    var ws := [WindowInput(1.0, 1.0, None, Some(100.0))];
    assert Minimums(ws) == [1.0] && [1.0][..0] == [];
    assert Rests(ws, 50.0, 0.0);
    assert Helds(ws, 0.0) == Bases(ws, 0.0);
    assert Finished(ws, 0.0) == [100.0];
  }

  // Water-filling.

  /** Windows without a maximum and without a fixed size, with room for them and
      minimums of at least one. */
  ghost predicate Plain(ws: seq<WindowInput>, available: real, gap: real)
  {
    ws != [] && HasRoom(ws, Usable(available, gap, |ws|)) &&
    forall i :: 0 <= i < |ws| ==> ws[i].maxSize.None? && ws[i].fixedSize.None? && 1.0 <= ws[i].minSize
  }

  /** Water at `level` poured over floors `minSize`, in basins as wide as the weights. */
  ghost predicate Filled(ws: seq<WindowInput>, level: real, sizes: seq<real>)
  {
    |sizes| == |ws| && forall i :: 0 <= i < |ws| ==> sizes[i] == Max(ws[i].minSize, level * Max(ws[i].weight, 0.1))
  }

  lemma PlainSizesAreBases(ws: seq<WindowInput>, available: real, gap: real, level: real)
    requires Plain(ws, available, gap)
    ensures Finished(ws, level) == Bases(ws, level)
  {
    assert Helds(ws, level) == Bases(ws, level);
  }

  /** Whether the share of a window at `level` is no more than its minimum. */
  predicate Dry(w: WindowInput, level: real) { level * Weight(w) <= w.minSize }

  predicate Touching(w: WindowInput, level: real) { level * Weight(w) == w.minSize }

  lemma TouchingOne(w: WindowInput) returns (level: real)
    ensures Touching(w, level) && Dry(w, level)
  {
    level := w.minSize / Weight(w);
  }

  lemma DryBelow(w: WindowInput, low: real, high: real)
    requires low <= high && Dry(w, high)
    ensures Dry(w, low)
  {
    ShareGrows(low, high, Weight(w));
  }

  /** The highest level at which every window still stands at its minimum. */
  lemma {:induction false} TouchingLevel(ws: seq<WindowInput>) returns (level: real)
    requires ws != []
    ensures forall i :: 0 <= i < |ws| ==> Dry(ws[i], level)
    ensures exists i :: 0 <= i < |ws| && Touching(ws[i], level)
  {
    var n := |ws| - 1;
    level := TouchingOne(ws[n]);
    if n > 0 {
      var before := TouchingLevel(ws[..n]);
      var i :| 0 <= i < n && Touching(ws[..n][i], before);
      assert Touching(ws[i], before);
      if before < level {
        DryBelow(ws[n], before, level);
        level := before;
      }
      forall k | 0 <= k < |ws|
        ensures Dry(ws[k], level)
      {
        if k < n {
          DryBelow(ws[..n][k], level, before);
        }
      }
    }
  }

  lemma FilledIsBases(ws: seq<WindowInput>, level: real, sizes: seq<real>)
    requires forall i :: 0 <= i < |ws| ==> InitialPin(ws[i]).None?
    ensures Filled(ws, level, sizes) <==> sizes == Bases(ws, level)
  {
    if Filled(ws, level, sizes) {
      forall i | 0 <= i < |ws|
        ensures sizes[i] == Bases(ws, level)[i]
      {
      }
    }
  }

  /** The level the solver's answer rests at. */
  lemma SolvedIsFilled(ws: seq<WindowInput>, available: real, gap: real, sizes: seq<real>) returns (level: real)
    requires Plain(ws, available, gap) && Solved(ws, available, gap, sizes)
    ensures Filled(ws, level, sizes) && Sum(sizes) == Usable(available, gap, |ws|) && sizes == Bases(ws, level)
  {
    var usable := Usable(available, gap, |ws|);
    level :| Rests(ws, usable, level) && sizes == Finished(ws, level);
    PlainSizesAreBases(ws, available, gap, level);
    FilledIsBases(ws, level, sizes);
    assert InitialPin(ws[0]).None?;
    if forall i :: 0 <= i < |ws| ==> Pinned(ws[i], level) {
      assert Bases(ws, level) == Minimums(ws);
    }
  }

  /** Water-filling that uses up the space rests, at its level or, when every
      window stands at its minimum, at the level where it first touches one. */
  lemma FilledRests(ws: seq<WindowInput>, usable: real, level: real) returns (rest: real)
    requires ws != [] && Sum(Bases(ws, level)) == usable
    requires forall i :: 0 <= i < |ws| ==> InitialPin(ws[i]).None?
    ensures Rests(ws, usable, rest) && Bases(ws, rest) == Bases(ws, level)
  {
    rest := level;
    if forall i :: 0 <= i < |ws| ==> Pinned(ws[i], level) {
      rest := TouchingLevel(ws);
      var i :| 0 <= i < |ws| && Touching(ws[i], rest);
      assert !Pinned(ws[i], rest);
      forall k | 0 <= k < |ws|
        ensures Base(ws[k], rest) == Base(ws[k], level)
      {
        assert Dry(ws[k], rest) && Pinned(ws[k], level);
      }
      assert Bases(ws, rest) == Bases(ws, level);
    }
  }

  /** A sizing is the solver's answer exactly when it is water-filling that
      uses up the space. */
  lemma WaterFilling(ws: seq<WindowInput>, available: real, gap: real, sizes: seq<real>)
    requires Plain(ws, available, gap)
    ensures Solved(ws, available, gap, sizes) <==>
            Sum(sizes) == Usable(available, gap, |ws|) && exists level :: Filled(ws, level, sizes)
  {
    var usable := Usable(available, gap, |ws|);
    if Solved(ws, available, gap, sizes) {
      var level := SolvedIsFilled(ws, available, gap, sizes);
    }
    if level :| Sum(sizes) == usable && Filled(ws, level, sizes) {
      FilledIsBases(ws, level, sizes);
      var rest := FilledRests(ws, usable, level);
      PlainSizesAreBases(ws, available, gap, rest);
    }
  }

  // The solver.

  /** The space not yet taken by pinned windows. */
  function Remaining(usable: real, sizes: seq<real>, fixed: seq<bool>): real
    requires |sizes| == |fixed|
  {
    usable - SumWhere(sizes, fixed, true)
  }

  /** The weight of the windows not yet pinned. */
  function OpenWeight(ws: seq<WindowInput>, fixed: seq<bool>): real
    requires |ws| == |fixed|
  {
    SumWhere(Weights(ws), fixed, false)
  }

  lemma OpenWeightAtLeast(ws: seq<WindowInput>, fixed: seq<bool>)
    requires |ws| == |fixed|
    ensures forall i :: 0 <= i < |ws| && !fixed[i] ==> 0.0 < Weight(ws[i]) <= OpenWeight(ws, fixed)
    ensures (forall i :: 0 <= i < |ws| ==> fixed[i]) ==> OpenWeight(ws, fixed) == 0.0
  {
    var open := Masked(Weights(ws), fixed, false);
    forall i | 0 <= i < |ws| && !fixed[i]
      ensures Weight(ws[i]) <= OpenWeight(ws, fixed)
    {
      SumAtLeast(open, i);
    }
    if forall i :: 0 <= i < |ws| ==> fixed[i] {
      SumZero(open);
    }
  }

  lemma {:induction false} SumZero(s: seq<real>)
    requires forall i :: 0 <= i < |s| ==> s[i] == 0.0
    ensures Sum(s) == 0.0
  {
    if s != [] {
      SumZero(s[..|s| - 1]);
    }
  }

  /** A window pinned at its minimum asked for less than that when it was
      pinned, and the level only falls. */
  ghost predicate Pinning(ws: seq<WindowInput>, usable: real, sizes: seq<real>, fixed: seq<bool>)
  {
    |sizes| == |fixed| == |ws| &&
    (forall i :: 0 <= i < |ws| && InitialPin(ws[i]).Some? ==> fixed[i] && sizes[i] == InitialPin(ws[i]).value) &&
    (forall i :: 0 <= i < |ws| && InitialPin(ws[i]).None? && fixed[i] ==> sizes[i] == ws[i].minSize) &&
    if forall i :: 0 <= i < |ws| ==> fixed[i]
    then (exists i :: 0 <= i < |ws| && InitialPin(ws[i]).None?) ==> usable < Sum(sizes)
    else Below(ws, fixed, Level(ws, usable, sizes, fixed))
  }

  /** The level of the windows not yet pinned. */
  function Level(ws: seq<WindowInput>, usable: real, sizes: seq<real>, fixed: seq<bool>): real
    requires |sizes| == |fixed| == |ws|
  {
    if OpenWeight(ws, fixed) == 0.0 then 0.0 else Remaining(usable, sizes, fixed) / OpenWeight(ws, fixed)
  }

  ghost predicate Below(ws: seq<WindowInput>, fixed: seq<bool>, level: real)
    requires |fixed| == |ws|
  {
    forall i :: 0 <= i < |ws| && InitialPin(ws[i]).None? && fixed[i] ==> Pinned(ws[i], level)
  }

  lemma BelowFalls(ws: seq<WindowInput>, fixed: seq<bool>, low: real, high: real)
    requires |fixed| == |ws| && low <= high && Below(ws, fixed, high)
    ensures Below(ws, fixed, low)
  {
    forall i | 0 <= i < |ws| && InitialPin(ws[i]).None? && fixed[i]
      ensures Pinned(ws[i], low)
    {
      BaseGrows(ws[i], low, high);
    }
  }

  /** Taking more than a fair share out of the pot leaves less for the rest. */
  lemma LevelFalls(space: real, total: real, weight: real, taken: real)
    requires 0.0 < weight < total && Portion(space, weight, total) < taken
    ensures (space - taken) / (total - weight) < space / total
    ensures space / total * weight < taken
  {
    var level := space / total;
    PortionRate(space, weight, total);
    assert space == level * total;
    assert space - taken < level * (total - weight);
  }

  /** The window `j` would be given less than its minimum. */
  predicate Violates(ws: seq<WindowInput>, usable: real, sizes: seq<real>, fixed: seq<bool>, j: nat)
    requires |sizes| == |fixed| == |ws|
  {
    j < |ws| && !fixed[j] && 0.0 < OpenWeight(ws, fixed) &&
    Portion(Remaining(usable, sizes, fixed), Weight(ws[j]), OpenWeight(ws, fixed)) < ws[j].minSize
  }

  /** When the last open window is pinned, the space is more than used up. */
  lemma PinLast(ws: seq<WindowInput>, usable: real, sizes: seq<real>, fixed: seq<bool>, j: nat)
    requires |sizes| == |fixed| == |ws| && Violates(ws, usable, sizes, fixed, j)
    requires forall i :: 0 <= i < |ws| && i != j ==> fixed[i]
    ensures usable < Sum(sizes[j := ws[j].minSize])
  {
    var sizes', fixed' := sizes[j := ws[j].minSize], fixed[j := true];
    SumPin(sizes, Weights(ws), fixed, j, ws[j].minSize);
    OpenWeightAtLeast(ws, fixed');
    PortionRate(Remaining(usable, sizes, fixed), Weight(ws[j]), OpenWeight(ws, fixed));
    SumSplit(sizes', fixed');
    SumZero(Masked(sizes', fixed', false));
  }

  lemma PinLowersLevel(ws: seq<WindowInput>, usable: real, sizes: seq<real>, fixed: seq<bool>, j: nat)
    requires |sizes| == |fixed| == |ws| && Violates(ws, usable, sizes, fixed, j)
    requires exists i :: 0 <= i < |ws| && i != j && !fixed[i]
    ensures Level(ws, usable, sizes[j := ws[j].minSize], fixed[j := true]) < Level(ws, usable, sizes, fixed)
    ensures Pinned(ws[j], Level(ws, usable, sizes, fixed))
  {
    var i :| 0 <= i < |ws| && i != j && !fixed[i];
    SumPin(sizes, Weights(ws), fixed, j, ws[j].minSize);
    OpenWeightAtLeast(ws, fixed[j := true]);
    assert !fixed[j := true][i];
    LevelFalls(Remaining(usable, sizes, fixed), OpenWeight(ws, fixed), Weight(ws[j]), ws[j].minSize);
  }

  lemma PinStep(ws: seq<WindowInput>, usable: real, sizes: seq<real>, fixed: seq<bool>, j: nat)
    requires Pinning(ws, usable, sizes, fixed) && Violates(ws, usable, sizes, fixed, j)
    ensures Pinning(ws, usable, sizes[j := ws[j].minSize], fixed[j := true])
  {
    var sizes', fixed' := sizes[j := ws[j].minSize], fixed[j := true];
    if forall i :: 0 <= i < |ws| && i != j ==> fixed[i] {
      PinLast(ws, usable, sizes, fixed, j);
    } else {
      var i :| 0 <= i < |ws| && i != j && !fixed[i];
      assert !fixed'[i];
      PinLowersLevel(ws, usable, sizes, fixed, j);
      BelowFalls(ws, fixed, Level(ws, usable, sizes', fixed'), Level(ws, usable, sizes, fixed));
      BaseGrows(ws[j], Level(ws, usable, sizes', fixed'), Level(ws, usable, sizes, fixed));
    }
  }

  /** The open windows share what remains in proportion to their weights. */
  ghost predicate Shared(ws: seq<WindowInput>, usable: real, sizes: seq<real>, fixed: seq<bool>, shared: seq<real>)
  {
    |sizes| == |fixed| == |ws| == |shared| && 0.0 < OpenWeight(ws, fixed) &&
    (forall i :: 0 <= i < |ws| && fixed[i] ==> shared[i] == sizes[i]) &&
    (forall i :: 0 <= i < |ws| && !fixed[i] ==>
       ws[i].minSize <= shared[i] == Portion(Remaining(usable, sizes, fixed), Weight(ws[i]), OpenWeight(ws, fixed)))
  }

  lemma SharedAddsUp(ws: seq<WindowInput>, usable: real, sizes: seq<real>, fixed: seq<bool>, shared: seq<real>)
    requires Shared(ws, usable, sizes, fixed, shared)
    ensures Sum(shared) == usable
  {
    var space, total := Remaining(usable, sizes, fixed), OpenWeight(ws, fixed);
    var open := Masked(Weights(ws), fixed, false);
    forall i | 0 <= i < |ws|
      ensures Masked(shared, fixed, false)[i] == Portions(space, open, total)[i]
    {
      PortionRate(space, open[i], total);
    }
    assert Masked(shared, fixed, false) == Portions(space, open, total);
    assert Masked(shared, fixed, true) == Masked(sizes, fixed, true);
    PortionsMakeUp(space, open);
    SumSplit(shared, fixed);
  }

  lemma OpenBase(w: WindowInput, space: real, total: real)
    requires 0.0 < total && InitialPin(w).None? && w.minSize <= Portion(space, Weight(w), total)
    ensures !Pinned(w, space / total) && Base(w, space / total) == Portion(space, Weight(w), total)
  {
    PortionRate(space, Weight(w), total);
  }

  /** Without a violator the pinning has come to rest. */
  lemma PinDone(ws: seq<WindowInput>, usable: real, sizes: seq<real>, fixed: seq<bool>, shared: seq<real>) returns (level: real)
    requires Pinning(ws, usable, sizes, fixed) && Shared(ws, usable, sizes, fixed, shared)
    ensures Rests(ws, usable, level) && shared == Bases(ws, level)
    ensures forall i :: 0 <= i < |ws| ==> fixed[i] == Pinned(ws[i], level)
  {
    level := Level(ws, usable, sizes, fixed);
    OpenWeightAtLeast(ws, fixed);
    SharedAddsUp(ws, usable, sizes, fixed, shared);
    forall i | 0 <= i < |ws|
      ensures fixed[i] == Pinned(ws[i], level) && shared[i] == Base(ws[i], level)
    {
      if !fixed[i] {
        OpenBase(ws[i], Remaining(usable, sizes, fixed), OpenWeight(ws, fixed));
      }
    }
    assert shared == Bases(ws, level);
  }

  /** A level below all minimums. */
  lemma {:induction false} LowLevel(ws: seq<WindowInput>) returns (level: real)
    ensures forall i :: 0 <= i < |ws| ==> Pinned(ws[i], level)
  {
    level := 0.0;
    if ws != [] {
      var n := |ws| - 1;
      var before := LowLevel(ws[..n]);
      level := LowOne(ws[n], before);
      forall i | 0 <= i < n
        ensures Pinned(ws[i], level)
      {
        BaseGrows(ws[..n][i], level, before);
      }
    }
  }

  lemma LowOne(w: WindowInput, below: real) returns (level: real)
    ensures level <= below && Pinned(w, level)
  {
    level := Min(below, w.minSize / Weight(w) - 1.0);
    assert level * Weight(w) <= (w.minSize / Weight(w) - 1.0) * Weight(w) == w.minSize - Weight(w);
  }

  /** With every window pinned the pinning has come to rest as well. */
  lemma PinAll(ws: seq<WindowInput>, usable: real, sizes: seq<real>, fixed: seq<bool>) returns (level: real)
    requires Pinning(ws, usable, sizes, fixed) && forall i :: 0 <= i < |ws| ==> fixed[i]
    ensures Rests(ws, usable, level) && sizes == Bases(ws, level)
    ensures forall i :: 0 <= i < |ws| ==> fixed[i] == Pinned(ws[i], level)
  {
    level := LowLevel(ws);
    assert sizes == Bases(ws, level);
  }

  function Count(mask: seq<bool>): nat
  {
    if mask == [] then 0 else Count(mask[..|mask| - 1]) + (if mask[|mask| - 1] then 1 else 0)
  }

  lemma {:induction false} CountPin(mask: seq<bool>, i: nat)
    requires i < |mask| && !mask[i]
    ensures Count(mask[i := true]) == Count(mask) + 1 <= |mask|
  {
    var n := |mask| - 1;
    CountAtMost(mask[..n]);
    if i < n {
      CountPin(mask[..n], i);
      assert mask[i := true][..n] == mask[..n][i := true];
    } else {
      assert mask[i := true][..n] == mask[..n];
    }
  }

  lemma {:induction false} CountAtMost(mask: seq<bool>)
    ensures Count(mask) <= |mask|
  {
    if mask != [] {
      CountAtMost(mask[..|mask| - 1]);
    }
  }

  lemma SumNext(s: seq<real>, i: nat)
    requires i < |s|
    ensures Sum(s[..i + 1]) == Sum(s[..i]) + s[i]
  {
    assert s[..i + 1][..i] == s[..i];
  }

  /** Whether the solver reports a window as held back. */
  predicate Constrained(w: WindowInput, fixed: bool, size: real)
  {
    fixed && ((w.maxSize.Some? && size == Min(size, w.maxSize.value)) || Abs(size - w.minSize) < EPSILON)
  }

  /** The sizes of an output. */
  function SizesOf(out: seq<WindowOutput>): (r: seq<real>)
    ensures |r| == |out|
  {
    seq(|out|, i requires 0 <= i < |out| => out[i].size)
  }

  /** The first window that would be given less than its minimum. */
  method FindViolator(ws: seq<WindowInput>, fixed: seq<bool>, remaining: real, totalWeight: real) returns (violator: nat)
    requires |fixed| == |ws| && 0.0 < totalWeight
    ensures violator <= |ws|
    ensures violator < |ws| ==> !fixed[violator] && Portion(remaining, Weight(ws[violator]), totalWeight) < ws[violator].minSize
    ensures forall i :: 0 <= i < violator && !fixed[i] ==> ws[i].minSize <= Portion(remaining, Weight(ws[i]), totalWeight)
  {
    violator := 0;
    while violator < |ws|
      invariant violator <= |ws|
      invariant forall i :: 0 <= i < violator && !fixed[i] ==> ws[i].minSize <= Portion(remaining, Weight(ws[i]), totalWeight)
    {
      if !fixed[violator] && Portion(remaining, Weight(ws[violator]), totalWeight) < ws[violator].minSize {
        return;
      }
      violator := violator + 1;
    }
  }

  /** Gives every open window its share. */
  method ShareOut(ws: seq<WindowInput>, usable: real, sizes: array<real>, fixed: seq<bool>, remaining: real, totalWeight: real)
    requires sizes.Length == |fixed| == |ws| && 0.0 < totalWeight == OpenWeight(ws, fixed)
    requires remaining == Remaining(usable, sizes[..], fixed)
    requires forall i :: 0 <= i < |ws| && !fixed[i] ==> ws[i].minSize <= Portion(remaining, Weight(ws[i]), totalWeight)
    modifies sizes
    ensures Shared(ws, usable, old(sizes[..]), fixed, sizes[..])
  {
    for i := 0 to |ws|
      invariant forall k :: 0 <= k < |ws| && (fixed[k] || i <= k) ==> sizes[k] == old(sizes[k])
      invariant forall k :: 0 <= k < i && !fixed[k] ==> sizes[k] == Portion(remaining, Weight(ws[k]), totalWeight)
    {
      if !fixed[i] {
        sizes[i] := Portion(remaining, Weight(ws[i]), totalWeight);
      }
    }
  }

  /** Pins windows at their minimum until nobody is given less; a pass for each
      window and one more are enough. */
  method PinViolators(ws: seq<WindowInput>, usable: real, sizes: array<real>, fixed: array<bool>) returns (ghost level: real)
    requires sizes.Length == fixed.Length == |ws|
    requires Pinning(ws, usable, sizes[..], fixed[..])
    modifies sizes, fixed
    ensures Rests(ws, usable, level) && sizes[..] == Bases(ws, level)
    ensures forall i :: 0 <= i < |ws| ==> fixed[i] == Pinned(ws[i], level)
  {
    for pass := 0 to |ws| + 1
      invariant pass <= Count(fixed[..])
      invariant Pinning(ws, usable, sizes[..], fixed[..])
    {
      var remaining := Remaining(usable, sizes[..], fixed[..]);
      var totalWeight := OpenWeight(ws, fixed[..]);
      OpenWeightAtLeast(ws, fixed[..]);
      if totalWeight <= 0.0 {
        level := PinAll(ws, usable, sizes[..], fixed[..]);
        return;
      }
      var violator := FindViolator(ws, fixed[..], remaining, totalWeight);
      if violator == |ws| {
        ghost var before := sizes[..];
        ShareOut(ws, usable, sizes, fixed[..], remaining, totalWeight);
        level := PinDone(ws, usable, before, fixed[..], sizes[..]);
        return;
      }
      PinStep(ws, usable, sizes[..], fixed[..], violator);
      CountPin(fixed[..], violator);
      ghost var pinnedSizes, pinned := sizes[..][violator := ws[violator].minSize], fixed[..][violator := true];
      sizes[violator], fixed[violator] := ws[violator].minSize, true;
      assert sizes[..] == pinnedSizes && fixed[..] == pinned;
    }
    CountAtMost(fixed[..]);
    assert false;
  }

  /** A size held to a window's maximum. */
  function HeldTo(w: WindowInput, size: real): real
  {
    if CapOf(w).Some? && CapOf(w).value < size then CapOf(w).value else size
  }

  function AllHeld(ws: seq<WindowInput>, sizes: seq<real>): (r: seq<real>)
    requires |sizes| == |ws|
    ensures |r| == |ws|
  {
    seq(|ws|, i requires 0 <= i < |ws| => HeldTo(ws[i], sizes[i]))
  }

  /** What holding the first `n` windows to their maximum gives back. */
  function GivenBack(sizes: seq<real>, held: seq<real>, n: nat): real
    requires n <= |sizes| == |held|
  {
    Sum(sizes[..n]) - Sum(held[..n])
  }

  lemma GivenBackNext(sizes: seq<real>, held: seq<real>, n: nat)
    requires n < |sizes| == |held|
    ensures GivenBack(sizes, held, n + 1) == GivenBack(sizes, held, n) + (sizes[n] - held[n])
  {
    SumNext(sizes, n);
    SumNext(held, n);
  }

  /** Holds every window to its maximum, and adds up what that gives back. */
  method HoldToMaximums(ws: seq<WindowInput>, sizes: array<real>, maxFixed: array<bool>) returns (excess: real)
    requires sizes.Length == maxFixed.Length == |ws|
    requires forall i :: 0 <= i < |ws| ==> !maxFixed[i]
    modifies sizes, maxFixed
    ensures sizes[..] == AllHeld(ws, old(sizes[..])) && excess == Sum(old(sizes[..])) - Sum(sizes[..])
    ensures forall i :: 0 <= i < |ws| ==> maxFixed[i] == (sizes[i] < old(sizes[i]))
  {
    ghost var before := sizes[..];
    ghost var held := AllHeld(ws, before);
    excess := 0.0;
    for i := 0 to |ws|
      invariant forall k :: 0 <= k < |ws| ==> sizes[k] == if k < i then held[k] else before[k]
      invariant forall k :: 0 <= k < |ws| ==> maxFixed[k] == (k < i && held[k] < before[k])
      invariant excess == GivenBack(before, held, i)
    {
      GivenBackNext(before, held, i);
      if ws[i].maxSize.Some? {
        var max := Max(ws[i].maxSize.value, ws[i].minSize);
        if max < sizes[i] {
          excess := excess + (sizes[i] - max);
          sizes[i] := max;
          maxFixed[i] := true;
        }
      }
    }
    assert sizes[..] == held;
    assert before[..|ws|] == before && held[..|ws|] == held;
  }

  /** The windows that are in neither of two sets. */
  function Free(fixed: seq<bool>, maxFixed: seq<bool>): (r: seq<bool>)
    requires |fixed| == |maxFixed|
    ensures |r| == |fixed|
  {
    seq(|fixed|, i requires 0 <= i < |fixed| => !maxFixed[i] && !fixed[i])
  }

  /** A size after `excess` is handed out in proportion to the free windows' weights. */
  function HandedOut(ws: seq<WindowInput>, sizes: seq<real>, free: seq<bool>, excess: real, i: nat): real
    requires |sizes| == |free| == |ws| && i < |ws|
  {
    var weight := SumWhere(Weights(ws), free, true);
    if 0.0 < excess && 0.0 < weight && free[i] then sizes[i] + Portion(excess, Weight(ws[i]), weight) else sizes[i]
  }

  /** Hands what the maximums gave back to the windows still free to grow. */
  method HandOut(ws: seq<WindowInput>, sizes: array<real>, fixed: seq<bool>, maxFixed: seq<bool>, excess: real)
    requires sizes.Length == |fixed| == |maxFixed| == |ws|
    modifies sizes
    ensures forall i :: 0 <= i < |ws| ==> sizes[i] == HandedOut(ws, old(sizes[..]), Free(fixed, maxFixed), excess, i)
  {
    ghost var before := sizes[..];
    if 0.0 < excess {
      var redistWeight := SumWhere(Weights(ws), Free(fixed, maxFixed), true);
      if 0.0 < redistWeight {
        for i := 0 to |ws|
          invariant forall k :: 0 <= k < |ws| ==>
            sizes[k] == if k < i then HandedOut(ws, before, Free(fixed, maxFixed), excess, k) else before[k]
        {
          if !maxFixed[i] && !fixed[i] {
            sizes[i] := sizes[i] + Portion(excess, Weight(ws[i]), redistWeight);
          }
        }
      }
    }
  }

  /** Holding and handing out, from the sizes at a level on, comes to the sizes handed out at that level. */
  lemma FinishedAt(ws: seq<WindowInput>, level: real, fixed: seq<bool>, maxFixed: seq<bool>, i: nat)
    requires |fixed| == |maxFixed| == |ws| && i < |ws|
    requires forall k :: 0 <= k < |ws| ==> fixed[k] == Pinned(ws[k], level) && maxFixed[k] == Capped(ws[k], level)
    ensures HandedOut(ws, Helds(ws, level), Free(fixed, maxFixed), Excess(ws, level), i) == Redistributed(ws, level, i)
  {
    assert Free(fixed, maxFixed) == TakeMask(ws, level);
  }

  /** Gives a size to every window that has one before any sharing. */
  method PinInitially(ws: seq<WindowInput>, sizes: array<real>, fixed: array<bool>)
    requires sizes.Length == fixed.Length == |ws| && forall i :: 0 <= i < |ws| ==> !fixed[i]
    modifies sizes, fixed
    ensures forall k :: 0 <= k < |ws| ==> fixed[k] == InitialPin(ws[k]).Some?
    ensures forall k :: 0 <= k < |ws| && fixed[k] ==> sizes[k] == InitialPin(ws[k]).value
  {
    for i := 0 to |ws|
      invariant forall k :: 0 <= k < |ws| ==> fixed[k] == (k < i && InitialPin(ws[k]).Some?)
      invariant forall k :: 0 <= k < |ws| && fixed[k] ==> sizes[k] == InitialPin(ws[k]).value
    {
      if InitialPin(ws[i]).Some? {
        sizes[i], fixed[i] := InitialPin(ws[i]).value, true;
      }
    }
  }

  lemma InitialPinning(ws: seq<WindowInput>, usable: real, sizes: seq<real>, fixed: seq<bool>)
    requires |sizes| == |fixed| == |ws|
    requires forall k :: 0 <= k < |ws| ==> fixed[k] == InitialPin(ws[k]).Some?
    requires forall k :: 0 <= k < |ws| && fixed[k] ==> sizes[k] == InitialPin(ws[k]).value
    ensures Pinning(ws, usable, sizes, fixed)
  {
  }

  /** What the solver says of each window at the level it came to rest at. */
  ghost predicate Reported(ws: seq<WindowInput>, usable: real, level: real, out: seq<WindowOutput>)
  {
    |out| == |ws| && Rests(ws, usable, level) && SizesOf(out) == Finished(ws, level) &&
    forall i :: 0 <= i < |ws| ==> out[i].wasConstrained == Constrained(ws[i], Pinned(ws[i], level), out[i].size)
  }

  method FloorAtOne(sizes: array<real>)
    modifies sizes
    ensures forall k :: 0 <= k < sizes.Length ==> sizes[k] == Max(old(sizes[k]), 1.0)
  {
    for i := 0 to sizes.Length
      invariant forall k :: 0 <= k < sizes.Length ==> sizes[k] == if k < i then Max(old(sizes[k]), 1.0) else old(sizes[k])
    {
      sizes[i] := Max(sizes[i], 1.0);
    }
  }

  method Report(ws: seq<WindowInput>, sizes: seq<real>, fixed: seq<bool>) returns (out: seq<WindowOutput>)
    requires |sizes| == |fixed| == |ws|
    ensures SizesOf(out) == sizes
    ensures forall i :: 0 <= i < |ws| ==> out[i].wasConstrained == Constrained(ws[i], fixed[i], sizes[i])
  {
    out := [];
    for i := 0 to |ws|
      invariant |out| == i
      invariant forall k :: 0 <= k < i ==> out[k] == WindowOutput(sizes[k], Constrained(ws[k], fixed[k], sizes[k]))
    {
      out := out + [WindowOutput(sizes[i], Constrained(ws[i], fixed[i], sizes[i]))];
    }
  }

  /** The second half of the solver: maximums, and the floor of one. */
  method Finish(ws: seq<WindowInput>, sizes: array<real>, fixed: seq<bool>) returns (out: seq<WindowOutput>)
    requires sizes.Length == |fixed| == |ws|
    modifies sizes
    ensures forall level :: AtLevel(ws, old(sizes[..]), fixed, level) ==> SizesOf(out) == Finished(ws, level)
    ensures forall i :: 0 <= i < |ws| ==> i < |out| && out[i].wasConstrained == Constrained(ws[i], fixed[i], out[i].size)
  {
    ghost var before := sizes[..];
    var maxFixed := new bool[|ws|](_ => false);
    var excess := HoldToMaximums(ws, sizes, maxFixed);
    HandOut(ws, sizes, fixed, maxFixed[..], excess);
    FloorAtOne(sizes);
    forall level | AtLevel(ws, before, fixed, level) ensures sizes[..] == Finished(ws, level) {
      AllFinished(ws, before, fixed, maxFixed[..], excess, sizes[..], level);
    }
    out := Report(ws, sizes[..], fixed);
    assert |SizesOf(out)| == |out|;
    assert forall i :: 0 <= i < |ws| ==> out[i].size == SizesOf(out)[i];
  }

  /** The sizes and flags the pinning leaves at a level. */
  predicate AtLevel(ws: seq<WindowInput>, sizes: seq<real>, fixed: seq<bool>, level: real)
  {
    |fixed| == |ws| && sizes == Bases(ws, level) && forall i :: 0 <= i < |ws| ==> fixed[i] == Pinned(ws[i], level)
  }

  lemma AtLevelHolds(ws: seq<WindowInput>, sizes: seq<real>, fixed: seq<bool>, level: real)
    requires AtLevel(ws, sizes, fixed, level)
    ensures AllHeld(ws, sizes) == Helds(ws, level)
    ensures forall i :: 0 <= i < |ws| ==> Capped(ws[i], level) == (AllHeld(ws, sizes)[i] < sizes[i])
  {
  }

  /** From the sizes at a level, holding, handing out and flooring come to the sizes handed out there. */
  lemma AllFinished(ws: seq<WindowInput>, before: seq<real>, fixed: seq<bool>, maxFixed: seq<bool>, excess: real, sizes: seq<real>, level: real)
    requires AtLevel(ws, before, fixed, level) && |maxFixed| == |sizes| == |ws|
    requires forall i :: 0 <= i < |ws| ==> maxFixed[i] == (AllHeld(ws, before)[i] < before[i])
    requires excess == Sum(before) - Sum(AllHeld(ws, before))
    requires forall i :: 0 <= i < |ws| ==> sizes[i] == Max(HandedOut(ws, AllHeld(ws, before), Free(fixed, maxFixed), excess, i), 1.0)
    ensures sizes == Finished(ws, level)
  {
    AtLevelHolds(ws, before, fixed, level);
    forall i | 0 <= i < |ws| ensures sizes[i] == Finished(ws, level)[i] {
      FinishedAt(ws, level, fixed, maxFixed, i);
    }
  }

  /** The solver where there is room for every minimum. */
  method SolveWithRoom(ws: seq<WindowInput>, usable: real) returns (out: seq<WindowOutput>)
    requires HasRoom(ws, usable)
    ensures exists level :: Reported(ws, usable, level, out)
  {
    var sizes := new real[|ws|](_ => 0.0);
    var fixed := new bool[|ws|](_ => false);
    PinInitially(ws, sizes, fixed);
    InitialPinning(ws, usable, sizes[..], fixed[..]);
    ghost var level := PinViolators(ws, usable, sizes, fixed);
    assert AtLevel(ws, sizes[..], fixed[..], level);
    out := Finish(ws, sizes, fixed[..]);
    assert |SizesOf(out)| == |out| == |ws|;
    assert Reported(ws, usable, level, out);
  }

  method SolveSizes(ws: seq<WindowInput>, available: real, gap: real) returns (out: seq<WindowOutput>)
    requires HasRoom(ws, Usable(available, gap, |ws|)) ==> Clampable(ws)
    ensures Solved(ws, available, gap, SizesOf(out))
    ensures forall i :: 0 <= i < |ws| ==> ws[i].minSize <= out[i].size && 1.0 <= out[i].size
    ensures if HasRoom(ws, Usable(available, gap, |ws|))
            then exists level :: Reported(ws, Usable(available, gap, |ws|), level, out)
            else forall i :: 0 <= i < |ws| ==> out[i].wasConstrained
  {
    var usable := Usable(available, gap, |ws|);
    if |ws| == 0 {
      out := [];
      assert SizesOf(out) == Finished(ws, 0.0) && Rests(ws, usable, 0.0);
      assert Reported(ws, usable, 0.0, out);
      return;
    }
    if usable <= 0.0 || usable < Sum(Minimums(ws)) {
      out := seq(|ws|, i requires 0 <= i < |ws| => WindowOutput(Squeezed(ws, usable, i), true));
    } else {
      out := SolveWithRoom(ws, usable);
    }
    assert |out| == |ws| by {
      assert |SizesOf(out)| == |out|;
    }
    SizesRespectMinimums(ws, available, gap, SizesOf(out));
  }
}
