/** The layouts of one space as its user sees them (`src/model/layout_mapping.rs`):
    a list of layouts, the place in it that is in use, and for each screen size
    the place that is remembered for it. What is in the layouts is all that is
    said of them. */
module SizeMaps {
  /** A screen size, rounded to whole points. */
  datatype Size = Size(width: int, height: int)

  /** How many of some places come before one. */
  function Rank(used: set<nat>, place: nat): nat
  {
    if place == 0 then 0 else Rank(used, place - 1) + if place - 1 in used then 1 else 0
  }

  /** What is at some places, in order. */
  function Kept<C>(owned: seq<C>, used: set<nat>): seq<C>
  {
    if owned == [] then []
    else
      var n := |owned| - 1;
      Kept(owned[..n], used) + if n in used then [owned[n]] else []
  }

  datatype SizeMap<C> = SizeMap(size: Size, at: nat, retained: bool, places: map<Size, nat>, owned: seq<C>)
  {
    predicate Whole()
    {
      at < |owned| && forall s <- places :: places[s] < |owned|
    }

    /** The layout in use. */
    function Active(): C
      requires Whole()
    {
      owned[at]
    }

    /** What is in the layouts the sizes remember. */
    function Remembered(): map<Size, C>
      requires Whole()
    {
      map s | s in places :: owned[places[s]]
    }

    /** The places remembered once the one in use has been put away. */
    function Saved(): map<Size, nat>
    {
      if retained then places[size := at] else places
    }

    function Loaded(s: Size): SizeMap<C>
    {
      SizeMap(s, if s in Saved() then Saved()[s] else at, false, Saved(), owned)
    }

    function InUse(): set<nat>
    {
      {at} + places.Values
    }

    /** Only the layout in use and the remembered ones are left. */
    function Gathered(): SizeMap<C>
    {
      SizeMap(size, Rank(InUse(), at), retained, map s | s in places :: Rank(InUse(), places[s]), Kept(owned, InUse()))
    }

    /** One more layout comes last, and into use. */
    function Add(c: C): SizeMap<C>
    {
      SizeMap(size, |owned|, true, places, owned + [c])
    }

    function Show(place: nat): SizeMap<C>
    {
      SizeMap(size, place, true, places, owned)
    }
  }

  datatype Command<C> =
    | ActivateSize(size: Size)
    | Retain
    | Edit(content: C)
    | Select(pick: nat)
    | ChangeIndex(offset: int)
    | Replace(content: C)

  /** What each command does. An edit is made in place, but if some size remembers
      the layout, on a copy. */
  function Next<C>(v: SizeMap<C>, cmd: Command<C>): SizeMap<C>
    requires v.Whole()
  {
    match cmd
    case ActivateSize(s) => v.Loaded(s).Gathered()
    case Retain => v.Show(v.at)
    case Edit(c) => if v.at in v.places.Values then v.Add(c) else v.Show(v.at).(owned := v.owned[v.at := c])
    case Replace(c) => v.Add(c)
    case Select(pick) => if pick < |v.owned| then v.Show(pick) else v
    case ChangeIndex(offset) => v.Show((v.at + offset) % |v.owned|)
  }

  // What is left after coming to another size.

  lemma {:induction false} KeptAt<C>(owned: seq<C>, used: set<nat>, place: nat)
    requires place < |owned| && place in used
    ensures Rank(used, place) < |Kept(owned, used)| && Kept(owned, used)[Rank(used, place)] == owned[place]
    ensures |Kept(owned, used)| == Rank(used, |owned|)
  {
    var n := |owned| - 1;
    KeptCount(owned, used);
    KeptCount(owned[..n], used);
    if place < n {
      KeptAt(owned[..n], used, place);
    }
  }

  lemma {:induction false} KeptCount<C>(owned: seq<C>, used: set<nat>)
    ensures |Kept(owned, used)| == Rank(used, |owned|)
  {
    if owned != [] {
      KeptCount(owned[..|owned| - 1], used);
    }
  }

  /** The places keep their order. */
  lemma {:induction false} RankGrows(used: set<nat>, a: nat, b: nat)
    requires a <= b
    ensures Rank(used, a) <= Rank(used, b)
    ensures a < b && a in used ==> Rank(used, a) < Rank(used, b)
    decreases b
  {
    if a < b {
      RankGrows(used, a, b - 1);
    }
  }

  /** Every place that is left is one of those in use. */
  lemma {:induction false} RankHits(used: set<nat>, count: nat, k: nat) returns (place: nat)
    requires k < Rank(used, count)
    ensures place < count && place in used && Rank(used, place) == k
  {
    if k < Rank(used, count - 1) {
      place := RankHits(used, count - 1, k);
    } else {
      place := count - 1;
    }
  }

  /** Contents stay, and nothing is left that is not in use. */
  lemma GatheredIs<C>(v: SizeMap<C>)
    requires v.Whole()
    ensures var w := v.Gathered();
            w.Whole() && w.Active() == v.Active() && w.Remembered() == v.Remembered() && w.places.Keys == v.places.Keys
  {
    var w, used := v.Gathered(), v.InUse();
    KeptAt(v.owned, used, v.at);
    forall r | r in v.places ensures w.places[r] < |w.owned| && w.owned[w.places[r]] == v.owned[v.places[r]] {
      assert v.places[r] in v.places.Values;
      KeptAt(v.owned, used, v.places[r]);
    }
  }

  lemma GatheredUsed<C>(v: SizeMap<C>, k: nat)
    requires v.Whole() && k < |v.Gathered().owned|
    ensures k == v.Gathered().at || k in v.Gathered().places.Values
  {
    KeptCount(v.owned, v.InUse());
    var place := RankHits(v.InUse(), |v.owned|, k);
    if place != v.at {
      var r :| r in v.places && v.places[r] == place;
      assert v.Gathered().places[r] == k;
    }
  }

  /** Of two sizes the one with the earlier layout still has it. */
  lemma GatheredInOrder<C>(v: SizeMap<C>, r: Size, q: Size)
    requires v.Whole() && r in v.places && q in v.places
    ensures v.Gathered().places[r] < v.Gathered().places[q] <==> v.places[r] < v.places[q]
  {
    assert v.places[r] in v.places.Values && v.places[q] in v.places.Values;
    if v.places[r] < v.places[q] {
      RankGrows(v.InUse(), v.places[r], v.places[q]);
    } else {
      RankGrows(v.InUse(), v.places[q], v.places[r]);
    }
  }

  lemma LoadedIs<C>(v: SizeMap<C>, s: Size)
    requires v.Whole()
    ensures var u := v.Loaded(s);
            u.Whole() && u.Remembered() == (if v.retained then v.Remembered()[v.size := v.Active()] else v.Remembered()) &&
            u.Active() == (if s in u.Remembered() then u.Remembered()[s] else v.Active())
  {
  }

  /** Coming to a size shows what it remembers, or else what was in use; and what
      was in use is remembered for the size left if that was asked for. */
  lemma ComesTo<C>(v: SizeMap<C>, s: Size)
    requires v.Whole()
    ensures var w := Next(v, ActivateSize(s));
            w.Whole() && w.size == s && !w.retained &&
            w.Remembered() == (if v.retained then v.Remembered()[v.size := v.Active()] else v.Remembered()) &&
            w.Active() == (if s in w.Remembered() then w.Remembered()[s] else v.Active())
  {
    LoadedIs(v, s);
    GatheredIs(v.Loaded(s));
  }

  /** Just the layouts still in use are left then, in their order, and sizes that
      shared one still do. */
  lemma OnlyUsedLeft<C>(v: SizeMap<C>, s: Size)
    requires v.Whole()
    ensures var w, u := Next(v, ActivateSize(s)), v.Saved();
            (s in u ==> s in w.places && w.at == w.places[s]) && w.places.Keys == u.Keys &&
            (forall k: nat :: k < |w.owned| ==> k == w.at || k in w.places.Values) &&
            (forall r, q :: r in u && q in u ==> (w.places[r] < w.places[q] <==> u[r] < u[q]))
  {
    var u := v.Loaded(s);
    var w := u.Gathered();
    assert s in u.places ==> u.places[s] == u.at;
    forall k: nat | k < |w.owned| ensures k == w.at || k in w.places.Values {
      GatheredUsed(u, k);
    }
    forall r, q | r in u.places && q in u.places ensures w.places[r] < w.places[q] <==> u.places[r] < u.places[q] {
      GatheredInOrder(u, r, q);
    }
  }

  /** No other command changes what is remembered. What an edit or a replacement
      gives, or the layout selected, is what shows then, and is to be remembered. */
  lemma OthersRemember<C>(v: SizeMap<C>, cmd: Command<C>)
    requires v.Whole() && !cmd.ActivateSize?
    ensures var w := Next(v, cmd);
            w.Whole() && w.size == v.size && w.Remembered() == v.Remembered() &&
            (w == v || w.retained) && (cmd.Edit? || cmd.Replace? ==> w.Active() == cmd.content && w.retained) &&
            (cmd.Replace? ==> w.at == |v.owned| && w.owned == v.owned + [cmd.content]) &&
            (cmd.Retain? ==> w.Active() == v.Active() && w.retained) && (cmd.ChangeIndex? ==> w.retained) &&
            (cmd.Select? ==> if cmd.pick < |v.owned| then w.at == cmd.pick && w.retained && w.owned == v.owned else w == v)
  {
    var w := Next(v, cmd);
    if cmd.Edit? && v.at !in v.places.Values {
      forall r | r in v.places ensures w.owned[v.places[r]] == v.owned[v.places[r]] {
        assert v.places[r] in v.places.Values;
      }
    }
    assert w.places == v.places;
  }

  lemma NextIsWhole<C>(v: SizeMap<C>, cmd: Command<C>)
    requires v.Whole()
    ensures Next(v, cmd).Whole()
  {
    if cmd.ActivateSize? {
      GatheredIs(v.Loaded(cmd.size));
    } else {
      OthersRemember(v, cmd);
    }
  }

  /** An edit adds a layout exactly when some size remembers the one in use, and
      it comes last; otherwise all the others stay at their places. */
  lemma EditAdds<C>(v: SizeMap<C>, c: C)
    requires v.Whole()
    ensures var w := Next(v, Edit(c));
            var shared := exists s :: s in v.places && v.places[s] == v.at;
            |w.owned| == |v.owned| + (if shared then 1 else 0) &&
            w.at == (if shared then |v.owned| else v.at) && w.at < |w.owned| && w.owned[w.at] == c && w.places == v.places &&
            forall k :: 0 <= k < |v.owned| && k != w.at ==> w.owned[k] == v.owned[k]
  {
    if s :| s in v.places && v.places[s] == v.at {
      assert v.at in v.places.Values;
    }
  }

  // Runs.

  ghost predicate Run<C>(views: seq<SizeMap<C>>, cmds: seq<Command<C>>)
  {
    |views| == |cmds| + 1 && forall i :: 0 <= i < |cmds| ==> views[i].Whole() && views[i + 1] == Next(views[i], cmds[i])
  }

  lemma RunLonger<C>(views: seq<SizeMap<C>>, cmds: seq<Command<C>>, cmd: Command<C>, w: SizeMap<C>)
    requires Run(views, cmds) && views[|cmds|].Whole() && w == Next(views[|cmds|], cmd)
    ensures Run(views + [w], cmds + [cmd])
  {
  }

  lemma {:induction false} RunIsWhole<C>(views: seq<SizeMap<C>>, cmds: seq<Command<C>>, n: nat)
    requires Run(views, cmds) && views[0].Whole() && n <= |cmds|
    ensures views[n].Whole()
  {
    if n > 0 {
      NextIsWhole(views[n - 1], cmds[n - 1]);
    }
  }

  /** While another size is in use, nothing that is done there reaches what a
      size remembers. */
  lemma {:induction false} RememberedStays<C>(views: seq<SizeMap<C>>, cmds: seq<Command<C>>, s: Size, i: nat, n: nat)
    requires Run(views, cmds) && views[0].Whole() && i <= n <= |cmds| && views[i].size != s && s in views[i].places
    requires forall k :: i <= k < n ==> cmds[k] != ActivateSize(s)
    ensures views[i].Whole() && views[n].Whole() && views[n].size != s
    ensures s in views[n].Remembered() && views[n].Remembered()[s] == views[i].Remembered()[s]
  {
    RunIsWhole(views, cmds, i);
    if i < n {
      RememberedStays(views, cmds, s, i, n - 1);
      StaysRemembered(views[n - 1], cmds[n - 1], s);
    }
  }

  lemma StaysRemembered<C>(v: SizeMap<C>, cmd: Command<C>, s: Size)
    requires v.Whole() && v.size != s && s in v.Remembered() && cmd != ActivateSize(s)
    ensures var w := Next(v, cmd); w.Whole() && w.size != s && s in w.Remembered() && w.Remembered()[s] == v.Remembered()[s]
  {
    if cmd.ActivateSize? {
      ComesTo(v, cmd.size);
    } else {
      OthersRemember(v, cmd);
    }
  }

  /** A layout put away for a size comes back unchanged, whatever is edited,
      selected, replaced or remembered for other sizes in between. */
  lemma PutAwayComesBack<C>(views: seq<SizeMap<C>>, cmds: seq<Command<C>>, s: Size)
    requires Run(views, cmds) && views[0].Whole() && 2 <= |cmds|
    requires views[0].retained && views[0].size == s
    requires cmds[0].ActivateSize? && cmds[0].size != s
    requires (forall k :: 0 < k < |cmds| - 1 ==> cmds[k] != ActivateSize(s)) && cmds[|cmds| - 1] == ActivateSize(s)
    ensures views[|cmds|].Whole() && views[|cmds|].Active() == views[0].Active()
  {
    var n := |cmds| - 1;
    ComesTo(views[0], cmds[0].size);
    RememberedStays(views, cmds, s, 1, n);
    ComesTo(views[n], s);
  }

  function Elements<C>(s: seq<C>): set<C>
  {
    set c | c in s
  }

  /** The contents that commands give. */
  function Given<C>(cmds: seq<Command<C>>): set<C>
  {
    if cmds == [] then {}
    else
      var n := |cmds| - 1;
      Given(cmds[..n]) + if cmds[n].Edit? || cmds[n].Replace? then {cmds[n].content} else {}
  }

  lemma {:induction false} KeptAmong<C>(owned: seq<C>, used: set<nat>)
    ensures Elements(Kept(owned, used)) <= Elements(owned)
  {
    if owned != [] {
      var n := |owned| - 1;
      KeptAmong(owned[..n], used);
      forall c | c in Kept(owned, used) ensures c in owned {
        if c != owned[n] {
          assert c in Elements(Kept(owned[..n], used));
        }
      }
    }
  }

  lemma NextAmong<C>(v: SizeMap<C>, cmd: Command<C>)
    requires v.Whole()
    ensures Elements(Next(v, cmd).owned) <= Elements(v.owned) + if cmd.Edit? || cmd.Replace? then {cmd.content} else {}
  {
    if cmd.ActivateSize? {
      KeptAmong(v.owned, v.Loaded(cmd.size).InUse());
    }
  }

  /** Nothing comes into use, or into memory, that was not there or was not given. */
  lemma {:induction false} NothingFromNowhere<C>(views: seq<SizeMap<C>>, cmds: seq<Command<C>>, n: nat)
    requires Run(views, cmds) && views[0].Whole() && n <= |cmds|
    ensures views[n].Whole() && Elements(views[n].owned) <= Elements(views[0].owned) + Given(cmds[..n])
  {
    RunIsWhole(views, cmds, n);
    if n > 0 {
      NothingFromNowhere(views, cmds, n - 1);
      NextAmong(views[n - 1], cmds[n - 1]);
      assert cmds[..n][..n - 1] == cmds[..n - 1];
    }
  }

  /** Edits in a row add one layout at most: the first one does if the layout in
      use is remembered for some size, and no other one does. */
  lemma {:induction false} EditsAddOne<C>(views: seq<SizeMap<C>>, cmds: seq<Command<C>>, n: nat)
    requires Run(views, cmds) && views[0].Whole() && n <= |cmds| && forall i :: 0 <= i < n ==> cmds[i].Edit?
    ensures views[n].Whole() && views[n].places == views[0].places
    ensures |views[n].owned| == |views[0].owned| + if n > 0 && views[0].at in views[0].places.Values then 1 else 0
    ensures n > 0 ==> views[n].at !in views[n].places.Values
  {
    RunIsWhole(views, cmds, n);
    if n > 0 {
      EditsAddOne(views, cmds, n - 1);
      var v := views[n - 1];
      assert |v.owned| !in v.places.Values;
    }
  }

  // Going through the layouts.

  function Offsets<C>(cmds: seq<Command<C>>): int
  {
    if cmds == [] then 0
    else
      var n := |cmds| - 1;
      Offsets(cmds[..n]) + if cmds[n].ChangeIndex? then cmds[n].offset else 0
  }

  /** Offsets add up, around the end and back: offsets that sum up to nothing, or
      to the number of layouts, come back to the same one. */
  lemma {:induction false} OffsetsAddUp<C>(views: seq<SizeMap<C>>, cmds: seq<Command<C>>, n: nat) returns (turns: int)
    requires Run(views, cmds) && views[0].Whole() && n <= |cmds| && forall i :: 0 <= i < n ==> cmds[i].ChangeIndex?
    ensures views[n].Whole() && views[n].owned == views[0].owned && views[n].places == views[0].places
    ensures views[n].at == views[0].at + Offsets(cmds[..n]) + turns * |views[0].owned|
  {
    RunIsWhole(views, cmds, n);
    turns := 0;
    if n > 0 {
      var before := OffsetsAddUp(views, cmds, n - 1);
      var count, to := |views[0].owned|, views[n - 1].at + cmds[n - 1].offset;
      assert cmds[..n][..n - 1] == cmds[..n - 1];
      assert to == to / count * count + to % count;
      turns := before - to / count;
      Distribute(before, to / count, count);
    }
  }

  lemma Distribute(a: int, b: int, c: int)
    ensures (a - b) * c == a * c - b * c
  {
  }
}
