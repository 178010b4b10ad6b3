/** The layouts of one space, as `src/model/layout_mapping.rs` keeps them.

    A space remembers one layout for each screen size. Sizes share layouts as
    long as they can: a layout is copied when it is about to be modified and
    some size remembers it, and thrown away when nothing uses it any more. To
    its user all of that comes to what `SizeMaps` says of contents and places. */
module LayoutMapping {
  import opened Options
  import opened SizeMaps

  type LayoutId = nat

  // Reference counts.

  /** The sizes that remember layout `l`. */
  function SizesOf(memory: map<Size, LayoutId>, l: LayoutId): set<Size>
  {
    set s | s in memory && memory[s] == l
  }

  /** How often a layout is in use: once for each size that remembers it, and
      once more if it is the active one. */
  function RefCount(memory: map<Size, LayoutId>, active: LayoutId, l: LayoutId): nat
  {
    |SizesOf(memory, l)| + (if l == active then 1 else 0)
  }

  lemma OneLess(sizes: set<Size>, s: Size)
    ensures |sizes - {s}| == |sizes| - if s in sizes then 1 else 0
  {
    if s !in sizes {
      assert sizes - {s} == sizes;
    }
  }

  lemma Remember(memory: map<Size, LayoutId>, s: Size, saved: LayoutId, l: LayoutId)
    ensures |SizesOf(memory[s := saved], l)| ==
            |SizesOf(memory, l)| + (if l == saved then 1 else 0) - (if s in memory && memory[s] == l then 1 else 0)
  {
    var before, after := SizesOf(memory, l), SizesOf(memory[s := saved], l);
    assert before - {s} == after - {s};
    OneLess(before, s);
    OneLess(after, s);
  }

  lemma InUse(memory: map<Size, LayoutId>, active: LayoutId, l: LayoutId)
    ensures RefCount(memory, active, l) > 0 <==> l == active || l in memory.Values
  {
    if l in memory.Values {
      var s :| s in memory && memory[s] == l;
      assert s in SizesOf(memory, l);
    } else {
      assert SizesOf(memory, l) == {};
    }
  }

  /** Every count is exact, and nothing in use is missing. */
  ghost predicate Exact(counts: map<LayoutId, int>, memory: map<Size, LayoutId>, active: LayoutId)
  {
    (forall l :: l in counts ==> counts[l] == RefCount(memory, active, l)) && active in counts && memory.Values <= counts.Keys
  }

  function Shifted(counts: map<LayoutId, int>, l: LayoutId, change: int): map<LayoutId, int>
    requires l in counts
  {
    counts[l := counts[l] + change]
  }

  /** Remembering the active layout costs one use, and may end another. */
  lemma SaveExact(counts: map<LayoutId, int>, memory: map<Size, LayoutId>, active: LayoutId, s: Size)
    requires Exact(counts, memory, active)
    ensures s !in memory ==> Exact(Shifted(counts, active, 1), memory[s := active], active)
    ensures s in memory ==> memory[s] in counts && Exact(Shifted(Shifted(counts, active, 1), memory[s], -1), memory[s := active], active)
  {
    forall l | l in counts
      ensures RefCount(memory[s := active], active, l) ==
              counts[l] + (if l == active then 1 else 0) - (if s in memory && memory[s] == l then 1 else 0)
    {
      Remember(memory, s, active, l);
    }
    assert memory[s := active].Values <= memory.Values + {active};
    if s in memory {
      assert memory[s] in memory.Values;
    }
  }

  /** Making another layout active moves one use. */
  lemma SwitchExact(counts: map<LayoutId, int>, memory: map<Size, LayoutId>, active: LayoutId, next: LayoutId)
    requires Exact(counts, memory, active) && next in counts
    ensures Exact(Shifted(Shifted(counts, next, 1), active, -1), memory, next)
  {
  }

  /** A new layout takes over from the active one. */
  lemma FreshExact(counts: map<LayoutId, int>, memory: map<Size, LayoutId>, active: LayoutId, added: LayoutId)
    requires Exact(counts, memory, active) && added !in counts
    ensures Exact(Shifted(counts, active, -1)[added := 1], memory, added)
  {
    assert SizesOf(memory, added) == {};
  }

  /** The active layout is used once more exactly when some size remembers it. */
  lemma UsedAgain(memory: map<Size, LayoutId>, active: LayoutId)
    ensures 2 <= RefCount(memory, active, active) <==> active in memory.Values
  {
    if active in memory.Values {
      var s :| s in memory && memory[s] == active;
      assert s in SizesOf(memory, active);
    } else {
      assert SizesOf(memory, active) == {};
    }
  }

  /** Layouts that belong to other spaces are left alone. */
  ghost predicate OthersUntouched<C>(before: map<LayoutId, C>, owned: set<LayoutId>, after: map<LayoutId, C>, owned': set<LayoutId>)
  {
    forall l :: l in before && l !in owned ==> l in after && after[l] == before[l] && l !in owned'
  }

  /** The layouts of a list that nothing uses any more. */
  function Unused(order: seq<LayoutId>, counts: map<LayoutId, int>): set<LayoutId>
  {
    set l | l in order && l in counts && counts[l] <= 0
  }

  /** The layouts of a list that something still uses, in the same order. */
  function Used(order: seq<LayoutId>, counts: map<LayoutId, int>): seq<LayoutId>
    requires forall l :: l in order ==> l in counts
  {
    if order == [] then []
    else
      var n := |order| - 1;
      Used(order[..n], counts) + (if counts[order[n]] > 0 then [order[n]] else [])
  }

  /** A list of layouts, each listed once. */
  ghost predicate Lists(order: seq<LayoutId>, counts: map<LayoutId, int>)
  {
    (forall l :: l in order <==> l in counts) && forall i, j :: 0 <= i < j < |order| ==> order[i] != order[j]
  }

  /** A new layout takes the place of the active one. */
  lemma ReplaceExact(order: seq<LayoutId>, counts: map<LayoutId, int>, memory: map<Size, LayoutId>, active: LayoutId, added: LayoutId)
    requires Exact(counts, memory, active) && Lists(order, counts) && added !in counts
    ensures var after := Shifted(counts[added := 1], active, -1);
            Exact(after, memory, added) && Lists(order + [added], after) && after.Keys == counts.Keys + {added} &&
            after == Shifted(counts, active, -1)[added := 1]
  {
    FreshExact(counts, memory, active, added);
    assert Shifted(counts[added := 1], active, -1) == Shifted(counts, active, -1)[added := 1];
  }

  lemma {:induction false} UsedElements(order: seq<LayoutId>, counts: map<LayoutId, int>)
    requires forall l :: l in order ==> l in counts
    requires forall i, j :: 0 <= i < j < |order| ==> order[i] != order[j]
    ensures forall l :: l in Used(order, counts) <==> l in order && counts[l] > 0
    ensures forall i, j :: 0 <= i < j < |Used(order, counts)| ==> Used(order, counts)[i] != Used(order, counts)[j]
  {
    if order != [] {
      var n := |order| - 1;
      UsedElements(order[..n], counts);
      assert order == order[..n] + [order[n]];
    }
  }

  lemma WithoutOneMore<V>(m: map<LayoutId, V>, gone: set<LayoutId>, l: LayoutId)
    ensures (m - gone) - {l} == m - (gone + {l})
  {
  }

  lemma CollectStep(order: seq<LayoutId>, counts: map<LayoutId, int>, i: nat)
    requires Lists(order, counts) && i < |order|
    ensures forall l :: l in order[..i + 1] ==> l in counts
    ensures Used(order[..i + 1], counts) == Used(order[..i], counts) + (if counts[order[i]] > 0 then [order[i]] else [])
    ensures Unused(order[..i + 1], counts) == Unused(order[..i], counts) + (if counts[order[i]] > 0 then {} else {order[i]})
    ensures order[i] in counts - Unused(order[..i], counts)
  {
    assert order[..i + 1][..i] == order[..i];
    assert order[..i + 1] == order[..i] + [order[i]];
  }

  /** With the unused layouts gone, the active one and the remembered ones are left. */
  lemma CollectExact(order: seq<LayoutId>, counts: map<LayoutId, int>, memory: map<Size, LayoutId>, active: LayoutId)
    requires Exact(counts, memory, active) && Lists(order, counts)
    ensures Exact(counts - Unused(order, counts), memory, active)
    ensures Lists(Used(order, counts), counts - Unused(order, counts))
    ensures (counts - Unused(order, counts)).Keys == {active} + memory.Values
  {
    UsedElements(order, counts);
    forall l | l in counts
      ensures counts[l] > 0 <==> l == active || l in memory.Values
    {
      InUse(memory, active, l);
    }
  }

  /** What is in the layouts of a list. */
  function Listed<C>(contents: map<LayoutId, C>, order: seq<LayoutId>): (r: seq<C>)
    requires forall l :: l in order ==> l in contents
    ensures |r| == |order|
  {
    seq(|order|, i requires 0 <= i < |order| => contents[order[i]])
  }

  /** Where a layout is in a list. */
  function IndexOf(order: seq<LayoutId>, l: LayoutId): (place: nat)
    requires l in order
    ensures place < |order| && order[place] == l
  {
    if order[|order| - 1] == l then |order| - 1 else IndexOf(order[..|order| - 1], l)
  }

  /** The layouts still used are the ones kept, and so is what is in them. */
  lemma {:induction false} UsedIsKept<C>(contents: map<LayoutId, C>, order: seq<LayoutId>, counts: map<LayoutId, int>, used: set<nat>)
    requires forall l :: l in order ==> l in counts && l in contents
    requires forall l :: l in Used(order, counts) ==> l in order
    requires forall i: nat :: i < |order| ==> (i in used <==> counts[order[i]] > 0)
    ensures Used(order, counts) == Kept(order, used)
    ensures Listed(contents, Used(order, counts)) == Kept(Listed(contents, order), used)
  {
    if order != [] {
      var n := |order| - 1;
      UsedAmong(order[..n], counts);
      UsedIsKept(contents, order[..n], counts, used);
      assert Listed(contents, order)[..n] == Listed(contents, order[..n]);
      if counts[order[n]] > 0 {
        assert Listed(contents, Used(order, counts)) == Listed(contents, Used(order[..n], counts)) + [contents[order[n]]];
      }
    }
  }

  /** The place of a layout that is kept. */
  lemma PlaceKept(order: seq<LayoutId>, used: set<nat>, l: LayoutId)
    requires l in order && IndexOf(order, l) in used
    requires forall i, j :: 0 <= i < j < |Kept(order, used)| ==> Kept(order, used)[i] != Kept(order, used)[j]
    ensures l in Kept(order, used) && IndexOf(Kept(order, used), l) == Rank(used, IndexOf(order, l))
  {
    KeptAt(order, used, IndexOf(order, l));
    AtPlace(Kept(order, used), Rank(used, IndexOf(order, l)));
  }

  /** The places of remembered layouts. */
  function Places(order: seq<LayoutId>, memory: map<Size, LayoutId>): map<Size, nat>
    requires forall s :: s in memory ==> memory[s] in order
  {
    map s | s in memory :: IndexOf(order, memory[s])
  }

  lemma InPlaces(order: seq<LayoutId>, memory: map<Size, LayoutId>, l: LayoutId)
    requires l in order && forall s :: s in memory ==> memory[s] in order
    ensures IndexOf(order, l) in Places(order, memory).Values <==> l in memory.Values
  {
    var places := Places(order, memory);
    if l in memory.Values {
      var s :| s in memory && memory[s] == l;
      assert places[s] == IndexOf(order, l);
    }
    if IndexOf(order, l) in places.Values {
      var s :| s in places && places[s] == IndexOf(order, l);
      assert memory[s] == l;
    }
  }

  lemma PlacesMore(order: seq<LayoutId>, memory: map<Size, LayoutId>, added: LayoutId)
    requires added !in order && forall s :: s in memory ==> memory[s] in order
    ensures forall s :: s in memory ==> memory[s] in order + [added]
    ensures Places(order + [added], memory) == Places(order, memory)
  {
    forall s | s in memory ensures IndexOf(order + [added], memory[s]) == IndexOf(order, memory[s]) {
      IndexMore(order, added, memory[s]);
    }
  }

  lemma IndexMore(order: seq<LayoutId>, added: LayoutId, l: LayoutId)
    requires added !in order && l in order
    ensures l in order + [added] && IndexOf(order + [added], l) == IndexOf(order, l)
  {
    assert (order + [added])[..|order|] == order;
  }

  lemma {:induction false} UsedAmong(order: seq<LayoutId>, counts: map<LayoutId, int>)
    requires forall l :: l in order ==> l in counts
    ensures forall l :: l in Used(order, counts) ==> l in order
  {
    if order != [] {
      UsedAmong(order[..|order| - 1], counts);
    }
  }

  /** One more layout comes last. */
  lemma ListedMore<C>(contents: map<LayoutId, C>, order: seq<LayoutId>, added: LayoutId)
    requires (forall l :: l in order ==> l in contents) && added in contents && added !in order
    ensures Listed(contents, order + [added]) == Listed(contents, order) + [contents[added]]
    ensures IndexOf(order + [added], added) == |order|
  {
  }

  lemma ListedUntouched<C>(before: map<LayoutId, C>, after: map<LayoutId, C>, order: seq<LayoutId>)
    requires forall l :: l in order ==> l in before && l in after && after[l] == before[l]
    ensures Listed(after, order) == Listed(before, order)
  {
  }

  /** With one more layout, which comes last. */
  lemma AddedView<C>(contents: map<LayoutId, C>, order: seq<LayoutId>, memory: map<Size, LayoutId>, added: LayoutId)
    requires (forall l :: l in order ==> l in contents) && added in contents && added !in order
    requires forall s :: s in memory ==> memory[s] in order
    ensures Listed(contents, order + [added]) == Listed(contents, order) + [contents[added]]
    ensures IndexOf(order + [added], added) == |order|
    ensures (forall s :: s in memory ==> memory[s] in order + [added]) && Places(order + [added], memory) == Places(order, memory)
  {
    ListedMore(contents, order, added);
    PlacesMore(order, memory, added);
  }

  /** Everything in use is listed, and every layout listed exists. */
  ghost predicate AllListed<C>(contents: map<LayoutId, C>, order: seq<LayoutId>, memory: map<Size, LayoutId>, active: LayoutId)
  {
    active in order && (forall s :: s in memory ==> memory[s] in order) && forall l :: l in order ==> l in contents
  }

  /** What the user sees. */
  ghost function ViewOf<C>(contents: map<LayoutId, C>, order: seq<LayoutId>, memory: map<Size, LayoutId>, active: LayoutId,
                           size: Size, retained: bool): (v: SizeMap<C>)
    requires AllListed(contents, order, memory, active)
    ensures v.Whole()
  {
    SizeMap(size, IndexOf(order, active), retained, Places(order, memory), Listed(contents, order))
  }

  /** The places in use are those of the layouts with a count. */
  lemma PlacesCounted(order: seq<LayoutId>, counts: map<LayoutId, int>, memory: map<Size, LayoutId>, active: LayoutId)
    requires Exact(counts, memory, active) && Lists(order, counts)
    ensures var used := {IndexOf(order, active)} + Places(order, memory).Values;
            forall i: nat :: i < |order| ==> (i in used <==> counts[order[i]] > 0)
  {
    var used := {IndexOf(order, active)} + Places(order, memory).Values;
    forall i: nat | i < |order| ensures i in used <==> counts[order[i]] > 0 {
      AtPlace(order, i);
      InPlaces(order, memory, order[i]);
      InUse(memory, active, order[i]);
    }
  }

  /** A list in which nothing is twice. */
  predicate EachOnce(order: seq<LayoutId>)
  {
    forall i, j :: 0 <= i < j < |order| ==> order[i] != order[j]
  }

  lemma RememberedKept(order: seq<LayoutId>, used: set<nat>, memory: map<Size, LayoutId>, s: Size)
    requires (forall r :: r in memory ==> memory[r] in order) && Places(order, memory).Values <= used && s in memory
    requires EachOnce(Kept(order, used))
    ensures memory[s] in Kept(order, used)
    ensures IndexOf(Kept(order, used), memory[s]) == Rank(used, Places(order, memory)[s])
  {
    assert Places(order, memory)[s] in Places(order, memory).Values;
    PlaceKept(order, used, memory[s]);
  }

  lemma PlacesKept(order: seq<LayoutId>, used: set<nat>, memory: map<Size, LayoutId>)
    requires (forall s :: s in memory ==> memory[s] in order) && Places(order, memory).Values <= used
    requires EachOnce(Kept(order, used))
    ensures forall s :: s in memory ==> memory[s] in Kept(order, used)
    ensures Places(Kept(order, used), memory) == map s | s in Places(order, memory) :: Rank(used, Places(order, memory)[s])
  {
    forall s | s in memory
      ensures memory[s] in Kept(order, used) && IndexOf(Kept(order, used), memory[s]) == Rank(used, Places(order, memory)[s])
    {
      RememberedKept(order, used, memory, s);
    }
  }

  /** What is left once the unused layouts are gone. */
  lemma CollectView<C>(contents: map<LayoutId, C>, order: seq<LayoutId>, counts: map<LayoutId, int>, memory: map<Size, LayoutId>,
                       active: LayoutId, size: Size, retained: bool)
    requires Exact(counts, memory, active) && Lists(order, counts) && AllListed(contents, order, memory, active)
    ensures var order', contents' := Used(order, counts), contents - Unused(order, counts);
            AllListed(contents', order', memory, active) &&
            ViewOf(contents', order', memory, active, size, retained) == ViewOf(contents, order, memory, active, size, retained).Gathered()
  {
    CollectKeeps(contents, order, counts, memory, active);
    var v := ViewOf(contents, order, memory, active, size, retained);
    var w := ViewOf(contents - Unused(order, counts), Used(order, counts), memory, active, size, retained);
    assert w.owned == v.Gathered().owned && w.at == v.Gathered().at && w.places == v.Gathered().places;
  }

  lemma CollectKeeps<C>(contents: map<LayoutId, C>, order: seq<LayoutId>, counts: map<LayoutId, int>, memory: map<Size, LayoutId>, active: LayoutId)
    requires Exact(counts, memory, active) && Lists(order, counts) && AllListed(contents, order, memory, active)
    ensures var order', contents', used := Used(order, counts), contents - Unused(order, counts), {IndexOf(order, active)} + Places(order, memory).Values;
            AllListed(contents', order', memory, active) &&
            Listed(contents', order') == Kept(Listed(contents, order), used) && IndexOf(order', active) == Rank(used, IndexOf(order, active)) &&
            Places(order', memory) == map s | s in Places(order, memory) :: Rank(used, Places(order, memory)[s])
  {
    var used := {IndexOf(order, active)} + Places(order, memory).Values;
    UsedElements(order, counts);
    PlacesCounted(order, counts, memory, active);
    UsedIsKept(contents, order, counts, used);
    ListedUntouched(contents, contents - Unused(order, counts), Used(order, counts));
    PlaceKept(order, used, active);
    PlacesKept(order, used, memory);
  }

  /** An edit of what was prepared for it. */
  lemma EditIsNext<C>(v: SizeMap<C>, prepared: SizeMap<C>, a: C, c: C)
    requires v.Whole() && prepared == if v.at in v.places.Values then v.Add(a) else v.Show(v.at)
    ensures prepared.Whole() && prepared.(owned := prepared.owned[prepared.at := c]) == Next(v, Edit(c))
  {
  }

  lemma PlacesSaved(order: seq<LayoutId>, memory: map<Size, LayoutId>, size: Size, l: LayoutId)
    requires l in order && forall s :: s in memory ==> memory[s] in order
    ensures Places(order, memory[size := l]) == Places(order, memory)[size := IndexOf(order, l)]
  {
  }

  /** What an edit of the active layout comes to where no size remembers it. */
  lemma EditView<C>(contents: map<LayoutId, C>, order: seq<LayoutId>, memory: map<Size, LayoutId>, active: LayoutId, size: Size, c: C)
    requires AllListed(contents, order, memory, active)
    requires forall i, j :: 0 <= i < j < |order| ==> order[i] != order[j]
    ensures AllListed(contents[active := c], order, memory, active)
    ensures var v := ViewOf(contents, order, memory, active, size, true);
            ViewOf(contents[active := c], order, memory, active, size, true) == v.(owned := v.owned[v.at := c])
  {
    EditedContents(contents, order, active, c);
  }

  lemma AtPlace(order: seq<LayoutId>, place: nat)
    requires place < |order| && forall i, j :: 0 <= i < j < |order| ==> order[i] != order[j]
    ensures order[place] in order && IndexOf(order, order[place]) == place
  {
  }

  lemma OthersChain<C>(a: map<LayoutId, C>, owned: set<LayoutId>, b: map<LayoutId, C>, owned1: set<LayoutId>, c: map<LayoutId, C>, owned2: set<LayoutId>)
    requires OthersUntouched(a, owned, b, owned1) && OthersUntouched(b, owned1, c, owned2)
    ensures OthersUntouched(a, owned, c, owned2)
  {
  }

  /** An edit of a layout changes what is at its place. */
  lemma EditedContents<C>(contents: map<LayoutId, C>, order: seq<LayoutId>, l: LayoutId, c: C)
    requires l in order && (forall k :: k in order ==> k in contents)
    requires forall i, j :: 0 <= i < j < |order| ==> order[i] != order[j]
    ensures Listed(contents[l := c], order) == Listed(contents, order)[IndexOf(order, l) := c]
  {
  }

  /** The layouts of all spaces, with ids that are never used twice. */
  class LayoutStore<C> {
    var contents: map<LayoutId, C>
    var nextId: LayoutId

    ghost predicate Valid()
      reads this
    {
      forall l :: l in contents ==> l < nextId
    }

    constructor ()
      ensures Valid() && contents == map[]
    {
      contents, nextId := map[], 0;
    }

    method Create(c: C) returns (l: LayoutId)
      requires Valid()
      modifies this
      ensures Valid() && l !in old(contents) && contents == old(contents)[l := c] && old(nextId) <= l < nextId
    {
      l := nextId;
      contents, nextId := contents[l := c], nextId + 1;
    }

    method CloneLayout(source: LayoutId) returns (l: LayoutId)
      requires Valid() && source in contents
      modifies this
      ensures Valid() && l !in old(contents) && contents == old(contents)[l := old(contents)[source]]
    {
      l := Create(contents[source]);
    }

    method RemoveLayout(l: LayoutId)
      requires Valid() && l in contents
      modifies this
      ensures Valid() && contents == old(contents) - {l}
    {
      contents := contents - {l};
    }

    method Edit(l: LayoutId, c: C)
      requires Valid() && l in contents
      modifies this
      ensures Valid() && contents == old(contents)[l := c]
    {
      contents := contents[l := c];
    }
  }

  class SpaceLayoutMapping<C(==)> {
    const tree: LayoutStore<C>
    var activeSize: Size
    var activeLayout: LayoutId
    var retained: bool
    var memory: map<Size, LayoutId>
    /** All the layouts owned by this space, in the order they were added, and
        how often each is in use. */
    var order: seq<LayoutId>
    var counts: map<LayoutId, int>

    /** Counts are exact, nothing in use is missing, and every layout listed is
        there once and exists. */
    ghost predicate Valid()
      reads this, tree
    {
      && tree.Valid()
      && Exact(counts, memory, activeLayout)
      && Lists(order, counts)
      && counts.Keys <= tree.contents.Keys
    }

    /** The plain map this object stands for. */
    ghost function View(): (v: SizeMap<C>)
      requires Valid()
      reads this, tree
      ensures v.Whole()
    {
      assert forall s :: s in memory ==> memory[s] in memory.Values;
      ViewOf(tree.contents, order, memory, activeLayout, activeSize, retained)
    }

    constructor (size: Size, tree: LayoutStore<C>, c: C)
      requires tree.Valid()
      modifies tree
      ensures Valid() && this.tree == tree && View() == SizeMap(size, 0, false, map[], [c])
      ensures OthersUntouched(old(tree.contents), {}, tree.contents, counts.Keys)
    {
      var layout := tree.Create(c);
      this.tree := tree;
      activeSize, activeLayout, retained, memory := size, layout, false, map[];
      order, counts := [layout], map[layout := 1];
      new;
      assert SizesOf(memory, layout) == {};
      assert View() == SizeMap(size, 0, false, map[], [c]);
    }

    method Increment(l: LayoutId)
      requires l in counts
      modifies this`counts
      ensures counts == Shifted(old(counts), l, 1)
    {
      counts := counts[l := counts[l] + 1];
    }

    method Decrement(l: LayoutId)
      requires l in counts
      modifies this`counts
      ensures counts == Shifted(old(counts), l, -1)
    {
      counts := counts[l := counts[l] - 1];
    }

    /** Puts the active layout away for the active size. */
    method Save()
      requires Valid()
      modifies this`memory, this`counts
      ensures Valid() && counts.Keys == old(counts).Keys
      ensures memory == old(memory)[activeSize := activeLayout]
      ensures View() == old(View()).(places := old(View()).places[activeSize := old(View()).at])
    {
      assert forall s :: s in memory ==> memory[s] in memory.Values;
      PlacesSaved(order, memory, activeSize, activeLayout);
      SaveExact(counts, memory, activeLayout, activeSize);
      var saved := activeLayout;
      var removed := if activeSize in memory then Some(memory[activeSize]) else None;
      memory := memory[activeSize := saved];
      Recount(saved, removed);
    }

    /** Counts one layout in, and one out if there is one. */
    method Recount(saved: LayoutId, removed: Option<LayoutId>)
      requires saved in counts && (removed.Some? ==> removed.value in counts)
      modifies this`counts
      ensures counts.Keys == old(counts).Keys
      ensures counts == if removed.Some? then Shifted(Shifted(old(counts), saved, 1), removed.value, -1) else Shifted(old(counts), saved, 1)
    {
      Increment(saved);
      if removed.Some? {
        Decrement(removed.value);
      }
    }

    /** Goes through the layouts and removes those with a count of zero. */
    method Sweep()
      requires tree.Valid() && Lists(order, counts) && counts.Keys <= tree.contents.Keys
      modifies this`order, this`counts, tree
      ensures tree.Valid()
      ensures order == Used(old(order), old(counts))
      ensures counts == old(counts) - Unused(old(order), old(counts))
      ensures tree.contents == old(tree.contents) - Unused(old(order), old(counts))
    {
      ghost var counts0, contents0 := counts, tree.contents;
      var kept := [];
      for i := 0 to |order|
        invariant order == old(order) && tree.Valid() && kept == Used(order[..i], counts0)
        invariant counts == counts0 - Unused(order[..i], counts0)
        invariant tree.contents == contents0 - Unused(order[..i], counts0)
      {
        CollectStep(order, counts0, i);
        var l := order[i];
        if counts[l] > 0 {
          kept := kept + [l];
        } else {
          WithoutOneMore(counts0, Unused(order[..i], counts0), l);
          WithoutOneMore(contents0, Unused(order[..i], counts0), l);
          tree.RemoveLayout(l);
          counts := counts - {l};
        }
      }
      assert order[..|order|] == order;
      order := kept;
    }

    /** Throws away the layouts nothing uses. */
    method Collect()
      requires Valid()
      modifies this`order, this`counts, tree
      ensures Valid() && View() == old(View()).Gathered()
      ensures counts.Keys == {activeLayout} + memory.Values
      ensures counts == old(counts) - Unused(old(order), old(counts))
      ensures tree.contents == old(tree.contents) - Unused(old(order), old(counts))
    {
      CollectExact(order, counts, memory, activeLayout);
      assert forall s :: s in memory ==> memory[s] in memory.Values;
      CollectView(tree.contents, order, counts, memory, activeLayout, activeSize, retained);
      Sweep();
    }

    /** Counts another layout in and the active one out. */
    method SwitchTo(l: LayoutId)
      requires Exact(counts, memory, activeLayout) && l in counts
      modifies this`activeLayout, this`counts
      ensures Exact(counts, memory, activeLayout) && activeLayout == l && counts.Keys == old(counts).Keys
    {
      SwitchExact(counts, memory, activeLayout, l);
      Increment(l);
      Decrement(activeLayout);
      activeLayout := l;
    }

    /** Puts the layout remembered for a size in use, or else keeps the one in use. */
    method Load(size: Size)
      requires Valid()
      modifies this`activeSize, this`activeLayout, this`retained, this`counts
      ensures Valid() && counts.Keys == old(counts).Keys
      ensures View() == old(View()).(retained := false).Loaded(size)
    {
      retained := false;
      activeSize := size;
      if size in memory {
        var remembered := memory[size];
        assert remembered in memory.Values;
        SwitchTo(remembered);
      }
    }

    /** Puts the layout in use away, if it is to be remembered, and another one in use. */
    method Reload(size: Size)
      requires Valid()
      modifies this`memory, this`activeSize, this`activeLayout, this`retained, this`counts
      ensures Valid() && counts.Keys == old(counts).Keys
      ensures View() == old(View()).Loaded(size)
    {
      if retained {
        Save();
      }
      Load(size);
    }

    method ActivateSize(size: Size)
      requires Valid()
      modifies this, tree
      ensures Valid() && View() == Next(old(View()), Command<C>.ActivateSize(size))
      ensures counts.Keys == {activeLayout} + memory.Values
      ensures tree.contents.Keys == old(tree.contents).Keys - (old(counts).Keys - counts.Keys)
      ensures OthersUntouched(old(tree.contents), old(counts).Keys, tree.contents, counts.Keys)
    {
      Reload(size);
      Collect();
    }

    method RetainLayout()
      requires Valid()
      modifies this`retained
      ensures Valid() && View() == Next(old(View()), Command<C>.Retain)
    {
      retained := true;
    }

    /** Puts a layout of this space in use for the active size. */
    method SelectLayout(layout: LayoutId)
      requires Valid() && layout in counts
      modifies this`activeLayout, this`retained, this`counts
      ensures Valid() && activeLayout == layout && retained && counts.Keys == old(counts).Keys
      ensures View() == old(View()).Show(IndexOf(order, layout))
    {
      SwitchTo(layout);
      retained := true;
    }

    method ActiveLayoutIndex() returns (index: nat)
      requires Valid()
      ensures index < |order| && order[index] == activeLayout
    {
      index := 0;
      while order[index] != activeLayout
        invariant index < |order| && activeLayout !in order[..index]
        decreases |order| - index
      {
        assert order[..index + 1] == order[..index] + [order[index]];
        assert order[..|order|] == order;
        index := index + 1;
      }
    }

    /** Moves on by `offset` layouts, around the end and back if need be. */
    method ChangeLayoutIndex(offset: int)
      requires Valid()
      modifies this`activeLayout, this`retained, this`counts
      ensures Valid() && counts.Keys == old(counts).Keys
      ensures View() == Next(old(View()), Command<C>.ChangeIndex(offset))
    {
      var cur := ActiveLayoutIndex();
      var next := (cur + offset) % |order|;
      AtPlace(order, cur);
      AtPlace(order, next);
      SelectLayout(order[next]);
    }

    /** Puts a copy of the active layout in use in its place. */
    method CloneActive()
      requires Valid()
      modifies this`activeLayout, this`order, this`counts, tree
      ensures Valid() && activeLayout !in old(tree.contents)
      ensures order == old(order) + [activeLayout] && counts.Keys == old(counts).Keys + {activeLayout}
      ensures View() == old(View()).(at := |old(order)|, owned := old(View()).owned + [old(tree.contents)[old(activeLayout)]])
      ensures OthersUntouched(old(tree.contents), old(counts).Keys, tree.contents, counts.Keys)
    {
      ghost var contents := tree.contents;
      ghost var counted := counts;
      Decrement(activeLayout);
      var cloned := tree.CloneLayout(activeLayout);
      ReplaceExact(order, counted, memory, activeLayout, cloned);
      ListedUntouched(contents, tree.contents, order);
      AddedView(tree.contents, order, memory, cloned);
      AddLayout(cloned);
      activeLayout := cloned;
    }

    /** Makes sure that no size remembers the active layout: it is copied exactly
        when one does. */
    method PrepareModify() returns (layout: LayoutId)
      requires Valid()
      modifies this, tree
      ensures Valid() && layout == activeLayout && activeLayout !in memory.Values && memory == old(memory)
      ensures layout == old(activeLayout) <==> old(activeLayout) !in old(memory).Values
      ensures order == old(order) + if layout == old(activeLayout) then [] else [layout]
      ensures View() == if layout == old(activeLayout) then old(View()).Show(old(View()).at)
                        else old(View()).Add(old(tree.contents)[old(activeLayout)])
      ensures OthersUntouched(old(tree.contents), old(counts).Keys, tree.contents, counts.Keys)
    {
      UsedAgain(memory, activeLayout);
      if counts[activeLayout] > 1 {
        CloneActive();
      }
      retained := true;
      layout := activeLayout;
    }

    /** A modification by the user: the layout is prepared first. */
    method Modify(c: C)
      requires Valid()
      modifies this, tree
      ensures Valid() && View() == Next(old(View()), Edit(c))
      ensures OthersUntouched(old(tree.contents), old(counts).Keys, tree.contents, counts.Keys)
    {
      InPlaces(order, memory, activeLayout);
      var layout := PrepareModify();
      ghost var before := tree.contents;
      EditIsNext(old(View()), View(), old(tree.contents)[old(activeLayout)], c);
      tree.Edit(layout, c);
      assert forall s :: s in memory ==> memory[s] in memory.Values;
      EditView(before, order, memory, layout, activeSize, c);
    }

    /** Lists a layout that was made for the purpose, as used once. */
    method AddLayout(newLayout: LayoutId)
      requires newLayout !in counts
      modifies this`order, this`counts
      ensures order == old(order) + [newLayout] && counts == old(counts)[newLayout := 1]
    {
      order, counts := order + [newLayout], counts[newLayout := 1];
    }

    /** Counts a new layout in and the active one out, and puts the new one in use. */
    method SwapIn(newLayout: LayoutId)
      requires activeLayout in counts && newLayout !in counts
      modifies this`activeLayout, this`retained, this`order, this`counts
      ensures order == old(order) + [newLayout] && counts == Shifted(old(counts)[newLayout := 1], old(activeLayout), -1)
      ensures activeLayout == newLayout && retained
    {
      AddLayout(newLayout);
      Decrement(activeLayout);
      activeLayout := newLayout;
      retained := true;
    }

    /** Puts a layout in use that was made for the purpose. */
    method ReplaceActiveLayout(newLayout: LayoutId)
      requires Valid() && newLayout in tree.contents && newLayout !in counts
      modifies this`activeLayout, this`retained, this`order, this`counts
      ensures Valid() && activeLayout == newLayout && counts.Keys == old(counts).Keys + {newLayout}
      ensures View() == Next(old(View()), Replace(tree.contents[newLayout]))
    {
      ReplaceExact(order, counts, memory, activeLayout, newLayout);
      AddedView(tree.contents, order, memory, newLayout);
      SwapIn(newLayout);
    }

    method Step(cmd: Command<C>)
      requires Valid()
      modifies this, tree
      ensures Valid() && View() == Next(old(View()), cmd)
      ensures OthersUntouched(old(tree.contents), old(counts).Keys, tree.contents, counts.Keys)
    {
      match cmd
      case ActivateSize(size) => ActivateSize(size);
      case Retain => RetainLayout();
      case Edit(c) => Modify(c);
      case Select(pick) =>
        if pick < |order| {
          AtPlace(order, pick);
          SelectLayout(order[pick]);
        }
      case ChangeIndex(offset) => ChangeLayoutIndex(offset);
      case Replace(c) =>
        var made := tree.Create(c);
        ListedUntouched(old(tree.contents), tree.contents, order);
        ReplaceActiveLayout(made);
    }

    /** One more step of a run. */
    method StepMore(cmd: Command<C>, ghost views: seq<SizeMap<C>>, ghost cmds: seq<Command<C>>) returns (ghost views': seq<SizeMap<C>>)
      requires Valid() && Run(views, cmds) && views[|cmds|] == View()
      modifies this, tree
      ensures Valid() && Run(views', cmds + [cmd]) && views'[0] == views[0] && views'[|cmds| + 1] == View()
      ensures OthersUntouched(old(tree.contents), old(counts).Keys, tree.contents, counts.Keys)
    {
      Step(cmd);
      RunLonger(views, cmds, cmd, View());
      views' := views + [View()];
    }

    /** Whatever is done to the shared and counted layouts is a run of the plain
        map, and nothing leaks or dangles on the way. */
    method Execute(cmds: seq<Command<C>>) returns (ghost views: seq<SizeMap<C>>)
      requires Valid()
      modifies this, tree
      ensures Valid() && Run(views, cmds)
      ensures views[0] == old(View()) && views[|cmds|] == View()
      ensures OthersUntouched(old(tree.contents), old(counts).Keys, tree.contents, counts.Keys)
    {
      ghost var start, contents0, owned0 := View(), tree.contents, counts.Keys;
      views := [start];
      for i := 0 to |cmds|
        invariant Valid() && Run(views, cmds[..i]) && views[0] == start && views[i] == View()
        invariant OthersUntouched(contents0, owned0, tree.contents, counts.Keys)
      {
        ghost var contents, owned := tree.contents, counts.Keys;
        views := StepMore(cmds[i], views, cmds[..i]);
        OthersChain(contents0, owned0, contents, owned, tree.contents, counts.Keys);
        assert cmds[..i + 1] == cmds[..i] + [cmds[i]];
      }
      assert cmds[..|cmds|] == cmds;
    }
  }

  /** In every state of the object the layout in use and the remembered ones are
      among those listed. */
  lemma ViewIsWhole<C>(m: SpaceLayoutMapping<C>)
    requires m.Valid()
    ensures m.View().Whole()
  {
  }
}
