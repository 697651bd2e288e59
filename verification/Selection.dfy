/** The item-limit half of compact mode: the newest item of each source is reserved in a map by
    id, the map is filled by newest evidence, and an overfull map is cut to its newest items. */
module Selection {
  import opened Sorting
  import opened Evidence
  import opened DropOrder

  /** Every entry is stored under its own id. */
  ghost predicate KeyedById(selected: map<string, Item>) {
    forall id :: id in selected ==> selected[id].id == id
  }

  /** Every entry is one of the items. */
  ghost predicate ComesFrom(selected: map<string, Item>, items: seq<Item>) {
    forall id :: id in selected ==> selected[id] in items
  }

  lemma {:induction false} IdsAtMost(items: seq<Item>)
    ensures |set i | 0 <= i < |items| :: items[i].id| <= |items|
  {
    if |items| > 0 {
      var n := |items| - 1;
      var front := items[..n];
      IdsAtMost(front);
      var a, b := set i | 0 <= i < n :: front[i].id, set i | 0 <= i < |items| :: items[i].id;
      assert b == a + {items[n].id} by {
        forall i | 0 <= i < n
          ensures items[i].id in a
        {
          assert items[i].id == front[i].id;
        }
      }
    }
  }

  lemma ComesFromMore(selected: map<string, Item>, items: seq<Item>, x: Item)
    requires KeyedById(selected) && ComesFrom(selected, items) && x in items
    ensures KeyedById(selected[x.id := x]) && ComesFrom(selected[x.id := x], items)
    ensures x.id !in selected ==> |selected[x.id := x]| == |selected| + 1
  {
  }

  /** A map by id of some of the items has no more entries than there are items. */
  lemma ComesFromSize(selected: map<string, Item>, items: seq<Item>)
    requires KeyedById(selected) && ComesFrom(selected, items)
    ensures |selected| <= |items|
  {
    var ids := set i | 0 <= i < |items| :: items[i].id;
    forall id | id in selected.Keys
      ensures id in ids
    {
      var i :| 0 <= i < |items| && items[i] == selected[id];
    }
    IdsAtMost(items);
    SubsetSize(selected.Keys, ids);
    assert |selected| == |selected.Keys|;
  }

  lemma SubsetSize(a: set<string>, b: set<string>)
    requires a <= b
    ensures |a| <= |b|
  {
    assert b == a + (b - a);
  }

  /** The map holds exactly the items of q. */
  ghost predicate Holds(selected: map<string, Item>, q: seq<Item>) {
    && (forall x :: x in q ==> x.id in selected && selected[x.id] == x)
    && (forall id :: id in selected ==> selected[id] in q)
  }

  lemma UniqueIdsDistinct(q: seq<Item>)
    requires UniqueIds(q)
    ensures Distinct(q)
  {
  }

  lemma UniqueIdsPermutation(q: seq<Item>, r: seq<Item>)
    requires UniqueIds(q) && multiset(q) == multiset(r)
    ensures UniqueIds(r)
    ensures forall x :: x in q <==> x in r
  {
    UniqueIdsDistinct(q);
    DistinctPermutation(q, r);
    forall i, j | 0 <= i < j < |r|
      ensures r[i].id != r[j].id
    {
      assert r[i] in q && r[j] in q && r[i] != r[j];
    }
  }

  /** A map has one ordered enumeration. */
  lemma HoldsUnique(selected: map<string, Item>, q: seq<Item>, r: seq<Item>)
    requires KeyedById(selected) && Holds(selected, q) && Holds(selected, r)
    requires UniqueIds(q) && UniqueIds(r)
    ensures multiset(q) == multiset(r) && |q| == |r|
    ensures Ordered(ItemLess, q) && Ordered(ItemLess, r) ==> q == r
  {
    UniqueIdsDistinct(q);
    UniqueIdsDistinct(r);
    DistinctSameElements(q, r);
    if Ordered(ItemLess, q) && Ordered(ItemLess, r) {
      ItemLessOrder();
      UniqueIdsSeparate(q);
      OrderedPermutation(ItemLess, q, r);
    }
  }

  /** The map's values in order, whatever order the map is walked in. */
  method SelectedItems(selected: map<string, Item>) returns (items: seq<Item>)
    requires KeyedById(selected)
    ensures Holds(selected, items) && UniqueIds(items) && |items| == |selected|
    ensures Ordered(ItemLess, items)
  {
    var walked: seq<Item> := [];
    var left := selected.Keys;
    while left != {}
      invariant left <= selected.Keys
      invariant UniqueIds(walked)
      invariant forall x :: x in walked ==> x.id in selected && x.id !in left && selected[x.id] == x
      invariant forall id :: id in selected && id !in left ==> selected[id] in walked
      invariant |walked| + |left| == |selected|
      decreases left
    {
      var id :| id in left;
      left := left - {id};
      walked := walked + [selected[id]];
    }
    items := SortedCopy(walked, ItemLess);
    SortMultiset(ItemLess, walked);
    ItemLessOrder();
    SortOrdered(ItemLess, walked);
    UniqueIdsPermutation(walked, items);
  }

  lemma HoldsSize(selected: map<string, Item>, q: seq<Item>)
    requires KeyedById(selected) && Holds(selected, q) && UniqueIds(q)
    ensures |selected| == |q|
  {
    var ids := set i | 0 <= i < |q| :: q[i].id;
    assert ids == selected.Keys by {
      forall id | id in selected
        ensures id in ids
      {
        var i :| 0 <= i < |q| && q[i] == selected[id];
      }
    }
    IdCount(q);
  }

  lemma {:induction false} IdCount(q: seq<Item>)
    requires UniqueIds(q)
    ensures |set i | 0 <= i < |q| :: q[i].id| == |q|
  {
    if |q| > 0 {
      var n := |q| - 1;
      var front := q[..n];
      IdCount(front);
      var a, b := set i | 0 <= i < n :: front[i].id, set i | 0 <= i < |q| :: q[i].id;
      assert b == a + {q[n].id} by {
        forall i | 0 <= i < n
          ensures q[i].id in a
        {
          assert q[i].id == front[i].id;
        }
      }
    }
  }

  method MapById(items: seq<Item>) returns (out: map<string, Item>)
    requires UniqueIds(items)
    ensures KeyedById(out) && Holds(out, items)
  {
    out := map[];
    for i := 0 to |items|
      invariant KeyedById(out)
      invariant Holds(out, items[..i])
    {
      out := out[items[i].id := items[i]];
    }
    assert items[..|items|] == items;
  }

  /** Only the newest max entries of the map, or all of them when they are no more. */
  method TrimToNewest(selected: map<string, Item>, max: nat) returns (out: map<string, Item>)
    requires KeyedById(selected)
    ensures KeyedById(out) && forall id :: id in out ==> id in selected && out[id] == selected[id]
    ensures forall q :: Holds(selected, q) && UniqueIds(q) && Ordered(ItemLess, q) ==> Holds(out, LastK(q, max))
  {
    var items := SelectedItems(selected);
    forall q | Holds(selected, q) && UniqueIds(q) && Ordered(ItemLess, q)
      ensures q == items
    {
      HoldsUnique(selected, items, q);
    }
    var newest := if |items| > max then items[|items| - max..] else items;
    out := MapById(newest);
    forall id | id in out
      ensures id in selected && out[id] == selected[id]
    {
      assert out[id] in newest;
      assert out[id] in items;
    }
  }

  /** There is a group of this source if it occurs, and it ends with the newest of them. */
  ghost predicate GroupOf(groups: map<string, seq<Item>>, s: seq<Item>, kind: string) {
    && (kind in groups <==> Mentions(s, kind))
    && (kind in groups ==> |groups[kind]| > 0 && groups[kind][|groups[kind]| - 1] == LatestOf(s, kind))
  }

  ghost predicate GroupsOf(groups: map<string, seq<Item>>, s: seq<Item>) {
    forall kind :: GroupOf(groups, s, kind)
  }

  lemma GroupsOfAppend(groups: map<string, seq<Item>>, s: seq<Item>, x: Item, group: seq<Item>)
    requires GroupsOf(groups, s) && |group| > 0 && group[|group| - 1] == x
    ensures GroupsOf(groups[x.source := group], s + [x])
  {
    var groups', s' := groups[x.source := group], s + [x];
    forall kind
      ensures GroupOf(groups', s', kind)
    {
      assert GroupOf(groups, s, kind);
      LatestAppend(s, x, kind);
    }
  }

  /** The items of each source, in order. */
  method GroupBySource(items: seq<Item>) returns (groups: map<string, seq<Item>>)
    ensures GroupsOf(groups, items)
  {
    groups := map[];
    for n := 0 to |items|
      invariant GroupsOf(groups, items[..n])
    {
      var x := items[n];
      var group := (if x.source in groups then groups[x.source] else []) + [x];
      GroupsOfAppend(groups, items[..n], x, group);
      assert items[..n + 1] == items[..n] + [x];
      groups := groups[x.source := group];
    }
    assert items[..|items|] == items;
  }

  lemma {:induction false} LatestAppend(s: seq<Item>, x: Item, kind: string)
    ensures Mentions(s + [x], kind) <==> Mentions(s, kind) || kind == x.source
    ensures Mentions(s + [x], kind) ==>
              LatestOf(s + [x], kind) == if kind == x.source then x else LatestOf(s, kind)
  {
    MentionsTail(s + [x], kind);
    if |s| > 0 {
      assert (s + [x])[1..] == s[1..] + [x];
      LatestAppend(s[1..], x, kind);
      MentionsTail(s, kind);
    }
  }

  /** The protected items are the newest items of the sources that occur. */
  lemma {:induction false} ProtectedMeaning(s: seq<Item>, x: Item)
    ensures x in Protected(s) <==> Mentions(s, x.source) && x == LatestOf(s, x.source)
  {
    if |s| > 0 {
      MentionsTail(s, x.source);
      MentionsTail(s, s[0].source);
      ProtectedMeaning(s[1..], x);
    }
  }

  /** The keys of a map in ascending order, whatever order the map is walked in. */
  method SortedKeys(groups: map<string, seq<Item>>) returns (kinds: seq<string>)
    ensures forall kind :: kind in kinds <==> kind in groups
  {
    var walked: seq<string> := [];
    var left := groups.Keys;
    while left != {}
      invariant forall kind :: kind in groups <==> kind in walked || kind in left
      decreases left
    {
      var kind :| kind in left;
      left := left - {kind};
      walked := walked + [kind];
    }
    kinds := SortedCopy(walked, TextLess);
    SortMultiset(TextLess, walked);
    forall kind
      ensures kind in kinds <==> kind in groups
    {
      assert kind in kinds <==> kind in multiset(kinds);
      assert kind in walked <==> kind in multiset(walked);
    }
  }

  /** The map holds nothing but picks, and each of them unless two share an id. */
  ghost predicate HoldsPicks(selected: map<string, Item>, picks: seq<Item>, unique: bool) {
    && KeyedById(selected)
    && (forall id :: id in selected ==> selected[id] in picks)
    && (unique ==> forall x :: x in picks ==> x.id in selected && selected[x.id] == x)
  }

  lemma HoldsPicksStep(selected: map<string, Item>, picks: seq<Item>, x: Item, unique: bool)
    requires HoldsPicks(selected, picks, unique)
    requires unique ==> forall y :: y in picks && y.id == x.id ==> y == x
    ensures HoldsPicks(selected[x.id := x], picks + [x], unique)
  {
  }

  /** The picks so far: the newest item of each of the first n kinds. */
  ghost predicate ArePicks(items: seq<Item>, kinds: seq<string>, picks: seq<Item>, n: nat)
    requires n <= |kinds|
  {
    && |picks| == n
    && (forall i :: 0 <= i < n ==> Mentions(items, kinds[i]) && picks[i] == LatestOf(items, kinds[i]))
    && (forall x :: x in picks ==> x in items)
  }

  lemma ArePicksStep(items: seq<Item>, kinds: seq<string>, picks: seq<Item>, n: nat)
    requires n < |kinds| && ArePicks(items, kinds, picks, n) && Mentions(items, kinds[n])
    ensures ArePicks(items, kinds, picks + [LatestOf(items, kinds[n])], n + 1)
  {
  }

  /** The newest item of each group goes into the map, in the order of the kind names. */
  method ReserveNewest(items: seq<Item>, groups: map<string, seq<Item>>, kinds: seq<string>)
      returns (selected: map<string, Item>, ghost picks: seq<Item>)
    requires forall i :: 0 <= i < |kinds| ==> kinds[i] in groups && GroupOf(groups, items, kinds[i])
    ensures ArePicks(items, kinds, picks, |kinds|) && HoldsPicks(selected, picks, UniqueIds(items))
  {
    picks, selected := [], map[];
    for n := 0 to |kinds|
      invariant ArePicks(items, kinds, picks, n)
      invariant HoldsPicks(selected, picks, UniqueIds(items))
    {
      assert GroupOf(groups, items, kinds[n]);
      var group := groups[kinds[n]];
      var newest := group[|group| - 1];
      if UniqueIds(items) {
        SameIdSameItem(items, newest);
      }
      ArePicksStep(items, kinds, picks, n);
      HoldsPicksStep(selected, picks, newest, UniqueIds(items));
      selected := selected[newest.id := newest];
      picks := picks + [newest];
    }
  }

  /** Reserves one newest item for each contributing source. */
  method Reserve(items: seq<Item>) returns (selected: map<string, Item>)
    ensures KeyedById(selected) && ComesFrom(selected, items)
    ensures UniqueIds(items) ==> Holds(selected, Protected(items))
  {
    var groups := GroupBySource(items);
    var kinds := SortedKeys(groups);
    forall kind
      ensures kind in kinds <==> Mentions(items, kind)
    {
      assert GroupOf(groups, items, kind);
    }
    ghost var picks;
    selected, picks := ReserveNewest(items, groups, kinds);
    PicksAreProtected(items, kinds, picks);
  }

  lemma PicksAreProtected(items: seq<Item>, kinds: seq<string>, picks: seq<Item>)
    requires forall kind :: kind in kinds <==> Mentions(items, kind)
    requires ArePicks(items, kinds, picks, |kinds|)
    ensures forall x :: x in picks <==> x in Protected(items)
  {
    forall x
      ensures x in picks <==> x in Protected(items)
    {
      ProtectedMeaning(items, x);
      if x in Protected(items) {
        var i :| 0 <= i < |kinds| && kinds[i] == x.source;
        assert picks[i] == x;
      }
    }
  }

  lemma SameIdSameItem(items: seq<Item>, x: Item)
    requires UniqueIds(items) && x in items
    ensures forall y :: y in items && y.id == x.id ==> y == x
  {
  }

  lemma FillMembers(items: seq<Item>, c: nat)
    requires c <= |items| && UniqueIds(items)
    ensures forall y :: y in Fill(items, c) ==> y in items
  {
    FillIsStrip(items, c);
    StripMembers(items, |items| - |Fill(items, c)|);
  }

  /** A filled map grows by the item below the fill line, unless that one is reserved. */
  lemma HoldsFillStep(selected: map<string, Item>, items: seq<Item>, c: nat)
    requires 0 < c <= |items| && UniqueIds(items)
    requires KeyedById(selected) && Holds(selected, Fill(items, c))
    ensures Holds(selected[items[c - 1].id := items[c - 1]], Fill(items, c - 1))
    ensures items[c - 1].id in selected ==> selected[items[c - 1].id] == items[c - 1]
  {
    var x, before, after := items[c - 1], Fill(items, c), Fill(items, c - 1);
    forall y
      ensures y in after <==> y in before || y == x
    {
      FillStep(items, c, y);
    }
    FillMembers(items, c);
    SameIdSameItem(items, x);
    HoldsAdd(selected, before, after, x);
  }

  lemma HoldsAdd(selected: map<string, Item>, before: seq<Item>, after: seq<Item>, x: Item)
    requires KeyedById(selected) && Holds(selected, before)
    requires forall y :: y in after <==> y in before || y == x
    requires forall y :: y in before && y.id == x.id ==> y == x
    ensures Holds(selected[x.id := x], after)
  {
  }

  /** Fills the item limit by newest evidence; c is how far down the fill went. */
  method FillByNewest(items: seq<Item>, reserved: map<string, Item>, max: nat)
      returns (selected: map<string, Item>, ghost c: nat)
    requires KeyedById(reserved) && ComesFrom(reserved, items)
    requires UniqueIds(items) ==> Holds(reserved, Protected(items))
    ensures KeyedById(selected) && ComesFrom(selected, items) && c <= |items|
    ensures c == 0 || |selected| >= max
    ensures |selected| <= |reserved| || |selected| <= max
    ensures UniqueIds(items) ==> Holds(selected, Fill(items, c))
  {
    selected, c := reserved, |items|;
    FillEnds(items);
    var index := |items| - 1;
    while index >= 0 && |selected| < max
      invariant -1 <= index < |items| && c == index + 1
      invariant KeyedById(selected) && ComesFrom(selected, items)
      invariant |selected| <= |reserved| || |selected| <= max
      invariant UniqueIds(items) ==> Holds(selected, Fill(items, c))
    {
      if UniqueIds(items) {
        HoldsFillStep(selected, items, c);
      }
      ComesFromMore(selected, items, items[index]);
      if items[index].id in selected {
        assert UniqueIds(items) ==> selected == selected[items[index].id := items[index]];
      } else {
        selected := selected[items[index].id := items[index]];
      }
      index, c := index - 1, c - 1;
    }
  }

  /** The number of items the item limit leaves out. */
  function OverLimit(n: nat, max: nat): nat {
    if n <= max then 0 else n - max
  }

  /** The selected items in order; there are no more of them than items to select from. */
  method TakeSelected(selected: map<string, Item>, ghost items: seq<Item>) returns (kept: seq<Item>)
    requires KeyedById(selected) && ComesFrom(selected, items)
    ensures Ordered(ItemLess, kept) && UniqueIds(kept) && Holds(selected, kept)
    ensures |kept| <= |items| && forall x :: x in kept ==> x in items
  {
    kept := SelectedItems(selected);
    ComesFromSize(selected, items);
    forall x | x in kept
      ensures x in items
    {
      assert selected[x.id] == x;
    }
  }

  lemma KeptIsRemaining(items: seq<Item>, selected: map<string, Item>, kept: seq<Item>, c: nat, max: nat)
    requires Ordered(ItemLess, items) && UniqueIds(items) && c <= |items|
    requires LastK(Fill(items, c), max) == Remaining(items, OverLimit(|items|, max)) && UniqueIds(Fill(items, c))
    requires KeyedById(selected) && Holds(selected, LastK(Fill(items, c), max))
    requires Holds(selected, kept) && UniqueIds(kept) && Ordered(ItemLess, kept)
    ensures kept == Remaining(items, OverLimit(|items|, max))
  {
    RemainingOrdered(items, OverLimit(|items|, max));
    LastKUnique(Fill(items, c), max);
    HoldsUnique(selected, kept, LastK(Fill(items, c), max));
  }

  lemma LastKUnique(q: seq<Item>, k: nat)
    requires UniqueIds(q)
    ensures UniqueIds(LastK(q, k))
  {
  }

  /** The whole selection. Reserving, filling and cutting are three steps of the code, and
      together they drop the first |items| - max items of the drop sequence. */
  method SelectByCount(items: seq<Item>, max: nat) returns (kept: seq<Item>)
    requires Ordered(ItemLess, items)
    ensures Ordered(ItemLess, kept) && UniqueIds(kept)
    ensures |kept| <= |items| && forall x :: x in kept ==> x in items
    ensures UniqueIds(items) ==> kept == Remaining(items, OverLimit(|items|, max))
  {
    var reserved := Reserve(items);
    var selected, c := FillByNewest(items, reserved, max);
    if UniqueIds(items) {
      FillIsSelection(items, reserved, selected, c, max);
    }
    if |selected| > max {
      selected := TrimToNewest(selected, max);
    }
    kept := TakeSelected(selected, items);
    if UniqueIds(items) {
      KeptIsRemaining(items, selected, kept, c, max);
    }
  }

  /** A fill is in order, and without repeated ids. */
  lemma FillShape(items: seq<Item>, c: nat)
    requires Ordered(ItemLess, items) && UniqueIds(items) && c <= |items|
    ensures UniqueIds(Fill(items, c)) && Ordered(ItemLess, Fill(items, c))
  {
    FillIsStrip(items, c);
    StripUniqueIds(items, |items| - |Fill(items, c)|);
    StripOrdered(items, |items| - |Fill(items, c)|);
  }

  lemma SelectedSizes(items: seq<Item>, reserved: map<string, Item>, selected: map<string, Item>, c: nat)
    requires Ordered(ItemLess, items) && UniqueIds(items) && c <= |items|
    requires KeyedById(reserved) && Holds(reserved, Protected(items))
    requires KeyedById(selected) && Holds(selected, Fill(items, c))
    ensures |reserved| == |Protected(items)| && |selected| == |Fill(items, c)|
  {
    FillEnds(items);
    FillShape(items, |items|);
    HoldsSize(reserved, Protected(items));
    FillShape(items, c);
    HoldsSize(selected, Fill(items, c));
  }

  lemma FillIsSelection(
      items: seq<Item>, reserved: map<string, Item>, selected: map<string, Item>, c: nat, max: nat)
    requires Ordered(ItemLess, items) && UniqueIds(items) && c <= |items|
    requires KeyedById(reserved) && Holds(reserved, Protected(items))
    requires KeyedById(selected) && Holds(selected, Fill(items, c))
    requires c == 0 || |selected| >= max
    requires |selected| <= |reserved| || |selected| <= max
    ensures |selected| == |Fill(items, c)|
    ensures UniqueIds(Fill(items, c)) && Ordered(ItemLess, Fill(items, c))
    ensures LastK(Fill(items, c), max) == Remaining(items, OverLimit(|items|, max))
  {
    SelectedSizes(items, reserved, selected, c);
    FillShape(items, c);
    FillSelects(items, c, max);
  }
}
