/** Evidence items, their documented order, and the newest-k selection that the timeline,
    Loki, ntfy and compact mode share. A string stands for Go's byte string. */
module Evidence {
  import opened Sorting

  datatype Freshness = Live | Recent | Stale | Unknown | Cached | Missing

  /** content stands for the fields that no modelled operation reads. */
  datatype Item = Item(
    id: string,
    source: string,
    sourceId: string,
    observedAt: int,
    order: int,
    freshness: Freshness,
    content: string)

  /** Go's < on strings: byte by byte, a proper prefix first. */
  predicate TextLess(a: string, b: string) {
    |b| > 0 && (|a| == 0 || a[0] < b[0] || (a[0] == b[0] && TextLess(a[1..], b[1..])))
  }

  /** Time, then source, then source identity, then stable position, and id last. */
  predicate ItemLess(a: Item, b: Item) {
    if a.observedAt != b.observedAt then a.observedAt < b.observedAt
    else if a.source != b.source then TextLess(a.source, b.source)
    else if a.sourceId != b.sourceId then TextLess(a.sourceId, b.sourceId)
    else if a.order != b.order then a.order < b.order
    else TextLess(a.id, b.id)
  }

  /** Byte order by the first place in which the texts differ: one of them ends there, or has the
      smaller byte. */
  ghost predicate DifferAt(a: string, b: string, i: nat) {
    && i <= |a| && i < |b| && a[..i] == b[..i]
    && (i == |a| || a[i] < b[i])
  }

  lemma {:induction false} TextLessMeaning(a: string, b: string)
    ensures TextLess(a, b) <==> exists i: nat :: DifferAt(a, b, i)
  {
    if |b| > 0 && |a| > 0 && a[0] == b[0] {
      TextLessMeaning(a[1..], b[1..]);
      if i: nat :| DifferAt(a[1..], b[1..], i) {
        assert a[..i + 1] == [a[0]] + a[1..][..i] && b[..i + 1] == [b[0]] + b[1..][..i];
        assert DifferAt(a, b, i + 1);
      }
      if i: nat :| DifferAt(a, b, i) {
        assert i > 0;
        assert a[1..][..i - 1] == a[..i][1..] && b[1..][..i - 1] == b[..i][1..];
        assert DifferAt(a[1..], b[1..], i - 1);
      }
    } else if |b| > 0 && (|a| == 0 || a[0] < b[0]) {
      assert DifferAt(a, b, 0);
    }
  }

  /** The rank and the direction of every key: the older item comes first, then the smaller
      source, source identity and position, and the smaller id last. */
  lemma ItemLessKeys(a: Item, b: Item)
    ensures a.observedAt < b.observedAt ==> ItemLess(a, b)
    ensures a.observedAt == b.observedAt && TextLess(a.source, b.source) ==> ItemLess(a, b)
    ensures (a.observedAt, a.source) == (b.observedAt, b.source) && TextLess(a.sourceId, b.sourceId) ==> ItemLess(a, b)
    ensures (a.observedAt, a.source, a.sourceId) == (b.observedAt, b.source, b.sourceId) ==>
              (a.order < b.order ==> ItemLess(a, b))
    ensures (a.observedAt, a.source, a.sourceId, a.order) == (b.observedAt, b.source, b.sourceId, b.order) ==>
              (TextLess(a.id, b.id) ==> ItemLess(a, b))
    ensures ItemLess(a, b) ==> a.observedAt <= b.observedAt
    ensures ItemLess(a, b) ==> !ItemLess(b, a)
  {
    TextLessIrreflexive(a.source);
    TextLessIrreflexive(a.sourceId);
    if ItemLess(a, b) && ItemLess(b, a) {
      ItemLessAsymmetric(a, b);
    }
  }

  lemma ItemLessAsymmetric(a: Item, b: Item)
    ensures !(ItemLess(a, b) && ItemLess(b, a))
  {
    TextLessOrder();
    assert !TextLess(a.id, a.id) && !TextLess(a.source, a.source) && !TextLess(a.sourceId, a.sourceId);
  }

  ghost predicate UniqueIds(s: seq<Item>) {
    forall i, j :: 0 <= i < j < |s| ==> s[i].id != s[j].id
  }

  lemma {:induction false} TextLessTransitive(a: string, b: string, c: string)
    requires TextLess(a, b) && TextLess(b, c)
    ensures TextLess(a, c)
  {
    if |a| > 0 && a[0] == b[0] == c[0] {
      TextLessTransitive(a[1..], b[1..], c[1..]);
    }
  }

  lemma {:induction false} TextLessIrreflexive(a: string)
    ensures !TextLess(a, a)
  {
    if |a| > 0 {
      TextLessIrreflexive(a[1..]);
    }
  }

  lemma {:induction false} TextLessTotal(a: string, b: string)
    ensures TextLess(a, b) || TextLess(b, a) || a == b
  {
    if |a| > 0 && |b| > 0 && a[0] == b[0] {
      TextLessTotal(a[1..], b[1..]);
      assert a == [a[0]] + a[1..] && b == [b[0]] + b[1..];
    }
  }

  lemma TextLessOrder()
    ensures StrictWeakOrder(TextLess)
    ensures forall a: string, b: string :: TextLess(a, b) || TextLess(b, a) || a == b
  {
    forall a: string, b: string
      ensures !TextLess(a, a)
      ensures TextLess(a, b) || TextLess(b, a) || a == b
    {
      TextLessIrreflexive(a);
      TextLessTotal(a, b);
    }
    forall a: string, b: string, c: string | TextLess(a, b) && TextLess(b, c)
      ensures TextLess(a, c)
    {
      TextLessTransitive(a, b, c);
    }
  }

  lemma ItemLessTransitive(a: Item, b: Item, c: Item)
    requires ItemLess(a, b) && ItemLess(b, c)
    ensures ItemLess(a, c)
  {
    TextLessOrder();
  }

  /** Items that tie agree on every key, the id included. */
  lemma ItemLessTies(a: Item, b: Item)
    ensures ItemLess(a, b) || ItemLess(b, a) ||
            (a.id == b.id && forall c :: ItemLess(a, c) == ItemLess(b, c) && ItemLess(c, a) == ItemLess(c, b))
  {
    TextLessTotal(a.source, b.source);
    TextLessTotal(a.sourceId, b.sourceId);
    TextLessTotal(a.id, b.id);
  }

  /** The documented order is a strict weak order, and only items with the same id can tie. */
  lemma ItemLessOrder()
    ensures StrictWeakOrder(ItemLess)
    ensures forall a: Item, b: Item :: ItemLess(a, b) || ItemLess(b, a) || a.id == b.id
  {
    forall a: Item, b: Item
      ensures !ItemLess(a, a)
      ensures ItemLess(a, b) || ItemLess(b, a) || a.id == b.id
    {
      TextLessIrreflexive(a.id);
      ItemLessTies(a, b);
    }
    forall a: Item, b: Item, c: Item | ItemLess(a, b)
      ensures ItemLess(b, c) ==> ItemLess(a, c)
      ensures ItemLess(a, c) || ItemLess(c, b)
    {
      if ItemLess(b, c) {
        ItemLessTransitive(a, b, c);
      }
      ItemLessTies(a, c);
      if ItemLess(c, a) {
        ItemLessTransitive(c, a, b);
      }
    }
  }

  /** An opaque id never decides between items that differ in time, source or position. */
  lemma IdNeverDecides(a: Item, b: Item, idA: string, idB: string)
    requires Keys(a) != Keys(b)
    ensures ItemLess(a, b) == ItemLess(a.(id := idA), b.(id := idB))
  {
  }

  lemma UniqueIdsSeparate(s: seq<Item>)
    requires UniqueIds(s)
    ensures Separates(ItemLess, s)
  {
    ItemLessOrder();
    forall a, b | a in s && b in s && a.id == b.id
      ensures a == b
    {
      var i :| 0 <= i < |s| && s[i] == a;
      var j :| 0 <= j < |s| && s[j] == b;
    }
  }

  function SortItems(items: seq<Item>): seq<Item> {
    Sort(ItemLess, items)
  }

  /** The newest max items in order, oldest first; a max of zero or less keeps all. */
  function KeepNewest(items: seq<Item>, max: int): (r: seq<Item>)
    ensures |r| == if max <= 0 || |items| <= max then |items| else max
  {
    if max <= 0 || |items| <= max then SortItems(items) else SortItems(items)[|items| - max..]
  }

  /** The slice operation itself: it sorts in place and keeps the tail from index lo on. */
  method KeepNewestInPlace(items: array<Item>, max: int) returns (lo: nat, truncated: bool)
    modifies items
    ensures items[..] == SortItems(old(items[..]))
    ensures lo <= items.Length && items[lo..] == KeepNewest(old(items[..]), max)
    ensures truncated <==> 0 < max < items.Length
  {
    StableSort(items, ItemLess);
    if max <= 0 || items.Length <= max {
      lo, truncated := 0, false;
    } else {
      lo, truncated := items.Length - max, true;
    }
  }

  /** What KeepNewest selects: a sorted part of the input that nothing left out sorts after. */
  lemma KeepNewestMeaning(items: seq<Item>, max: int)
    ensures var kept := KeepNewest(items, max);
            exists dropped ::
              && multiset(items) == multiset(dropped) + multiset(kept)
              && Ordered(ItemLess, dropped + kept)
  {
    var sorted, kept := SortItems(items), KeepNewest(items, max);
    var dropped := sorted[..|sorted| - |kept|];
    assert sorted == dropped + kept;
    SortMultiset(ItemLess, items);
    ItemLessOrder();
    SortOrdered(ItemLess, items);
  }

  /** In terms of time alone: what is kept stands oldest first, and nothing that was left out is
      later than anything that was kept. */
  lemma KeepNewestByTime(items: seq<Item>, max: int)
    ensures var kept := KeepNewest(items, max);
            && (forall i, j :: 0 <= i < j < |kept| ==> kept[i].observedAt <= kept[j].observedAt)
            && exists dropped: seq<Item> ::
                 && multiset(items) == multiset(dropped) + multiset(kept)
                 && forall x, y :: x in dropped && y in kept ==> x.observedAt <= y.observedAt
  {
    KeepNewestMeaning(items, max);
    var kept := KeepNewest(items, max);
    var dropped :| multiset(items) == multiset(dropped) + multiset(kept) && Ordered(ItemLess, dropped + kept);
    OrderedByTime(dropped + kept);
    forall x, y | x in dropped && y in kept
      ensures x.observedAt <= y.observedAt
    {
      var i :| 0 <= i < |dropped| && dropped[i] == x;
      var j :| 0 <= j < |kept| && kept[j] == y;
      assert (dropped + kept)[i] == x && (dropped + kept)[|dropped| + j] == y;
    }
    forall i, j | 0 <= i < j < |kept|
      ensures kept[i].observedAt <= kept[j].observedAt
    {
      assert (dropped + kept)[|dropped| + i] == kept[i] && (dropped + kept)[|dropped| + j] == kept[j];
    }
  }

  lemma OrderedByTime(s: seq<Item>)
    requires Ordered(ItemLess, s)
    ensures forall i, j :: 0 <= i < j < |s| ==> s[i].observedAt <= s[j].observedAt
  {
    forall i, j | 0 <= i < j < |s|
      ensures s[i].observedAt <= s[j].observedAt
    {
      ItemLessKeys(s[j], s[i]);
    }
  }

  lemma SameItemsSameSort(items: seq<Item>, other: seq<Item>)
    requires UniqueIds(items) && multiset(items) == multiset(other)
    ensures SortItems(items) == SortItems(other)
  {
    ItemLessOrder();
    UniqueIdsSeparate(items);
    SortPermutation(ItemLess, items, other);
  }

  lemma SameSortSameNewest(items: seq<Item>, other: seq<Item>, max: int)
    requires SortItems(items) == SortItems(other)
    ensures KeepNewest(items, max) == KeepNewest(other, max)
  {
    assert |SortItems(items)| == |items| && |SortItems(other)| == |other|;
  }

  /** With unique ids the selection depends only on which items arrive, not on their order. */
  lemma KeepNewestArrivalOrder(items: seq<Item>, other: seq<Item>, max: int)
    requires UniqueIds(items) && multiset(items) == multiset(other)
    ensures KeepNewest(items, max) == KeepNewest(other, max)
  {
    SameItemsSameSort(items, other);
    SameSortSameNewest(items, other, max);
  }

  /** The keys that decide before the id does. */
  function Keys(x: Item): (int, string, string, int) {
    (x.observedAt, x.source, x.sourceId, x.order)
  }

  /** The item under another id. */
  function Renamed(x: Item, ids: Item -> string): Item {
    x.(id := ids(x))
  }

  function Relabelled(s: seq<Item>, ids: Item -> string): (r: seq<Item>)
    ensures |r| == |s|
  {
    seq(|s|, i requires 0 <= i < |s| => Renamed(s[i], ids))
  }

  lemma {:induction false} RelabelInsert(s: seq<Item>, x: Item, ids: Item -> string)
    requires forall i :: 0 <= i < |s| ==> Keys(s[i]) != Keys(x)
    ensures Insert(ItemLess, Relabelled(s, ids), Renamed(x, ids)) == Relabelled(Insert(ItemLess, s, x), ids)
  {
    var r := Relabelled(s, ids);
    if |s| > 0 {
      var n := |s| - 1;
      IdNeverDecides(x, s[n], ids(x), ids(s[n]));
      assert r[..n] == Relabelled(s[..n], ids);
      if ItemLess(x, s[n]) {
        RelabelInsert(s[..n], x, ids);
      }
    }
  }

  lemma KeysStayApart(s: seq<Item>, x: Item)
    requires forall i :: 0 <= i < |s| ==> Keys(s[i]) != Keys(x)
    ensures forall i :: 0 <= i < |s| ==> Keys(SortItems(s)[i]) != Keys(x)
  {
    SortMultiset(ItemLess, s);
    forall i | 0 <= i < |s|
      ensures Keys(SortItems(s)[i]) != Keys(x)
    {
      assert SortItems(s)[i] in multiset(s);
    }
  }

  /** Opaque ids never decide: whatever the ids are, items of which no two share all other keys are
      put in the same order. */
  lemma {:induction false} RelabelSort(s: seq<Item>, ids: Item -> string)
    requires forall i, j :: 0 <= i < j < |s| ==> Keys(s[i]) != Keys(s[j])
    ensures SortItems(Relabelled(s, ids)) == Relabelled(SortItems(s), ids)
  {
    if |s| > 0 {
      var n := |s| - 1;
      RelabelSort(s[..n], ids);
      assert Relabelled(s, ids)[..n] == Relabelled(s[..n], ids);
      KeysStayApart(s[..n], s[n]);
      RelabelInsert(SortItems(s[..n]), s[n], ids);
    }
  }

  /** So the same evidence is kept under any ids. */
  lemma RelabelKeepNewest(s: seq<Item>, ids: Item -> string, max: int)
    requires forall i, j :: 0 <= i < j < |s| ==> Keys(s[i]) != Keys(s[j])
    ensures KeepNewest(Relabelled(s, ids), max) == Relabelled(KeepNewest(s, max), ids)
  {
    RelabelSort(s, ids);
  }

  /** A limit of j on a part loses nothing that a limit of k on the whole would keep. */
  predicate Covers(j: int, k: int, n: nat) {
    j <= 0 || n <= j || 0 < k <= j
  }

  lemma KeepNewestLastK(items: seq<Item>, max: int)
    ensures KeepNewest(items, max) == if max <= 0 then SortItems(items) else LastK(SortItems(items), max)
  {
  }

  lemma KeepNewestOrdered(items: seq<Item>, max: int)
    ensures SortItems(KeepNewest(items, max)) == KeepNewest(items, max)
  {
    ItemLessOrder();
    SortOrdered(ItemLess, items);
    SortOfOrdered(ItemLess, KeepNewest(items, max));
  }

  lemma KeepNewestTwice(items: seq<Item>, j: int, k: int)
    requires Covers(j, k, |items|)
    ensures KeepNewest(KeepNewest(items, j), k) == KeepNewest(items, k)
  {
    KeepNewestOrdered(items, j);
    KeepNewestLastK(items, j);
    KeepNewestLastK(items, k);
    KeepNewestLastK(KeepNewest(items, j), k);
  }

  /** The newest k of a concatenation depend only on the newest k of each part. */
  lemma NewestOfConcat(a: seq<Item>, b: seq<Item>, a': seq<Item>, b': seq<Item>, k: int)
    requires KeepNewest(a', k) == KeepNewest(a, k)
    requires KeepNewest(b', k) == KeepNewest(b, k)
    ensures KeepNewest(a' + b', k) == KeepNewest(a + b, k)
  {
    ItemLessOrder();
    SortConcat(ItemLess, a, b);
    SortConcat(ItemLess, a', b');
    KeepNewestLastK(a, k);
    KeepNewestLastK(b, k);
    KeepNewestLastK(a', k);
    KeepNewestLastK(b', k);
    KeepNewestLastK(a + b, k);
    KeepNewestLastK(a' + b', k);
    if k > 0 {
      LastKOfMerge(ItemLess, SortItems(a), SortItems(b), k, k, k);
      LastKOfMerge(ItemLess, SortItems(a'), SortItems(b'), k, k, k);
    }
  }

  /** Items of all sources, in arrival order. */
  function Union(sources: seq<seq<Item>>): seq<Item> {
    if |sources| == 0 then [] else Union(sources[..|sources| - 1]) + sources[|sources| - 1]
  }

  /** Each source cut down to its own limit. */
  function Limited(sources: seq<seq<Item>>, limits: seq<int>): (r: seq<seq<Item>>)
    requires |limits| == |sources|
    ensures |r| == |sources|
  {
    seq(|sources|, i requires 0 <= i < |sources| => KeepNewest(sources[i], limits[i]))
  }

  /** Cutting every source to its own limit before the merge changes nothing, for any number
      of sources and without assuming unique ids, when each limit covers the final one. */
  lemma {:induction false} LimitsCompose(sources: seq<seq<Item>>, limits: seq<int>, k: int)
    requires |limits| == |sources|
    requires forall i :: 0 <= i < |sources| ==> Covers(limits[i], k, |sources[i]|)
    ensures KeepNewest(Union(Limited(sources, limits)), k) == KeepNewest(Union(sources), k)
  {
    if |sources| > 0 {
      var n := |sources| - 1;
      LimitsCompose(sources[..n], limits[..n], k);
      assert Limited(sources, limits)[..n] == Limited(sources[..n], limits[..n]);
      KeepNewestTwice(sources[n], limits[n], k);
      NewestOfConcat(Union(sources[..n]), sources[n],
                     Union(Limited(sources[..n], limits[..n])), KeepNewest(sources[n], limits[n]), k);
    }
  }

  lemma LimitIsSafe(items: seq<Item>, j: int, k: int, rest: seq<Item>)
    requires Covers(j, k, |items|)
    ensures KeepNewest(KeepNewest(items, j) + rest, k) == KeepNewest(items + rest, k)
  {
    KeepNewestTwice(items, j, k);
    NewestOfConcat(items, rest, KeepNewest(items, j), rest, k);
  }

  /** The cut is safe for every other evidence it may meet exactly when the limit covers. */
  lemma LimitIsSafeIff(items: seq<Item>, j: int, k: int)
    ensures Covers(j, k, |items|) <==>
            forall rest :: KeepNewest(KeepNewest(items, j) + rest, k) == KeepNewest(items + rest, k)
  {
    if Covers(j, k, |items|) {
      forall rest: seq<Item>
        ensures KeepNewest(KeepNewest(items, j) + rest, k) == KeepNewest(items + rest, k)
      {
        LimitIsSafe(items, j, k, rest);
      }
    } else {
      assert items + [] == items && KeepNewest(items, j) + [] == KeepNewest(items, j);
      assert |KeepNewest(KeepNewest(items, j) + [], k)| < |KeepNewest(items + [], k)|;
    }
  }
}
