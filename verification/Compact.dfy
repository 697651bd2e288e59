/** Compact incident selection: one reserved item per source, filled by newest, cut to the item
    limit, and then trimmed until the serialized result fits the byte budget. */
module Compact {
  import opened Sorting
  import opened Evidence
  import opened DropOrder
  import opened Selection

  datatype Outcome = Outcome(kind: string, itemCount: int)

  /** The list of omitted sources: a nil slice until trimming sets it. */
  datatype Names = Unset | Listed(names: seq<string>)

  /** The bundle fields that compact mode reads or writes; rest stands for the others. */
  datatype Bundle = Bundle(
    items: seq<Item>,
    sources: seq<Outcome>,
    truncated: bool,
    compact: bool,
    byteBudget: int,
    byteSize: int,
    selectionTruncated: bool,
    byteBudgetTruncated: bool,
    omittedItems: int,
    omittedSources: Names,
    rest: string)

  /** The serialized size of a bundle; nothing is assumed about it. */
  type Wire = Bundle -> int

  /** A bundle that a callee may change, as through Go's pointer. */
  class BundleRef {
    var bundle: Bundle

    constructor (b: Bundle)
      ensures bundle == b
    {
      bundle := b;
    }
  }

  // ---------------------------------------------------------------- omitted sources

  /** Some outcome of this kind reported items before the selection. */
  ghost predicate Contributed(sources: seq<Outcome>, kind: string) {
    exists i :: 0 <= i < |sources| && sources[i].kind == kind && sources[i].itemCount > 0
  }

  ghost predicate Lost(sources: seq<Outcome>, items: seq<Item>, kind: string) {
    Contributed(sources, kind) && !Mentions(items, kind)
  }

  /** The lost kinds among the first n outcomes, each at its first mention. */
  ghost function LostKinds(sources: seq<Outcome>, items: seq<Item>, n: nat): (r: seq<string>)
    requires n <= |sources|
  {
    if n == 0 then []
    else
      var r, kind := LostKinds(sources, items, n - 1), sources[n - 1].kind;
      if Lost(sources, items, kind) && kind !in r then r + [kind] else r
  }

  ghost function OmittedSources(sources: seq<Outcome>, items: seq<Item>): seq<string> {
    Sort(TextLess, LostKinds(sources, items, |sources|))
  }

  lemma {:induction false} LostKindsMeaning(sources: seq<Outcome>, items: seq<Item>, n: nat)
    requires n <= |sources|
    ensures var r := LostKinds(sources, items, n);
            && (forall kind :: kind in r <==>
                  Lost(sources, items, kind) && exists i :: 0 <= i < n && sources[i].kind == kind)
            && Distinct(r)
  {
    if n > 0 {
      LostKindsMeaning(sources, items, n - 1);
    }
  }

  lemma SortedTexts(s: seq<string>)
    requires Distinct(s)
    ensures var r := Sort(TextLess, s);
            && (forall x :: x in r <==> x in s)
            && (forall i, j :: 0 <= i < j < |r| ==> TextLess(r[i], r[j]))
  {
    var r := Sort(TextLess, s);
    TextLessOrder();
    SortOrdered(TextLess, s);
    SortMultiset(TextLess, s);
    DistinctPermutation(s, r);
  }

  /** The omitted sources are the lost kinds, ascending and without repetition. */
  lemma OmittedSourcesMeaning(sources: seq<Outcome>, items: seq<Item>)
    ensures var r := OmittedSources(sources, items);
            && (forall kind :: kind in r <==> Contributed(sources, kind) && !Mentions(items, kind))
            && (forall i, j :: 0 <= i < j < |r| ==> TextLess(r[i], r[j]))
  {
    LostKindsMeaning(sources, items, |sources|);
    SortedTexts(LostKinds(sources, items, |sources|));
  }

  // ---------------------------------------------------------------- byte trimming

  /** The bundle as it stands after n drops, before the closing bookkeeping. */
  function AfterDrops(b: Bundle, n: nat): Bundle
    requires n <= |b.items|
  {
    b.(items := Remaining(b.items, n), omittedItems := b.omittedItems + n)
  }

  /** One more drop is a drop from what the drops so far have left. */
  lemma AfterOneMore(b: Bundle, n: nat)
    requires n < |b.items|
    ensures var now := AfterDrops(b, n);
            && |now.items| == |b.items| - n
            && AfterDrops(b, n + 1) == now.(items := Remaining(now.items, 1), omittedItems := now.omittedItems + 1)
    ensures |AfterDrops(b, n + 1).items| == |b.items| - (n + 1)
  {
    RemainingTwice(b.items, n, 1);
    RemainingLength(b.items, n + 1);
  }

  /** The number of drops, counted on from n, until the bundle fits or is empty. */
  function Drops(b: Bundle, budget: int, wire: Wire, n: nat): (r: nat)
    requires n <= |b.items|
    ensures n <= r <= |b.items|
    decreases |b.items| - n
  {
    if n == |b.items| || wire(AfterDrops(b, n)) <= budget then n else Drops(b, budget, wire, n + 1)
  }

  /** The first drop count that fits, or all items when none does. */
  lemma {:induction false} DropsIsLeast(b: Bundle, budget: int, wire: Wire, n: nat)
    requires n <= |b.items|
    ensures var r := Drops(b, budget, wire, n);
            && (r == |b.items| || wire(AfterDrops(b, r)) <= budget)
            && (forall m :: n <= m < r ==> wire(AfterDrops(b, m)) > budget)
    decreases |b.items| - n
  {
    if n < |b.items| && wire(AfterDrops(b, n)) > budget {
      DropsIsLeast(b, budget, wire, n + 1);
    }
  }

  ghost function Trimmed(b: Bundle, budget: int, wire: Wire): Bundle {
    var after := AfterDrops(b, Drops(b, budget, wire, 0));
    after.(omittedSources := Listed(OmittedSources(after.sources, after.items)))
  }

  function CountOf(items: seq<Item>, kind: string): nat {
    if |items| == 0 then 0
    else CountOf(items[..|items| - 1], kind) + if items[|items| - 1].source == kind then 1 else 0
  }

  lemma {:induction false} CountMentions(items: seq<Item>, i: nat)
    requires i < |items|
    ensures CountOf(items, items[i].source) > 0
  {
    if i < |items| - 1 {
      CountMentions(items[..|items| - 1], i);
    }
  }

  lemma {:induction false} CountRepeated(items: seq<Item>, i: nat, j: nat)
    requires i < j < |items| && items[i].source == items[j].source
    ensures CountOf(items, items[i].source) > 1
  {
    if j < |items| - 1 {
      CountRepeated(items[..|items| - 1], i, j);
    } else {
      CountMentions(items[..|items| - 1], i);
    }
  }

  lemma {:induction false} CountWitness(items: seq<Item>, kind: string) returns (i: nat)
    requires CountOf(items, kind) > 0
    ensures i < |items| && items[i].source == kind
  {
    if items[|items| - 1].source == kind {
      i := |items| - 1;
    } else {
      i := CountWitness(items[..|items| - 1], kind);
    }
  }

  lemma {:induction false} CountPair(items: seq<Item>, kind: string) returns (i: nat, j: nat)
    requires CountOf(items, kind) > 1
    ensures i < j < |items| && items[i].source == items[j].source == kind
  {
    if items[|items| - 1].source == kind {
      i := CountWitness(items[..|items| - 1], kind);
      j := |items| - 1;
    } else {
      i, j := CountPair(items[..|items| - 1], kind);
    }
  }

  /** The items of each source, counted. */
  method CountSources(items: seq<Item>) returns (counts: map<string, nat>)
    ensures forall i :: 0 <= i < |items| ==>
              items[i].source in counts && counts[items[i].source] == CountOf(items, items[i].source)
  {
    counts := map[];
    for n := 0 to |items|
      invariant forall kind :: (if kind in counts then counts[kind] else 0) == CountOf(items[..n], kind)
      invariant forall i :: 0 <= i < n ==> items[i].source in counts
    {
      assert items[..n + 1][..n] == items[..n];
      var kind := items[n].source;
      counts := counts[kind := if kind in counts then counts[kind] + 1 else 1];
    }
    assert items[..|items|] == items;
  }

  /** The first item whose source count exceeds one is the first repeated one. */
  lemma CountsFindRepeated(items: seq<Item>, d: nat)
    requires d <= |items|
    requires forall i :: 0 <= i < d ==> CountOf(items, items[i].source) <= 1
    ensures d == |items| ==> NoneRepeated(items)
    ensures d < |items| && CountOf(items, items[d].source) > 1 ==> FirstRepeated(items, d)
  {
    forall i, j | 0 <= i < d && 0 <= j < |items| && i != j
      ensures items[i].source != items[j].source
    {
      if items[i].source == items[j].source {
        CountRepeated(items, if i < j then i else j, if i < j then j else i);
      }
    }
    if d < |items| && CountOf(items, items[d].source) > 1 {
      var i, j := CountPair(items, items[d].source);
      assert (i != d || j != d) && items[i].source == items[j].source == items[d].source;
    }
  }

  lemma DropIsRemaining(items: seq<Item>, drop: nat)
    requires drop < |items|
    requires FirstRepeated(items, drop) || (drop == 0 && NoneRepeated(items))
    ensures items[..drop] + items[drop + 1..] == Remaining(items, 1)
  {
    SurplusAndProtected(items);
    if FirstRepeated(items, drop) {
      DropFirstRepeated(items, drop);
    } else {
      DropNoneRepeated(items);
    }
  }

  /** The index to drop next: the first item of a repeated source, else the first item. */
  method DropIndex(items: seq<Item>) returns (drop: int)
    requires |items| > 0
    ensures 0 <= drop < |items|
    ensures items[..drop] + items[drop + 1..] == Remaining(items, 1)
  {
    var counts := CountSources(items);
    drop := -1;
    for index := 0 to |items|
      invariant drop == -1
      invariant forall i :: 0 <= i < index ==> CountOf(items, items[i].source) <= 1
    {
      if counts[items[index].source] > 1 {
        drop := index;
        CountsFindRepeated(items, drop);
        break;
      }
    }
    if drop < 0 {
      drop := 0;
      CountsFindRepeated(items, |items|);
    }
    DropIsRemaining(items, drop);
  }

  /** The kinds that contributed and have no item left, as trimToBudget collects them. */
  method CollectOmitted(sources: seq<Outcome>, items: seq<Item>) returns (omitted: seq<string>)
    ensures omitted == OmittedSources(sources, items)
  {
    var present: set<string> := {};
    for i := 0 to |items|
      invariant forall kind :: kind in present <==> exists j :: 0 <= j < i && items[j].source == kind
    {
      present := present + {items[i].source};
    }
    var found: seq<string> := [];
    var seen: set<string> := {};
    for n := 0 to |sources|
      invariant found == LostKinds(sources, items, n)
      invariant forall kind :: kind in seen <==> kind in found
    {
      var had := SourceHadItems(sources, sources[n].kind);
      if had && sources[n].kind !in present && sources[n].kind !in seen {
        found := found + [sources[n].kind];
        seen := seen + {sources[n].kind};
      }
    }
    omitted := SortedCopy(found, TextLess);
  }

  method SourceHadItems(sources: seq<Outcome>, kind: string) returns (had: bool)
    ensures had <==> exists i :: 0 <= i < |sources| && sources[i].kind == kind && sources[i].itemCount > 0
    ensures had <==> Contributed(sources, kind)
  {
    for i := 0 to |sources|
      invariant forall j :: 0 <= j < i ==> !(sources[j].kind == kind && sources[j].itemCount > 0)
    {
      if sources[i].kind == kind && sources[i].itemCount > 0 {
        return true;
      }
    }
    return false;
  }

  /** The greedy loop. It recounts the sources on every round, and still only walks along
      the one drop sequence up to the first bundle that fits. */
  method TrimToBudget(ref: BundleRef, budget: int, wire: Wire) returns (trimmed: bool)
    modifies ref
    ensures ref.bundle == Trimmed(old(ref.bundle), budget, wire)
    ensures trimmed <==> Drops(old(ref.bundle), budget, wire, 0) > 0
  {
    ghost var was, n := ref.bundle, 0;
    trimmed := false;
    while |ref.bundle.items| > 0 && wire(ref.bundle) > budget
      invariant n <= |was.items| && ref.bundle == AfterDrops(was, n)
      invariant |ref.bundle.items| == |was.items| - n
      invariant Drops(was, budget, wire, 0) == Drops(was, budget, wire, n)
      invariant trimmed <==> n > 0
      decreases |ref.bundle.items|
    {
      var items := ref.bundle.items;
      var drop := DropIndex(items);
      AfterOneMore(was, n);
      ref.bundle := ref.bundle.(items := items[..drop] + items[drop + 1..],
                                omittedItems := ref.bundle.omittedItems + 1);
      trimmed := true;
      n := n + 1;
    }
    var omitted := CollectOmitted(ref.bundle.sources, ref.bundle.items);
    ref.bundle := ref.bundle.(omittedSources := Listed(omitted));
  }

  // ---------------------------------------------------------------- the whole operation

  /** The bundle as selected by count, before the byte budget is looked at. */
  function Selected(b: Bundle, maxItems: nat, byteBudget: int): Bundle {
    var items := SortItems(b.items);
    var over := OverLimit(|items|, maxItems);
    b.(compact := true, byteBudget := byteBudget, items := Remaining(items, over),
       selectionTruncated := over > 0, omittedItems := over)
  }

  /** Trimming, and the bookkeeping that closes the bundle. */
  ghost function Finished(selected: Bundle, byteBudget: int, wire: Wire): Bundle {
    var trimmed := Drops(selected, byteBudget, wire, 0) > 0;
    var out := Trimmed(selected, byteBudget, wire).(
      truncated := selected.truncated || selected.selectionTruncated || trimmed,
      byteBudgetTruncated := selected.byteBudgetTruncated || trimmed);
    out.(byteSize := wire(out))
  }

  ghost function Compacted(b: Bundle, maxItems: nat, byteBudget: int, wire: Wire): Bundle {
    Finished(Selected(b, maxItems, byteBudget), byteBudget, wire)
  }

  /** What the closing steps set, field by field: a flag for what was lost, and the size of the
      result as it stands but for the size field itself. */
  lemma FinishedFields(selected: Bundle, byteBudget: int, wire: Wire)
    ensures var out := Finished(selected, byteBudget, wire);
            && selected.omittedItems <= out.omittedItems
            && (out.truncated <==>
                  selected.truncated || selected.selectionTruncated || selected.omittedItems < out.omittedItems)
            && (out.byteBudgetTruncated <==> selected.byteBudgetTruncated || selected.omittedItems < out.omittedItems)
            && out.selectionTruncated == selected.selectionTruncated
            && out.compact == selected.compact && out.byteBudget == selected.byteBudget
            && out.sources == selected.sources && out.rest == selected.rest
            && out.byteSize == wire(out.(byteSize := selected.byteSize))
  {
    TrimmedItems(selected, byteBudget, wire);
    var n, out := Drops(selected, byteBudget, wire, 0), Finished(selected, byteBudget, wire);
    var before := Trimmed(selected, byteBudget, wire).(
      truncated := selected.truncated || selected.selectionTruncated || n > 0,
      byteBudgetTruncated := selected.byteBudgetTruncated || n > 0);
    assert out.(byteSize := selected.byteSize) == before;
  }

  /** The listed names are the kinds for which some outcome reported items and of which no item
      is left. */
  ghost predicate ListsLost(names: Names, sources: seq<Outcome>, items: seq<Item>) {
    && names.Listed?
    && forall kind :: kind in names.names <==>
         && (exists i :: 0 <= i < |sources| && sources[i].kind == kind && sources[i].itemCount > 0)
         && (forall x :: x in items ==> x.source != kind)
  }

  lemma MentionsMember(items: seq<Item>, kind: string)
    ensures Mentions(items, kind) <==> exists x :: x in items && x.source == kind
  {
    if x :| x in items && x.source == kind {
      var i :| 0 <= i < |items| && items[i] == x;
    }
  }

  lemma FinishedListsLost(selected: Bundle, byteBudget: int, wire: Wire)
    ensures var out := Finished(selected, byteBudget, wire); ListsLost(out.omittedSources, out.sources, out.items)
  {
    var out := Finished(selected, byteBudget, wire);
    OmittedSourcesMeaning(out.sources, out.items);
    forall kind
      ensures Mentions(out.items, kind) <==> !(forall x :: x in out.items ==> x.source != kind)
    {
      MentionsMember(out.items, kind);
    }
  }

  lemma FinishedItems(selected: Bundle, byteBudget: int, wire: Wire)
    ensures var out := Finished(selected, byteBudget, wire);
            && |out.items| + out.omittedItems == |selected.items| + selected.omittedItems
            && (Ordered(ItemLess, selected.items) ==> Ordered(ItemLess, out.items))
            && forall x :: x in out.items ==> x in selected.items
  {
    var n := Drops(selected, byteBudget, wire, 0);
    TrimmedItems(selected, byteBudget, wire);
    RemainingLength(selected.items, n);
    RemainingMembers(selected.items, n);
    if Ordered(ItemLess, selected.items) {
      RemainingOrdered(selected.items, n);
    }
  }

  method Finish(selected: Bundle, byteBudget: int, wire: Wire) returns (out: Bundle)
    requires Ordered(ItemLess, selected.items)
    ensures |out.items| + out.omittedItems == |selected.items| + selected.omittedItems
    ensures Ordered(ItemLess, out.items) && selected.omittedItems <= out.omittedItems
    ensures forall x :: x in out.items ==> x in selected.items
    ensures out.truncated <==>
              selected.truncated || selected.selectionTruncated || selected.omittedItems < out.omittedItems
    ensures out.byteBudgetTruncated <==> selected.byteBudgetTruncated || selected.omittedItems < out.omittedItems
    ensures out.selectionTruncated == selected.selectionTruncated
    ensures out.compact == selected.compact && out.byteBudget == selected.byteBudget
    ensures out.sources == selected.sources && out.rest == selected.rest
    ensures out.byteSize == wire(out.(byteSize := selected.byteSize))
    ensures ListsLost(out.omittedSources, selected.sources, out.items)
    ensures out == Finished(selected, byteBudget, wire)
  {
    FinishedFields(selected, byteBudget, wire);
    FinishedListsLost(selected, byteBudget, wire);
    FinishedItems(selected, byteBudget, wire);
    var ref := new BundleRef(selected);
    var trimmed := TrimToBudget(ref, byteBudget, wire);
    out := ref.bundle;
    out := out.(truncated := out.truncated || out.selectionTruncated || trimmed);
    if trimmed {
      out := out.(byteBudgetTruncated := true);
    }
    out := out.(byteSize := wire(out));
  }

  /** compactIncident. Ids come from a random source, so callers pass distinct ones; without
      that, two items may share a map entry, and the item count is still accounted for. */
  method CompactIncident(bundle: Bundle, maxItems: nat, byteBudget: int, wire: Wire) returns (out: Bundle)
    ensures |out.items| + out.omittedItems == |bundle.items| && forall x :: x in out.items ==> x in bundle.items
    ensures Ordered(ItemLess, out.items)
    ensures out.truncated <==> bundle.truncated || out.omittedItems > 0
    ensures out.compact && out.byteBudget == byteBudget && out.sources == bundle.sources && out.rest == bundle.rest
    ensures out.byteSize == wire(out.(byteSize := bundle.byteSize))
    ensures ListsLost(out.omittedSources, bundle.sources, out.items)
    ensures UniqueIds(bundle.items) ==>
              && (out.selectionTruncated <==> |bundle.items| > maxItems)
              && (out.byteBudgetTruncated <==>
                    || bundle.byteBudgetTruncated
                    || out.omittedItems > if |bundle.items| > maxItems then |bundle.items| - maxItems else 0)
    ensures UniqueIds(bundle.items) ==> out == Compacted(bundle, maxItems, byteBudget, wire)
  {
    var items := SortedCopy(bundle.items, ItemLess);
    SortedIsUnique(bundle.items);
    SortedMembers(bundle.items);
    var kept := SelectByCount(items, maxItems);
    var omitted := |items| - |kept|;
    var selected := bundle.(compact := true, byteBudget := byteBudget, items := kept,
                            selectionTruncated := omitted > 0, omittedItems := omitted);
    out := Finish(selected, byteBudget, wire);
    if UniqueIds(bundle.items) {
      RemainingLength(items, OverLimit(|items|, maxItems));
      assert selected == Selected(bundle, maxItems, byteBudget);
    }
  }

  lemma SortedMembers(items: seq<Item>)
    ensures forall x :: x in SortItems(items) <==> x in items
  {
    SortMultiset(ItemLess, items);
    forall x
      ensures x in SortItems(items) <==> x in items
    {
      assert x in SortItems(items) <==> x in multiset(SortItems(items));
      assert x in items <==> x in multiset(items);
    }
  }

  lemma SortedIsUnique(items: seq<Item>)
    ensures Ordered(ItemLess, SortItems(items))
    ensures UniqueIds(items) ==> UniqueIds(SortItems(items))
  {
    ItemLessOrder();
    SortOrdered(ItemLess, items);
    SortMultiset(ItemLess, items);
    if UniqueIds(items) {
      UniqueIdsPermutation(items, SortItems(items));
    }
  }

  /** The total number of items compact mode gives up. */
  function Given(b: Bundle, maxItems: nat, byteBudget: int, wire: Wire): (r: nat)
    ensures r <= |b.items|
  {
    var selected := Selected(b, maxItems, byteBudget);
    RemainingLength(SortItems(b.items), OverLimit(|b.items|, maxItems));
    OverLimit(|b.items|, maxItems) + Drops(selected, byteBudget, wire, 0)
  }

  /** Both halves drop along the same sequence: after r rounds of byte trimming, the bundle holds
      what remains of the sorted input after the count cut and r more drops. */
  lemma RoundsContinueTheCut(b: Bundle, maxItems: nat, byteBudget: int, r: nat)
    requires OverLimit(|b.items|, maxItems) + r <= |b.items|
    ensures var selected, n := Selected(b, maxItems, byteBudget), OverLimit(|b.items|, maxItems) + r;
            && |selected.items| == |b.items| - OverLimit(|b.items|, maxItems)
            && AfterDrops(selected, r).items == Remaining(SortItems(b.items), n)
            && AfterDrops(selected, r).omittedItems == n
  {
    RemainingTwice(SortItems(b.items), OverLimit(|b.items|, maxItems), r);
  }

  lemma TrimmedItems(selected: Bundle, byteBudget: int, wire: Wire)
    ensures var out := Finished(selected, byteBudget, wire);
            var last := AfterDrops(selected, Drops(selected, byteBudget, wire, 0));
            out.items == last.items && out.omittedItems == last.omittedItems
  {
  }

  /** The whole of compact mode is one cut of the drop sequence. */
  lemma CompactIsOneCut(b: Bundle, maxItems: nat, byteBudget: int, wire: Wire)
    ensures var n := Given(b, maxItems, byteBudget, wire);
            var out := Compacted(b, maxItems, byteBudget, wire);
            out.items == Remaining(SortItems(b.items), n) && out.omittedItems == n
  {
    var selected, n := Selected(b, maxItems, byteBudget), Given(b, maxItems, byteBudget, wire);
    var r := Drops(selected, byteBudget, wire, 0);
    assert n == OverLimit(|b.items|, maxItems) + r;
    RoundsContinueTheCut(b, maxItems, byteBudget, r);
    TrimmedItems(selected, byteBudget, wire);
  }

  /** Every input item is either returned or in the dropped prefix of the drop sequence. */
  lemma CompactConserves(b: Bundle, maxItems: nat, byteBudget: int, wire: Wire)
    ensures var out := Compacted(b, maxItems, byteBudget, wire);
            && 0 <= out.omittedItems <= |b.items|
            && multiset(b.items) == multiset(out.items) + multiset(DropSequence(SortItems(b.items))[..out.omittedItems])
  {
    CompactIsOneCut(b, maxItems, byteBudget, wire);
    RemainingMultiset(SortItems(b.items), Given(b, maxItems, byteBudget, wire));
    SortMultiset(ItemLess, b.items);
  }

  /** The selected bundle fits the budget after r rounds. */
  predicate FitsAfter(selected: Bundle, byteBudget: int, wire: Wire, r: nat) {
    r <= |selected.items| && wire(AfterDrops(selected, r)) <= byteBudget
  }

  lemma FirstFit(selected: Bundle, byteBudget: int, wire: Wire)
    ensures var r := Drops(selected, byteBudget, wire, 0);
            && (r == |selected.items| || FitsAfter(selected, byteBudget, wire, r))
            && forall m :: 0 <= m < r ==> !FitsAfter(selected, byteBudget, wire, m)
  {
    DropsIsLeast(selected, byteBudget, wire, 0);
  }

  /** The cut is as deep as the item limit forces, and from there to the first bundle that fits. */
  lemma CompactCutsToFirstFit(b: Bundle, maxItems: nat, byteBudget: int, wire: Wire)
    ensures var selected := Selected(b, maxItems, byteBudget);
            var r := Compacted(b, maxItems, byteBudget, wire).omittedItems - OverLimit(|b.items|, maxItems);
            && 0 <= r <= |selected.items|
            && (r == |selected.items| || FitsAfter(selected, byteBudget, wire, r))
            && forall m :: 0 <= m < r ==> !FitsAfter(selected, byteBudget, wire, m)
  {
    CompactIsOneCut(b, maxItems, byteBudget, wire);
    FirstFit(Selected(b, maxItems, byteBudget), byteBudget, wire);
  }

  /** The result does not depend on the order in which the items arrived. */
  lemma {:induction false} CompactArrivalOrder(b: Bundle, items: seq<Item>, maxItems: nat, byteBudget: int, wire: Wire)
    requires UniqueIds(b.items) && multiset(items) == multiset(b.items)
    ensures Compacted(b.(items := items), maxItems, byteBudget, wire) == Compacted(b, maxItems, byteBudget, wire)
  {
    ItemLessOrder();
    UniqueIdsSeparate(b.items);
    SortPermutation(ItemLess, b.items, items);
    assert Selected(b.(items := items), maxItems, byteBudget) == Selected(b, maxItems, byteBudget);
  }

  /** A source with an item left has its newest one left, and a source is lost only once no
      source has two items. */
  lemma CompactProtectsSources(b: Bundle, maxItems: nat, byteBudget: int, wire: Wire, kind: string)
    requires Mentions(SortItems(b.items), kind)
    ensures var out, s := Compacted(b, maxItems, byteBudget, wire), SortItems(b.items);
            if Mentions(out.items, kind)
            then LatestOf(out.items, kind) == LatestOf(s, kind)
            else NoneRepeated(out.items)
  {
    CompactIsOneCut(b, maxItems, byteBudget, wire);
    var s, n := SortItems(b.items), Given(b, maxItems, byteBudget, wire);
    if Mentions(Remaining(s, n), kind) {
      RemainingKeepsLatest(s, n, kind);
    } else {
      RemainingLosesSource(s, n, kind);
    }
  }

  /** The fields of the result other than the items, from the input and the count of what was
      omitted alone. */
  lemma CompactFields(b: Bundle, maxItems: nat, byteBudget: int, wire: Wire)
    ensures var out := Compacted(b, maxItems, byteBudget, wire);
            var over := if |b.items| > maxItems then |b.items| - maxItems else 0;
            && (out.truncated <==> b.truncated || out.omittedItems > 0)
            && (out.selectionTruncated <==> |b.items| > maxItems)
            && (out.byteBudgetTruncated <==> b.byteBudgetTruncated || out.omittedItems > over)
            && out.compact && out.byteBudget == byteBudget && out.sources == b.sources && out.rest == b.rest
            && out.byteSize == wire(out.(byteSize := b.byteSize))
            && ListsLost(out.omittedSources, b.sources, out.items)
  {
    FinishedFields(Selected(b, maxItems, byteBudget), byteBudget, wire);
    FinishedListsLost(Selected(b, maxItems, byteBudget), byteBudget, wire);
  }

  /** A source of which anything is left has an item left that none of its input items is newer
      than. */
  lemma CompactKeepsNewest(b: Bundle, maxItems: nat, byteBudget: int, wire: Wire, x: Item)
    requires x in Compacted(b, maxItems, byteBudget, wire).items
    ensures exists y :: y in Compacted(b, maxItems, byteBudget, wire).items && y.source == x.source
              && forall z :: z in b.items && z.source == x.source ==> z.observedAt <= y.observedAt && !ItemLess(y, z)
  {
    var s, out, n := SortItems(b.items), Compacted(b, maxItems, byteBudget, wire), Given(b, maxItems, byteBudget, wire);
    CompactIsOneCut(b, maxItems, byteBudget, wire);
    MentionsMember(out.items, x.source);
    RemainingKeepsLatest(s, n, x.source);
    SortedIsUnique(b.items);
    SortMultiset(ItemLess, b.items);
    var y := LatestOf(s, x.source);
    forall z | z in b.items && z.source == x.source
      ensures z.observedAt <= y.observedAt && !ItemLess(y, z)
    {
      assert z in multiset(s);
      LatestIsNewest(s, x.source, z);
      ItemLessKeys(y, z);
    }
  }

  /** Any two compact views of the same items are nested: the one that omits more holds a part of
      the other. */
  lemma CompactNested(
      b: Bundle, max1: nat, budget1: int, wire1: Wire, max2: nat, budget2: int, wire2: Wire)
    requires Given(b, max1, budget1, wire1) <= Given(b, max2, budget2, wire2)
    ensures forall x :: x in Compacted(b, max2, budget2, wire2).items ==> x in Compacted(b, max1, budget1, wire1).items
  {
    CompactIsOneCut(b, max1, budget1, wire1);
    CompactIsOneCut(b, max2, budget2, wire2);
    RemainingNested(SortItems(b.items), Given(b, max1, budget1, wire1), Given(b, max2, budget2, wire2));
  }

  /** The size reads neither of the two fields that the limits themselves set. */
  ghost predicate IgnoresLimits(wire: Wire) {
    forall b: Bundle, budget, cut :: wire(b.(byteBudget := budget, selectionTruncated := cut)) == wire(b)
  }

  /** The cut after n drops, with the limits of b. */
  function LimitlessCut(b: Bundle, n: nat): Bundle
    requires n <= |b.items|
  {
    b.(compact := true, items := Remaining(SortItems(b.items), n), omittedItems := n)
  }

  lemma CutOfLimitless(b: Bundle, maxItems: nat, byteBudget: int, r: nat, n: nat)
    requires OverLimit(|b.items|, maxItems) + r == n <= |b.items|
    ensures r <= |Selected(b, maxItems, byteBudget).items|
    ensures AfterDrops(Selected(b, maxItems, byteBudget), r)
         == LimitlessCut(b, n).(byteBudget := byteBudget, selectionTruncated := OverLimit(|b.items|, maxItems) > 0)
  {
    RoundsContinueTheCut(b, maxItems, byteBudget, r);
  }

  lemma CutSize(b: Bundle, maxItems: nat, byteBudget: int, wire: Wire, r: nat, n: nat)
    requires IgnoresLimits(wire) && OverLimit(|b.items|, maxItems) + r == n <= |b.items|
    ensures r <= |Selected(b, maxItems, byteBudget).items|
    ensures wire(AfterDrops(Selected(b, maxItems, byteBudget), r)) == wire(LimitlessCut(b, n))
  {
    CutOfLimitless(b, maxItems, byteBudget, r, n);
  }

  /** Compact mode stops at the first cut, from the item limit on, that fits. */
  lemma GivenIsFirst(b: Bundle, maxItems: nat, byteBudget: int, wire: Wire, n: nat)
    requires IgnoresLimits(wire) && OverLimit(|b.items|, maxItems) <= n < |b.items|
    ensures OverLimit(|b.items|, maxItems) <= Given(b, maxItems, byteBudget, wire)
    ensures n < Given(b, maxItems, byteBudget, wire) ==> wire(LimitlessCut(b, n)) > byteBudget
    ensures n == Given(b, maxItems, byteBudget, wire) ==> wire(LimitlessCut(b, n)) <= byteBudget
  {
    SelectedLength(b, maxItems, byteBudget);
    DropsIsLeast(Selected(b, maxItems, byteBudget), byteBudget, wire, 0);
    CutSize(b, maxItems, byteBudget, wire, n - OverLimit(|b.items|, maxItems), n);
  }

  lemma SelectedLength(b: Bundle, maxItems: nat, byteBudget: int)
    ensures OverLimit(|b.items|, maxItems) <= |b.items|
    ensures |Selected(b, maxItems, byteBudget).items| == |b.items| - OverLimit(|b.items|, maxItems)
  {
    RemainingLength(SortItems(b.items), OverLimit(|b.items|, maxItems));
  }

  /** Under such a size, a smaller item limit and a smaller byte budget never bring an item back. */
  lemma TighterLimitsDropMore(b: Bundle, max1: nat, budget1: int, max2: nat, budget2: int, wire: Wire)
    requires IgnoresLimits(wire) && max2 <= max1 && budget2 <= budget1
    ensures forall x :: x in Compacted(b, max2, budget2, wire).items ==> x in Compacted(b, max1, budget1, wire).items
  {
    var n2 := Given(b, max2, budget2, wire);
    if n2 < |b.items| {
      SelectedLength(b, max2, budget2);
      GivenIsFirst(b, max2, budget2, wire, n2);
      GivenIsFirst(b, max1, budget1, wire, n2);
    }
    CompactNested(b, max1, budget1, wire, max2, budget2, wire);
  }

  /** A size that reads the byte budget, as that of the serialized field does. */
  function BudgetReadingSize(b: Bundle): int {
    if b.byteBudget == 2 then 3 * |b.items| else |b.items|
  }

  /** Without that condition a smaller budget can keep more. */
  lemma SmallerBudgetCanKeepMore(item: Item, b: Bundle)
    requires b.items == [item]
    ensures Compacted(b, 1, 1, BudgetReadingSize).items == [item]
    ensures Compacted(b, 1, 2, BudgetReadingSize).items == []
  {
    assert SortItems([item]) == [item] by {
      assert [item][..0] == [];
    }
    RemainingLength([item], 0);
    RemainingLength([item], 1);
    CompactIsOneCut(b, 1, 1, BudgetReadingSize);
    CompactIsOneCut(b, 1, 2, BudgetReadingSize);
    DropsIsLeast(Selected(b, 1, 1), 1, BudgetReadingSize, 0);
    DropsIsLeast(Selected(b, 1, 2), 2, BudgetReadingSize, 0);
  }

  lemma RemainingNested(s: seq<Item>, n1: nat, n2: nat)
    requires n1 <= n2 <= |s|
    ensures forall x :: x in Remaining(s, n2) ==> x in Remaining(s, n1)
  {
    var t, n := Remaining(s, n1), n2 - n1;
    RemainingTwice(s, n1, n);
    RemainingMembers(t, n);
  }

  /** What the item limit selects, stated without the drop sequence: when every source fits,
      the newest item of each, and otherwise nothing older than what was left out. */
  lemma SelectionReserves(items: seq<Item>, maxItems: nat)
    requires UniqueIds(items) && Ordered(ItemLess, items) && |Protected(items)| <= maxItems
    ensures var kept := Remaining(items, OverLimit(|items|, maxItems));
            && |kept| == (if |items| <= maxItems then |items| else maxItems)
            && (forall kind :: Mentions(items, kind) ==> LatestOf(items, kind) in kept)
            && (forall x, y :: x in items && x !in kept && y in kept && y !in Protected(items) ==> ItemLess(x, y))
  {
    var over := OverLimit(|items|, maxItems);
    RemainingLength(items, over);
    SurplusAndProtected(items);
    forall kind | Mentions(items, kind)
      ensures LatestOf(items, kind) in Strip(items, over)
    {
      StripLatest(items, over, kind);
    }
    forall x, y | x in items && x !in Strip(items, over) && y in Strip(items, over) && y !in Protected(items)
      ensures ItemLess(x, y)
    {
      StripTakesOldest(items, over, x, y);
    }
  }

  /** When the sources outnumber the limit, only the newest of their newest items stay. */
  lemma SelectionOverfull(items: seq<Item>, maxItems: nat)
    requires |Protected(items)| > maxItems
    ensures Remaining(items, OverLimit(|items|, maxItems)) == LastK(Protected(items), maxItems)
  {
    RemainingIsProtectedTail(items, maxItems);
  }

  /** The same two facts about the bundle that the item limit leaves. */
  lemma SelectionMeaning(b: Bundle, maxItems: nat, byteBudget: int)
    requires UniqueIds(b.items)
    ensures var s, kept := SortItems(b.items), Selected(b, maxItems, byteBudget).items;
            if |Protected(s)| <= maxItems
            then
              && |kept| == (if |s| <= maxItems then |s| else maxItems)
              && (forall kind :: Mentions(s, kind) ==> LatestOf(s, kind) in kept)
              && (forall x, y :: x in s && x !in kept && y in kept && y !in Protected(s) ==> ItemLess(x, y))
            else kept == LastK(Protected(s), maxItems)
  {
    var s := SortItems(b.items);
    ItemLessOrder();
    SortOrdered(ItemLess, b.items);
    SortMultiset(ItemLess, b.items);
    UniqueIdsPermutation(b.items, s);
    if |Protected(s)| <= maxItems {
      SelectionReserves(s, maxItems);
    } else {
      SelectionOverfull(s, maxItems);
    }
  }

  /** Every stripped item sorts before every surplus item that stays. */
  lemma {:induction false} StripTakesOldest(s: seq<Item>, n: nat, x: Item, y: Item)
    requires UniqueIds(s) && Ordered(ItemLess, s) && n <= |Surplus(s)|
    requires x in s && x !in Strip(s, n) && y in Strip(s, n) && y !in Protected(s)
    ensures ItemLess(x, y)
  {
    StripMembers(s, n);
    if x == s[0] {
      HeadIsOldest(s, y);
    } else {
      assert s == [s[0]] + s[1..];
      StripTakesOldest(s[1..], if Mentions(s[1..], s[0].source) then n - 1 else n, x, y);
    }
  }

  lemma HeadIsOldest(s: seq<Item>, y: Item)
    requires UniqueIds(s) && Ordered(ItemLess, s) && y in s && y != s[0]
    ensures ItemLess(s[0], y)
  {
    var j :| 0 <= j < |s| && s[j] == y;
    ItemLessOrder();
    assert !ItemLess(s[j], s[0]) && s[0].id != s[j].id;
  }
}
