/** What compact mode's byte budget is worth. The trimming loop measures the bundle before the
    omitted sources and the truncation flags are written, so what it measured last is not quite
    what is reported. */
module ByteBudget {
  import opened Sorting
  import opened Evidence
  import opened DropOrder
  import opened Selection
  import opened Compact

  // ---------------------------------------------------------------- what closing writes

  /** b as the closing steps leave it: flags can only go up, and the names are listed. */
  function Closing(b: Bundle, truncated: bool, byteTruncated: bool, names: seq<string>): Bundle {
    b.(truncated := b.truncated || truncated,
       byteBudgetTruncated := b.byteBudgetTruncated || byteTruncated,
       omittedSources := Listed(names))
  }

  /** A cut, closed; trimmed tells whether the loop dropped anything. */
  ghost function ClosedCut(cut: Bundle, trimmed: bool): Bundle {
    Closing(cut, cut.selectionTruncated || trimmed, trimmed, OmittedSources(cut.sources, cut.items))
  }

  /** The bundle that the loop measured last. */
  function LastMeasured(selected: Bundle, byteBudget: int, wire: Wire): Bundle {
    AfterDrops(selected, Drops(selected, byteBudget, wire, 0))
  }

  /** The reported size is that of the last cut, closed, the omitted names included. */
  lemma ReportedSize(selected: Bundle, byteBudget: int, wire: Wire)
    ensures var out := Finished(selected, byteBudget, wire);
            var closed := ClosedCut(LastMeasured(selected, byteBudget, wire), Drops(selected, byteBudget, wire, 0) > 0);
            out.byteSize == wire(closed) && out.omittedSources == closed.omittedSources && out.items == closed.items
  {
  }

  function NameCosts(cost: string -> nat, names: seq<string>): nat {
    if |names| == 0 then 0 else NameCosts(cost, names[..|names| - 1]) + cost(names[|names| - 1])
  }

  /** Names that closing can write for these outcomes: ascending kinds that contributed. */
  ghost predicate Writable(sources: seq<Outcome>, names: seq<string>) {
    && (forall i :: 0 <= i < |names| ==> Contributed(sources, names[i]))
    && (forall i, j :: 0 <= i < j < |names| ==> TextLess(names[i], names[j]))
  }

  /** Closing a cut of this bundle costs at most so much for each name, and nothing without names. */
  ghost predicate CutClosesAt(wire: Wire, cost: string -> nat, cut: Bundle) {
    forall t, bt, names :: Writable(cut.sources, names) ==>
      wire(Closing(cut, t, bt, names)) <= wire(cut) + NameCosts(cost, names)
  }

  ghost predicate ClosesAt(wire: Wire, cost: string -> nat, selected: Bundle) {
    forall r :: 0 <= r <= |selected.items| ==> CutClosesAt(wire, cost, AfterDrops(selected, r))
  }

  /** Some number of rounds brings the selected bundle within the budget. */
  ghost predicate SomeCutFits(selected: Bundle, byteBudget: int, wire: Wire) {
    exists r :: 0 <= r <= |selected.items| && FitsAfter(selected, byteBudget, wire, r)
  }

  lemma LastMeasuredFits(selected: Bundle, byteBudget: int, wire: Wire)
    requires SomeCutFits(selected, byteBudget, wire)
    ensures wire(AfterDrops(selected, Drops(selected, byteBudget, wire, 0))) <= byteBudget
  {
    DropsIsLeast(selected, byteBudget, wire, 0);
  }

  /** If any cut fits, the reported size exceeds the budget by at most the cost of the names of
      the sources that were lost. */
  lemma OvershootIsLostNames(b: Bundle, maxItems: nat, byteBudget: int, wire: Wire, cost: string -> nat)
    requires ClosesAt(wire, cost, Selected(b, maxItems, byteBudget))
    requires SomeCutFits(Selected(b, maxItems, byteBudget), byteBudget, wire)
    ensures var out := Compacted(b, maxItems, byteBudget, wire);
            out.omittedSources.Listed? && out.byteSize <= byteBudget + NameCosts(cost, out.omittedSources.names)
  {
    var selected := Selected(b, maxItems, byteBudget);
    var last := AfterDrops(selected, Drops(selected, byteBudget, wire, 0));
    LastMeasuredFits(selected, byteBudget, wire);
    ReportedSize(selected, byteBudget, wire);
    OmittedSourcesMeaning(last.sources, last.items);
    assert Writable(last.sources, OmittedSources(last.sources, last.items));
    assert CutClosesAt(wire, cost, last);
  }

  /** If any cut fits and no contributing source is lost, the budget is met. */
  lemma MetWhenNothingIsLost(b: Bundle, maxItems: nat, byteBudget: int, wire: Wire, cost: string -> nat)
    requires ClosesAt(wire, cost, Selected(b, maxItems, byteBudget))
    requires SomeCutFits(Selected(b, maxItems, byteBudget), byteBudget, wire)
    requires forall kind :: Contributed(b.sources, kind) ==>
               Mentions(Compacted(b, maxItems, byteBudget, wire).items, kind)
    ensures Compacted(b, maxItems, byteBudget, wire).byteSize <= byteBudget
  {
    var out := Compacted(b, maxItems, byteBudget, wire);
    OvershootIsLostNames(b, maxItems, byteBudget, wire, cost);
    OmittedSourcesMeaning(b.sources, out.items);
    var names := OmittedSources(b.sources, out.items);
    assert names == [] by {
      assert forall i :: 0 <= i < |names| ==> names[i] in names;
    }
  }

  /** What a caller can check beforehand: if every contributing source has an item, and some cut
      that leaves every source an item fits, the budget is met. */
  lemma MetWhenSurplusSuffices(b: Bundle, maxItems: nat, byteBudget: int, wire: Wire, cost: string -> nat, r: nat)
    requires ClosesAt(wire, cost, Selected(b, maxItems, byteBudget))
    requires forall kind :: Contributed(b.sources, kind) ==> Mentions(SortItems(b.items), kind)
    requires OverLimit(|b.items|, maxItems) + r <= |Surplus(SortItems(b.items))|
    requires FitsAfter(Selected(b, maxItems, byteBudget), byteBudget, wire, r)
    ensures Compacted(b, maxItems, byteBudget, wire).byteSize <= byteBudget
  {
    var selected, s, n := Selected(b, maxItems, byteBudget), SortItems(b.items), Given(b, maxItems, byteBudget, wire);
    DropsIsLeast(selected, byteBudget, wire, 0);
    assert n <= |Surplus(s)|;
    CompactIsOneCut(b, maxItems, byteBudget, wire);
    RemainingIsStrip(s, n);
    forall kind | Contributed(b.sources, kind)
      ensures Mentions(Remaining(s, n), kind)
    {
      StripMentions(s, n, kind);
    }
    assert SomeCutFits(selected, byteBudget, wire);
    MetWhenNothingIsLost(b, maxItems, byteBudget, wire, cost);
  }

  // ---------------------------------------------------------------- sizes made of parts

  /** A bundle without its lists, and whether they hold anything: what the frame of the serialized
      form, separators included, can depend on. */
  datatype Outline = Outline(rest: Bundle, someItems: bool, someNames: bool)

  /** A size that is the sum of a frame, its items and its names, as that of a JSON object is. */
  datatype Parts = Parts(frame: Outline -> int, item: Item -> int, name: string -> int)

  function ItemBytes(p: Parts, items: seq<Item>): int {
    if |items| == 0 then 0 else ItemBytes(p, items[..|items| - 1]) + p.item(items[|items| - 1])
  }

  function NameBytes(p: Parts, names: seq<string>): int {
    if |names| == 0 then 0 else NameBytes(p, names[..|names| - 1]) + p.name(names[|names| - 1])
  }

  function Listing(names: Names): seq<string> {
    match names case Unset => [] case Listed(list) => list
  }

  /** The bundle without its items and names; a nil list of names stays one. */
  function Stripped(b: Bundle): Bundle {
    b.(items := [], omittedSources := if b.omittedSources.Unset? then Unset else Listed([]))
  }

  function Total(p: Parts, rest: Bundle, items: seq<Item>, names: seq<string>): int {
    p.frame(Outline(rest, |items| > 0, |names| > 0)) + ItemBytes(p, items) + NameBytes(p, names)
  }

  function SizeOf(p: Parts): Wire {
    b => Total(p, Stripped(b), b.items, Listing(b.omittedSources))
  }

  /** What is left after r rounds along the drop sequence d. */
  function Left(d: seq<Item>, r: nat): seq<Item> {
    if r <= |d| then d[r..] else []
  }

  /** The fields other than the lists after r rounds; h holds them at the start. */
  function OpenHead(h: Bundle, r: nat): Bundle {
    h.(omittedItems := h.omittedItems + r)
  }

  /** The same fields once closed. */
  function ClosedHead(h: Bundle, r: nat): Bundle {
    OpenHead(h, r).(
      truncated := h.truncated || h.selectionTruncated || r > 0,
      byteBudgetTruncated := h.byteBudgetTruncated || r > 0,
      omittedSources := Listed([]))
  }

  /** The sizes of all cuts, by the number of rounds. */
  type Sizes = nat -> int

  /** The sizes of the cuts along d as the loop measures them. */
  function OpenSizes(p: Parts, h: Bundle, names: Names, d: seq<Item>): Sizes {
    (r: nat) => Total(p, OpenHead(h, r), Left(d, r), Listing(names))
  }

  /** The sizes of the same cuts as they are reported. */
  ghost function ClosedSizes(p: Parts, h: Bundle, d: seq<Item>): Sizes {
    (r: nat) => Total(p, ClosedHead(h, r), Left(d, r), OmittedSources(h.sources, Left(d, r)))
  }

  lemma {:induction false} ItemBytesWithout(p: Parts, items: seq<Item>, i: nat)
    requires i < |items|
    ensures ItemBytes(p, items) == ItemBytes(p, items[..i] + items[i + 1..]) + p.item(items[i])
  {
    var n := |items| - 1;
    if i < n {
      var rest := items[..i] + items[i + 1..];
      ItemBytesWithout(p, items[..n], i);
      assert rest[..n - 1] == items[..n][..i] + items[..n][i + 1..];
      assert rest[n - 1] == items[n];
    } else {
      assert items[..i] + items[i + 1..] == items[..n];
    }
  }

  /** The items' share does not depend on their order. */
  lemma {:induction false} ItemBytesPermutation(p: Parts, a: seq<Item>, c: seq<Item>)
    requires multiset(a) == multiset(c)
    ensures ItemBytes(p, a) == ItemBytes(p, c)
  {
    assert |a| == |multiset(a)| && |c| == |multiset(c)|;
    if |a| > 0 {
      var n := |a| - 1;
      assert a[n] in multiset(c);
      var i :| 0 <= i < |c| && c[i] == a[n];
      var rest := c[..i] + c[i + 1..];
      ItemBytesWithout(p, c, i);
      FrontLast(a);
      assert c == c[..i] + [c[i]] + c[i + 1..];
      MultisetCancel(multiset(a[..n]), multiset(rest), a[n]);
      ItemBytesPermutation(p, a[..n], rest);
    }
  }

  lemma MentionsPermutation(a: seq<Item>, c: seq<Item>, kind: string)
    requires multiset(a) == multiset(c)
    ensures Mentions(a, kind) ==> Mentions(c, kind)
  {
    if Mentions(a, kind) {
      var i :| 0 <= i < |a| && a[i].source == kind;
      assert a[i] in multiset(c);
      var j :| 0 <= j < |c| && c[j] == a[i];
    }
  }

  lemma {:induction false} LostKindsAgree(sources: seq<Outcome>, a: seq<Item>, c: seq<Item>, n: nat)
    requires n <= |sources| && forall kind :: Mentions(a, kind) <==> Mentions(c, kind)
    ensures LostKinds(sources, a, n) == LostKinds(sources, c, n)
  {
    if n > 0 {
      LostKindsAgree(sources, a, c, n - 1);
    }
  }

  /** What remains of sorted items, and the rest of their drop sequence, are the same items. */
  lemma RestIsRemaining(s: seq<Item>, n: nat)
    requires n <= |s|
    ensures multiset(DropSequence(s)[n..]) == multiset(Remaining(s, n))
    ensures |DropSequence(s)[n..]| == |Remaining(s, n)|
  {
    var d := DropSequence(s);
    RemainingMultiset(s, n);
    RemainingMultiset(s, |s|);
    RemainingLength(s, |s|);
    RemainingLength(s, n);
    assert d[..|s|] == d;
    PrefixAndRest(d, n, multiset(Remaining(s, n)));
  }

  lemma PrefixAndRest(d: seq<Item>, n: nat, m: multiset<Item>)
    requires n <= |d| && multiset(d) == m + multiset(d[..n])
    ensures multiset(d[n..]) == m
  {
    assert d == d[..n] + d[n..];
    assert multiset(d) == multiset(d[..n]) + multiset(d[n..]);
    assert m == m + multiset(d[..n]) - multiset(d[..n]);
    assert multiset(d[n..]) == multiset(d[..n]) + multiset(d[n..]) - multiset(d[..n]);
  }

  /** The parts of a size do not depend on the order of the items. */
  lemma TotalOf(p: Parts, c: Bundle, rest: Bundle, items: seq<Item>, names: seq<string>)
    requires Stripped(c) == rest && Listing(c.omittedSources) == names
    requires multiset(c.items) == multiset(items) && |c.items| == |items|
    ensures SizeOf(p)(c) == Total(p, rest, items, names)
  {
    ItemBytesPermutation(p, c.items, items);
  }

  lemma PermutationOmitted(sources: seq<Outcome>, a: seq<Item>, c: seq<Item>)
    requires multiset(a) == multiset(c)
    ensures OmittedSources(sources, a) == OmittedSources(sources, c)
  {
    forall kind
      ensures Mentions(a, kind) <==> Mentions(c, kind)
    {
      MentionsPermutation(a, c, kind);
      MentionsPermutation(c, a, kind);
    }
    LostKindsAgree(sources, a, c, |sources|);
  }

  /** cut is start after r rounds along d, up to the order of its items. */
  ghost predicate IsCut(start: Bundle, d: seq<Item>, r: nat, cut: Bundle) {
    && multiset(cut.items) == multiset(Left(d, r)) && |cut.items| == |Left(d, r)|
    && cut == start.(items := cut.items, omittedItems := start.omittedItems + r)
  }

  lemma RoundsMakeCuts(start: Bundle, r: nat)
    requires r <= |start.items|
    ensures IsCut(start, DropSequence(start.items), r, AfterDrops(start, r))
  {
    RestIsRemaining(start.items, r);
  }

  lemma OpenPartsOfCut(p: Parts, start: Bundle, d: seq<Item>, r: nat, cut: Bundle)
    requires IsCut(start, d, r, cut)
    ensures SizeOf(p)(cut) == OpenSizes(p, Stripped(start), start.omittedSources, d)(r)
  {
    TotalOf(p, cut, OpenHead(Stripped(start), r), Left(d, r), Listing(start.omittedSources));
  }

  lemma ClosedPartsOfCut(p: Parts, start: Bundle, d: seq<Item>, r: nat, cut: Bundle)
    requires IsCut(start, d, r, cut)
    ensures SizeOf(p)(ClosedCut(cut, r > 0)) == ClosedSizes(p, Stripped(start), d)(r)
  {
    PermutationOmitted(start.sources, cut.items, Left(d, r));
    TotalOf(p, ClosedCut(cut, r > 0), ClosedHead(Stripped(start), r), Left(d, r),
            OmittedSources(start.sources, Left(d, r)));
  }

  function FrameOf(p: Parts, c: Bundle, someNames: bool): int {
    p.frame(Outline(Stripped(c), |c.items| > 0, someNames))
  }

  /** The frame of this cut does not grow by closing. In JSON the flags get shorter, and the brackets
      of the list take the place of its null. */
  ghost predicate FrameCloses(p: Parts, cut: Bundle) {
    forall t, bt, some ::
      FrameOf(p, Closing(cut, t, bt, []), some) <= FrameOf(p, cut, |Listing(cut.omittedSources)| > 0)
  }

  lemma {:induction false} NamesWithinCosts(p: Parts, cost: string -> nat, names: seq<string>)
    requires forall name :: 0 <= p.name(name) <= cost(name)
    ensures 0 <= NameBytes(p, names) <= NameCosts(cost, names)
  {
    if |names| > 0 {
      NamesWithinCosts(p, cost, names[..|names| - 1]);
    }
  }

  lemma ClosingCost(p: Parts, cost: string -> nat, cut: Bundle, t: bool, bt: bool, names: seq<string>)
    requires (forall name :: 0 <= p.name(name) <= cost(name)) && FrameCloses(p, cut)
    ensures SizeOf(p)(Closing(cut, t, bt, names)) <= SizeOf(p)(cut) + NameCosts(cost, names)
  {
    NamesWithinCosts(p, cost, Listing(cut.omittedSources));
    NamesWithinCosts(p, cost, names);
    assert FrameOf(p, Closing(cut, t, bt, []), |names| > 0) <= FrameOf(p, cut, |Listing(cut.omittedSources)| > 0);
    assert Stripped(Closing(cut, t, bt, names)) == Stripped(Closing(cut, t, bt, []));
  }

  lemma PartsCloseAt(p: Parts, cost: string -> nat, cut: Bundle)
    requires (forall name :: 0 <= p.name(name) <= cost(name)) && FrameCloses(p, cut)
    ensures CutClosesAt(SizeOf(p), cost, cut)
  {
    forall t, bt, names | Writable(cut.sources, names) {
      ClosingCost(p, cost, cut, t, bt, names);
    }
  }

  /** Sizes made of parts close at the cost of their names. */
  lemma PartsClose(p: Parts, cost: string -> nat, selected: Bundle)
    requires forall name :: 0 <= p.name(name) <= cost(name)
    requires forall r :: 0 <= r <= |selected.items| ==> FrameCloses(p, AfterDrops(selected, r))
    ensures ClosesAt(SizeOf(p), cost, selected)
  {
    forall r | 0 <= r <= |selected.items|
      ensures CutClosesAt(SizeOf(p), cost, AfterDrops(selected, r))
    {
      PartsCloseAt(p, cost, AfterDrops(selected, r));
    }
  }

  // ---------------------------------------------------------------- when the budget is met

  /** Giving up one more item never makes the bundle larger. */
  ghost predicate Shrinks(open: Sizes, len: nat) {
    forall r: nat :: r < len ==> open(r + 1) <= open(r)
  }

  /** The budget lies in the r-th step: it holds the r-th cut as measured, unless that one is
      empty, and as reported, and it does not hold the cut before. */
  ghost predicate InStep(open: Sizes, closed: Sizes, len: nat, budget: int, r: nat) {
    && r <= len && closed(r) <= budget
    && (r == len || open(r) <= budget)
    && (r == 0 || budget < open(r - 1))
  }

  /** stop is the first of the cuts that fits, or the empty one. */
  ghost predicate FirstFit(open: Sizes, len: nat, budget: int, stop: nat) {
    && stop <= len && (stop == len || open(stop) <= budget)
    && forall m: nat :: m < stop ==> budget < open(m)
  }

  lemma {:induction false} ShrinksOn(open: Sizes, len: nat, m: nat, n: nat)
    requires m <= n <= len && Shrinks(open, len)
    ensures open(n) <= open(m)
  {
    if m < n {
      ShrinksOn(open, len, m, n - 1);
      assert open(n - 1 + 1) <= open(n - 1);
    }
  }

  /** Where the sizes shrink, the first fit is told by its own size and the one before it. */
  lemma FirstFitDecides(open: Sizes, closed: Sizes, len: nat, budget: int, stop: nat)
    requires FirstFit(open, len, budget, stop) && Shrinks(open, len)
    ensures closed(stop) <= budget <==> exists r: nat :: InStep(open, closed, len, budget, r)
  {
    if closed(stop) <= budget {
      assert InStep(open, closed, len, budget, stop);
    }
    if r: nat :| InStep(open, closed, len, budget, r) {
      if stop < r {
        ShrinksOn(open, len, stop, r - 1);
      }
      assert r == stop;
    }
  }

  /** The sizes are those of the cuts of this bundle. */
  ghost predicate MeasuredBy(start: Bundle, wire: Wire, open: Sizes) {
    forall r: nat :: r <= |start.items| ==> wire(AfterDrops(start, r)) == open(r)
  }

  lemma StopIsFirstFit(start: Bundle, budget: int, wire: Wire, open: Sizes)
    requires MeasuredBy(start, wire, open)
    ensures FirstFit(open, |start.items|, budget, Drops(start, budget, wire, 0))
  {
    DropsIsLeast(start, budget, wire, 0);
    forall m: nat | m < Drops(start, budget, wire, 0)
      ensures budget < open(m)
    {
      assert wire(AfterDrops(start, m)) == open(m);
    }
  }

  lemma PartsAreMeasured(p: Parts, start: Bundle)
    ensures MeasuredBy(start, SizeOf(p), OpenSizes(p, Stripped(start), start.omittedSources, DropSequence(start.items)))
  {
    forall r: nat | r <= |start.items|
      ensures SizeOf(p)(AfterDrops(start, r))
           == OpenSizes(p, Stripped(start), start.omittedSources, DropSequence(start.items))(r)
    {
      RoundsMakeCuts(start, r);
      OpenPartsOfCut(p, start, DropSequence(start.items), r, AfterDrops(start, r));
    }
  }

  /** The loop stops at the first cut that fits, and that cut is reported closed. */
  lemma StopOf(p: Parts, start: Bundle, budget: int) returns (stop: nat)
    ensures var d := DropSequence(start.items);
            && stop == Drops(start, budget, SizeOf(p), 0)
            && FirstFit(OpenSizes(p, Stripped(start), start.omittedSources, d), |d|, budget, stop)
            && Finished(start, budget, SizeOf(p)).byteSize == ClosedSizes(p, Stripped(start), d)(stop)
  {
    var d := DropSequence(start.items);
    stop := Drops(start, budget, SizeOf(p), 0);
    PartsAreMeasured(p, start);
    StopIsFirstFit(start, budget, SizeOf(p), OpenSizes(p, Stripped(start), start.omittedSources, d));
    ReportedSize(start, budget, SizeOf(p));
    RoundsMakeCuts(start, stop);
    ClosedPartsOfCut(p, start, d, stop, AfterDrops(start, stop));
  }

  // ---------------------------------------------------------------- the same, of the whole operation

  /** The fields other than the lists when trimming starts. */
  function Head(b: Bundle, maxItems: nat, byteBudget: int): Bundle {
    Stripped(b).(compact := true, byteBudget := byteBudget, omittedItems := OverLimit(|b.items|, maxItems),
                 selectionTruncated := OverLimit(|b.items|, maxItems) > 0)
  }

  /** What the item limit leaves of the drop sequence of the sorted input. */
  function Trimmable(b: Bundle, maxItems: nat): seq<Item> {
    DropSequence(SortItems(b.items))[OverLimit(|b.items|, maxItems)..]
  }

  lemma CutConcat(a: seq<Item>, c: seq<Item>, n: nat)
    requires n <= |a + c|
    ensures (a + c)[n..] == if n <= |a| then a[n..] + c else c[n - |a|..]
  {
  }

  lemma DropSequenceOfStrip(s: seq<Item>, n: nat)
    requires n <= |Surplus(s)|
    ensures DropSequence(Strip(s, n)) == DropSequence(s)[n..]
  {
    StripParts(s, n);
    CutConcat(Surplus(s), Protected(s), n);
  }

  lemma DropSequenceOfTail(s: seq<Item>, n: nat)
    requires |Surplus(s)| < n <= |s|
    ensures n - |Surplus(s)| <= |Protected(s)|
    ensures DropSequence(Protected(s)[n - |Surplus(s)|..]) == DropSequence(s)[n..]
  {
    SurplusAndProtected(s);
    ProtectedTail(s, n - |Surplus(s)|);
    CutConcat(Surplus(s), Protected(s), n);
  }

  /** The drop sequence of what remains is the rest of the drop sequence. */
  lemma DropSequenceOfRemaining(s: seq<Item>, n: nat)
    requires n <= |s|
    ensures DropSequence(Remaining(s, n)) == DropSequence(s)[n..]
  {
    if n <= |Surplus(s)| {
      DropSequenceOfStrip(s, n);
    } else {
      DropSequenceOfTail(s, n);
    }
  }

  lemma SelectedParts(b: Bundle, maxItems: nat, byteBudget: int)
    ensures var selected := Selected(b, maxItems, byteBudget);
            && DropSequence(selected.items) == Trimmable(b, maxItems)
            && Stripped(selected) == Head(b, maxItems, byteBudget)
            && selected.omittedSources == b.omittedSources
  {
    DropSequenceOfRemaining(SortItems(b.items), OverLimit(|b.items|, maxItems));
  }

  /** The sizes of the cuts that trimming this bundle can measure. */
  function OpenSizesOf(p: Parts, b: Bundle, maxItems: nat, byteBudget: int): Sizes {
    OpenSizes(p, Head(b, maxItems, byteBudget), b.omittedSources, Trimmable(b, maxItems))
  }

  /** The sizes of the same cuts as they would be reported. */
  ghost function ClosedSizesOf(p: Parts, b: Bundle, maxItems: nat, byteBudget: int): Sizes {
    ClosedSizes(p, Head(b, maxItems, byteBudget), Trimmable(b, maxItems))
  }

  lemma CompactStop(p: Parts, b: Bundle, maxItems: nat, byteBudget: int) returns (stop: nat)
    ensures stop == Drops(Selected(b, maxItems, byteBudget), byteBudget, SizeOf(p), 0)
    ensures FirstFit(OpenSizesOf(p, b, maxItems, byteBudget), |Trimmable(b, maxItems)|, byteBudget, stop)
    ensures Compacted(b, maxItems, byteBudget, SizeOf(p)).byteSize == ClosedSizesOf(p, b, maxItems, byteBudget)(stop)
  {
    SelectedParts(b, maxItems, byteBudget);
    stop := StopOf(p, Selected(b, maxItems, byteBudget), byteBudget);
  }

  /** When the budget is met: exactly when it lies in one of the steps, whose ends are sums over
      the drop sequence of the sorted input. Between the steps lie the gaps in which the promise
      fails, each from a cut's measured size up to its reported one. */
  lemma {:induction false} ByteBudgetMetIff(p: Parts, b: Bundle, maxItems: nat, byteBudget: int)
    requires Shrinks(OpenSizesOf(p, b, maxItems, byteBudget), |Trimmable(b, maxItems)|)
    ensures Compacted(b, maxItems, byteBudget, SizeOf(p)).byteSize <= byteBudget <==>
            exists r: nat :: InStep(OpenSizesOf(p, b, maxItems, byteBudget), ClosedSizesOf(p, b, maxItems, byteBudget),
                                    |Trimmable(b, maxItems)|, byteBudget, r)
  {
    var stop := CompactStop(p, b, maxItems, byteBudget);
    FirstFitDecides(OpenSizesOf(p, b, maxItems, byteBudget), ClosedSizesOf(p, b, maxItems, byteBudget),
                    |Trimmable(b, maxItems)|, byteBudget, stop);
  }

  /** How much the frame grows when a round raises the count of omitted items. */
  function FrameGrowth(p: Parts, h: Bundle, names: Names, len: nat, r: nat): int {
    p.frame(Outline(OpenHead(h, r + 1), r + 1 < len, |Listing(names)| > 0))
    - p.frame(Outline(OpenHead(h, r), true, |Listing(names)| > 0))
  }

  lemma LeftStep(p: Parts, d: seq<Item>, r: nat)
    requires r < |d|
    ensures ItemBytes(p, Left(d, r)) == p.item(d[r]) + ItemBytes(p, Left(d, r + 1))
  {
    var left := Left(d, r);
    ItemBytesWithout(p, left, 0);
    assert left[..0] + left[1..] == Left(d, r + 1);
  }

  /** The sizes shrink, as the condition above asks, when every item is at least as long as what
      the count of omitted items can grow by: a digit or two. */
  lemma {:induction false} ItemsOutweighFrame(p: Parts, h: Bundle, names: Names, d: seq<Item>)
    requires forall r: nat :: r < |d| ==> FrameGrowth(p, h, names, |d|, r) <= p.item(d[r])
    ensures Shrinks(OpenSizes(p, h, names, d), |d|)
  {
    forall r: nat | r < |d|
      ensures OpenSizes(p, h, names, d)(r + 1) <= OpenSizes(p, h, names, d)(r)
    {
      LeftStep(p, d, r);
      assert FrameGrowth(p, h, names, |d|, r) <= p.item(d[r]);
    }
  }

  // ---------------------------------------------------------------- the promise fails

  const WIRE_OVERHEAD := 512
  const MIN_BUDGET := 8192

  /** The envelope, a byte for each byte of an item's content, and the names. */
  function ContentSizes(): Parts {
    Parts(o => WIRE_OVERHEAD, (x: Item) => |x.content|, (name: string) => |name|)
  }

  function Older(): Item {
    Item("1", "loki", "", 0, 0, Live, "x")
  }

  function Filler(n: nat): (r: string)
    ensures |r| == n
  {
    if n == 0 then "" else Filler(n - 1) + "x"
  }

  /** An item that fills the budget by itself. */
  function Newer(byteBudget: int): Item
    requires byteBudget >= MIN_BUDGET
  {
    Item("2", "ntfy", "", 1, 0, Live, Filler(byteBudget - WIRE_OVERHEAD))
  }

  function TwoSources(byteBudget: int): Bundle
    requires byteBudget >= MIN_BUDGET
  {
    Bundle([Older(), Newer(byteBudget)], [Outcome("loki", 1), Outcome("ntfy", 1)],
           false, false, 0, 0, false, false, 0, Unset, "")
  }

  lemma KindsDiffer()
    ensures "loki" != "ntfy"
  {
    assert "loki"[0] != "ntfy"[0];
  }

  lemma TwoSourcesSorted(byteBudget: int)
    requires byteBudget >= MIN_BUDGET
    ensures SortItems(TwoSources(byteBudget).items) == TwoSources(byteBudget).items
  {
    SortOfOrdered(ItemLess, TwoSources(byteBudget).items);
  }

  /** Both items are the newest of their source. */
  lemma TwoSourcesProtected(items: seq<Item>)
    requires |items| == 2 && items[0].source == "loki" && items[1].source == "ntfy"
    ensures DropSequence(items)[0..] == items && Remaining(items, 1) == [items[1]]
  {
    KindsDiffer();
    DropNoneRepeated(items);
  }

  lemma PairBytes(p: Parts, x: Item, y: Item)
    ensures ItemBytes(p, [y]) == p.item(y) && ItemBytes(p, [x, y]) == p.item(x) + p.item(y)
  {
    assert [x, y][..1] == [x] && [x][..0] == [] && [y][..0] == [];
    assert ItemBytes(p, [x]) == p.item(x);
  }

  lemma NameAlone()
    ensures NameBytes(ContentSizes(), ["loki"]) == |"loki"| && NameBytes(ContentSizes(), []) == 0
  {
    assert ["loki"][..0] == [];
  }

  lemma OnlyNtfyIsLeft(sources: seq<Outcome>, items: seq<Item>)
    requires sources == [Outcome("loki", 1), Outcome("ntfy", 1)] && |items| == 1 && items[0].source == "ntfy"
    ensures Lost(sources, items, "loki") && !Lost(sources, items, "ntfy")
  {
    KindsDiffer();
    assert sources[0].kind == "loki" && Contributed(sources, "loki");
    assert Mentions(items, "ntfy") && !Mentions(items, "loki");
  }

  lemma LokiIsLost(sources: seq<Outcome>, items: seq<Item>)
    requires sources == [Outcome("loki", 1), Outcome("ntfy", 1)] && |items| == 1 && items[0].source == "ntfy"
    ensures OmittedSources(sources, items) == ["loki"]
  {
    OnlyNtfyIsLeft(sources, items);
    assert LostKinds(sources, items, 0) == [];
    assert LostKinds(sources, items, 1) == ["loki"];
    assert LostKinds(sources, items, 2) == ["loki"];
    SortOfOrdered(TextLess, ["loki"]);
  }

  lemma TwoSourcesSizes(byteBudget: int, h: Bundle, d: seq<Item>)
    requires byteBudget >= MIN_BUDGET && d == [Older(), Newer(byteBudget)]
    requires h.sources == [Outcome("loki", 1), Outcome("ntfy", 1)]
    ensures OpenSizes(ContentSizes(), h, Unset, d)(0) == byteBudget + 1
    ensures OpenSizes(ContentSizes(), h, Unset, d)(1) == byteBudget
    ensures ClosedSizes(ContentSizes(), h, d)(1) == byteBudget + |"loki"|
  {
    PairBytes(ContentSizes(), Older(), Newer(byteBudget));
    assert Left(d, 0) == d && Left(d, 1) == [Newer(byteBudget)];
    LokiIsLost(h.sources, Left(d, 1));
    NameAlone();
  }

  lemma StopsAfterOne(open: Sizes, len: nat, budget: int, stop: nat)
    requires FirstFit(open, len, budget, stop) && len == 2 && open(1) <= budget < open(0)
    ensures stop == 1
  {
    assert !FirstFit(open, len, budget, 0) && !FirstFit(open, len, budget, 2);
  }

  lemma TwoSourcesStop(byteBudget: int)
    requires byteBudget >= MIN_BUDGET
    ensures var selected, wire := Selected(TwoSources(byteBudget), 2, byteBudget), SizeOf(ContentSizes());
            && Drops(selected, byteBudget, wire, 0) == 1
            && Finished(selected, byteBudget, wire).byteSize == byteBudget + |"loki"|
  {
    var p, b := ContentSizes(), TwoSources(byteBudget);
    TwoSourcesSorted(byteBudget);
    TwoSourcesProtected(b.items);
    TwoSourcesSizes(byteBudget, Head(b, 2, byteBudget), Trimmable(b, 2));
    var stop := CompactStop(p, b, 2, byteBudget);
    StopsAfterOne(OpenSizesOf(p, b, 2, byteBudget), |Trimmable(b, 2)|, byteBudget, stop);
  }

  lemma TwoSourcesItems(byteBudget: int, wire: Wire)
    requires byteBudget >= MIN_BUDGET
    requires Drops(Selected(TwoSources(byteBudget), 2, byteBudget), byteBudget, wire, 0) == 1
    ensures Compacted(TwoSources(byteBudget), 2, byteBudget, wire).items == [Newer(byteBudget)]
    ensures SomeCutFits(Selected(TwoSources(byteBudget), 2, byteBudget), byteBudget, wire)
  {
    var b := TwoSources(byteBudget);
    TwoSourcesSorted(byteBudget);
    TwoSourcesProtected(b.items);
    RemainingLength(b.items, 0);
    DropsFit(b, 2, byteBudget, wire);
    CompactIsOneCut(b, 2, byteBudget, wire);
  }

  /** Every budget that the configuration accepts can be missed: the bundle is trimmed until it
      fits exactly, and then the name of the source that this has cost is written into it. */
  lemma {:induction false} ByteBudgetCanBeExceeded(byteBudget: int)
    requires byteBudget >= MIN_BUDGET
    ensures UniqueIds(TwoSources(byteBudget).items)
    ensures SomeCutFits(Selected(TwoSources(byteBudget), 2, byteBudget), byteBudget, SizeOf(ContentSizes()))
    ensures var out := Compacted(TwoSources(byteBudget), 2, byteBudget, SizeOf(ContentSizes()));
            out.items == [Newer(byteBudget)] && out.byteSize == byteBudget + |"loki"|
  {
    TwoSourcesStop(byteBudget);
    TwoSourcesItems(byteBudget, SizeOf(ContentSizes()));
  }

  /** If the loop stops with items left, some cut fits. */
  lemma DropsFit(b: Bundle, maxItems: nat, byteBudget: int, wire: Wire)
    requires Drops(Selected(b, maxItems, byteBudget), byteBudget, wire, 0) < |Selected(b, maxItems, byteBudget).items|
    ensures SomeCutFits(Selected(b, maxItems, byteBudget), byteBudget, wire)
  {
    var selected := Selected(b, maxItems, byteBudget);
    DropsIsLeast(selected, byteBudget, wire, 0);
    assert FitsAfter(selected, byteBudget, wire, Drops(selected, byteBudget, wire, 0));
  }
}
