/** The one order in which compact mode gives items up: first everything that is not the newest
    of its source, oldest first, and then the newest item of each source, oldest first. */
module DropOrder {
  import opened Sorting
  import opened Evidence

  predicate Mentions(s: seq<Item>, kind: string) {
    exists i :: 0 <= i < |s| && s[i].source == kind
  }

  /** The items that have a later item of the same source. */
  function Surplus(s: seq<Item>): seq<Item> {
    if |s| == 0 then []
    else if Mentions(s[1..], s[0].source) then [s[0]] + Surplus(s[1..])
    else Surplus(s[1..])
  }

  /** The last item of each source. */
  function Protected(s: seq<Item>): seq<Item> {
    if |s| == 0 then []
    else if Mentions(s[1..], s[0].source) then Protected(s[1..])
    else [s[0]] + Protected(s[1..])
  }

  function DropSequence(s: seq<Item>): (r: seq<Item>)
    ensures |r| == |s|
  {
    SurplusAndProtected(s);
    Surplus(s) + Protected(s)
  }

  /** s without its first n surplus items. */
  function Strip(s: seq<Item>, n: nat): seq<Item> {
    if |s| == 0 || n == 0 then s
    else if Mentions(s[1..], s[0].source) then Strip(s[1..], n - 1)
    else [s[0]] + Strip(s[1..], n)
  }

  /** What is left of s after the first n items of its drop sequence are gone. */
  function Remaining(s: seq<Item>, n: nat): seq<Item>
    requires n <= |s|
  {
    SurplusAndProtected(s);
    if n <= |Surplus(s)| then Strip(s, n) else Protected(s)[n - |Surplus(s)|..]
  }

  lemma {:induction false} SurplusAndProtected(s: seq<Item>)
    ensures |Surplus(s)| + |Protected(s)| == |s|
  {
    if |s| > 0 {
      SurplusAndProtected(s[1..]);
    }
  }

  lemma MentionsTail(s: seq<Item>, kind: string)
    requires |s| > 0
    ensures Mentions(s, kind) <==> s[0].source == kind || Mentions(s[1..], kind)
  {
    if Mentions(s, kind) && s[0].source != kind {
      var i :| 0 <= i < |s| && s[i].source == kind;
      assert s[1..][i - 1].source == kind;
    }
    if Mentions(s[1..], kind) {
      var i :| 0 <= i < |s[1..]| && s[1..][i].source == kind;
      assert s[i + 1].source == kind;
    }
  }

  lemma {:induction false} StripMentions(s: seq<Item>, n: nat, kind: string)
    requires n <= |Surplus(s)|
    ensures Mentions(Strip(s, n), kind) <==> Mentions(s, kind)
  {
    if |s| > 0 && n > 0 {
      MentionsTail(s, kind);
      if Mentions(s[1..], s[0].source) {
        StripMentions(s[1..], n - 1, kind);
      } else {
        StripMentions(s[1..], n, kind);
        MentionsTail(Strip(s, n), kind);
      }
    }
  }

  /** Stripping eats the surplus from the front and leaves the protected items alone. */
  lemma {:induction false} StripParts(s: seq<Item>, n: nat)
    requires n <= |Surplus(s)|
    ensures Surplus(Strip(s, n)) == Surplus(s)[n..]
    ensures Protected(Strip(s, n)) == Protected(s)
  {
    if |s| > 0 && n > 0 {
      if Mentions(s[1..], s[0].source) {
        StripParts(s[1..], n - 1);
      } else {
        StripParts(s[1..], n);
        StripMentions(s[1..], n, s[0].source);
        assert Strip(s, n)[1..] == Strip(s[1..], n);
      }
    }
  }

  lemma {:induction false} NoSurplus(s: seq<Item>)
    requires |Surplus(s)| == 0
    ensures Protected(s) == s
  {
    if |s| > 0 {
      NoSurplus(s[1..]);
    }
  }

  lemma StripAll(s: seq<Item>)
    ensures Strip(s, |Surplus(s)|) == Protected(s)
  {
    StripParts(s, |Surplus(s)|);
    NoSurplus(Strip(s, |Surplus(s)|));
  }

  lemma {:induction false} StripTwice(s: seq<Item>, a: nat, b: nat)
    requires a + b <= |Surplus(s)|
    ensures Strip(Strip(s, a), b) == Strip(s, a + b)
  {
    if |s| > 0 && a > 0 {
      if Mentions(s[1..], s[0].source) {
        StripTwice(s[1..], a - 1, b);
      } else {
        StripTwice(s[1..], a, b);
        StripMentions(s[1..], a, s[0].source);
        assert Strip(s, a)[1..] == Strip(s[1..], a);
      }
    }
  }

  /** A tail of the protected items is protected as a whole. */
  lemma {:induction false} ProtectedTail(s: seq<Item>, n: nat)
    requires n <= |Protected(s)|
    ensures Surplus(Protected(s)[n..]) == [] && Protected(Protected(s)[n..]) == Protected(s)[n..]
  {
    StripAll(s);
    StripParts(s, |Surplus(s)|);
    DropFromProtected(Protected(s), n);
  }

  lemma {:induction false} DropFromProtected(s: seq<Item>, n: nat)
    requires |Surplus(s)| == 0 && n <= |s|
    ensures Surplus(s[n..]) == [] && Protected(s[n..]) == s[n..]
  {
    if n == 0 {
      assert s[n..] == s;
      NoSurplus(s);
    } else {
      DropFromProtected(s[1..], n - 1);
      assert s[n..] == s[1..][n - 1..];
    }
  }

  lemma RemainingOfStrip(s: seq<Item>, a: nat, b: nat)
    requires a <= |Surplus(s)| && a + b <= |s|
    ensures |Strip(s, a)| == |s| - a
    ensures Remaining(Strip(s, a), b) == Remaining(s, a + b)
  {
    SurplusAndProtected(s);
    SurplusAndProtected(Strip(s, a));
    StripParts(s, a);
    if a + b <= |Surplus(s)| {
      StripTwice(s, a, b);
    }
  }

  lemma RemainingOfTail(s: seq<Item>, k: nat, b: nat)
    requires k + b <= |Protected(s)|
    ensures Remaining(Protected(s)[k..], b) == Protected(s)[k + b..]
  {
    var t := Protected(s)[k..];
    ProtectedTail(s, k);
    assert Remaining(t, b) == t[b..];
  }

  /** Dropping a and then b items is dropping a + b items: there is one drop sequence. */
  lemma RemainingTwice(s: seq<Item>, a: nat, b: nat)
    requires a + b <= |s|
    ensures |Remaining(s, a)| == |s| - a
    ensures Remaining(Remaining(s, a), b) == Remaining(s, a + b)
  {
    RemainingLength(s, a);
    SurplusAndProtected(s);
    var r := Remaining(s, a);
    if a <= |Surplus(s)| {
      assert r == Strip(s, a);
      RemainingOfStrip(s, a, b);
    } else {
      var k := a - |Surplus(s)|;
      assert r == Protected(s)[k..];
      RemainingOfTail(s, k, b);
    }
  }

  lemma RemainingLength(s: seq<Item>, n: nat)
    requires n <= |s|
    ensures |Remaining(s, n)| == |s| - n
  {
    SurplusAndProtected(s);
    if n <= |Surplus(s)| {
      StripParts(s, n);
      SurplusAndProtected(Strip(s, n));
    }
  }

  /** Index d holds the first item whose source occurs again. */
  ghost predicate FirstRepeated(s: seq<Item>, d: nat) {
    && d < |s|
    && (exists j :: 0 <= j < |s| && j != d && s[j].source == s[d].source)
    && (forall i, j :: 0 <= i < d && 0 <= j < |s| && i != j ==> s[i].source != s[j].source)
  }

  ghost predicate NoneRepeated(s: seq<Item>) {
    forall i, j :: 0 <= i < j < |s| ==> s[i].source != s[j].source
  }

  lemma FirstRepeatedTail(s: seq<Item>, d: nat)
    requires FirstRepeated(s, d) && d > 0
    ensures !Mentions(s[1..], s[0].source) && FirstRepeated(s[1..], d - 1)
  {
    var j :| 0 <= j < |s| && j != d && s[j].source == s[d].source;
    assert s[1..][j - 1].source == s[1..][d - 1].source;
  }

  lemma FirstRepeatedHead(s: seq<Item>)
    requires FirstRepeated(s, 0)
    ensures Mentions(s[1..], s[0].source)
  {
    var j :| 0 < j < |s| && s[j].source == s[0].source;
    assert s[1..][j - 1].source == s[0].source;
  }

  lemma CutBehindHead(s: seq<Item>, d: nat)
    requires 0 < d < |s|
    ensures s[..d] + s[d + 1..] == [s[0]] + (s[1..][..d - 1] + s[1..][d..])
  {
  }

  /** Dropping the first item of a repeated source takes the head of the drop sequence. */
  lemma {:induction false} DropFirstRepeated(s: seq<Item>, d: nat)
    requires FirstRepeated(s, d)
    ensures |Surplus(s)| > 0 && Strip(s, 1) == s[..d] + s[d + 1..]
  {
    var t := s[1..];
    if d == 0 {
      FirstRepeatedHead(s);
      assert Strip(s, 1) == t;
    } else {
      FirstRepeatedTail(s, d);
      DropFirstRepeated(t, d - 1);
      CutBehindHead(s, d);
    }
  }

  lemma {:induction false} DropNoneRepeated(s: seq<Item>)
    requires NoneRepeated(s)
    ensures Surplus(s) == [] && Protected(s) == s
  {
    if |s| > 0 {
      DropNoneRepeated(s[1..]);
    }
  }

  lemma {:induction false} SurplusRepeats(s: seq<Item>, i: nat, j: nat)
    requires i < j < |s| && s[i].source == s[j].source
    ensures |Surplus(s)| > 0
  {
    if i == 0 {
      assert s[1..][j - 1].source == s[0].source;
    } else {
      SurplusRepeats(s[1..], i - 1, j - 1);
    }
  }

  /** Putting x in front of the whole, and of one of two parts, keeps the parts complete. */
  lemma Regroup(x: Item, s: seq<Item>, a: seq<Item>, b: seq<Item>)
    requires multiset(s) == multiset(a) + multiset(b)
    ensures multiset([x] + s) == multiset([x] + a) + multiset(b)
    ensures multiset([x] + s) == multiset(a) + multiset([x] + b)
  {
  }

  /** Conservation: what remains and what was dropped make up the input, order included. */
  lemma {:induction false} StripMultiset(s: seq<Item>, n: nat)
    requires n <= |Surplus(s)|
    ensures multiset(s) == multiset(Strip(s, n)) + multiset(Surplus(s)[..n])
    decreases s, 1
  {
    if |s| == 0 || n == 0 {
      assert Surplus(s)[..n] == [];
    } else if Mentions(s[1..], s[0].source) {
      StripMultisetSurplus(s, n);
    } else {
      StripMultiset(s[1..], n);
      Regroup(s[0], s[1..], Strip(s[1..], n), Surplus(s[1..])[..n]);
      assert s == [s[0]] + s[1..];
    }
  }

  lemma {:induction false} StripMultisetSurplus(s: seq<Item>, n: nat)
    requires |s| > 0 && 0 < n <= |Surplus(s)| && Mentions(s[1..], s[0].source)
    ensures multiset(s) == multiset(Strip(s, n)) + multiset(Surplus(s)[..n])
    decreases s, 0
  {
    var tail, given := s[1..], Surplus(s[1..])[..n - 1];
    StripMultiset(tail, n - 1);
    Regroup(s[0], tail, Strip(tail, n - 1), given);
    assert s == [s[0]] + tail;
    PrefixBehindHead(s[0], Surplus(tail), n);
  }

  lemma PrefixBehindHead(x: Item, s: seq<Item>, n: nat)
    requires 0 < n <= |s| + 1
    ensures ([x] + s)[..n] == [x] + s[..n - 1]
  {
  }

  lemma RemainingMultiset(s: seq<Item>, n: nat)
    requires n <= |s|
    ensures multiset(s) == multiset(Remaining(s, n)) + multiset(DropSequence(s)[..n])
  {
    SurplusAndProtected(s);
    var k := |Surplus(s)|;
    if n <= k {
      StripMultiset(s, n);
      assert DropSequence(s)[..n] == Surplus(s)[..n];
    } else {
      StripMultiset(s, k);
      StripAll(s);
      assert Surplus(s)[..k] == Surplus(s);
      assert DropSequence(s)[..n] == Surplus(s) + Protected(s)[..n - k];
      assert Protected(s) == Protected(s)[..n - k] + Protected(s)[n - k..];
    }
  }

  lemma {:induction false} StripMembers(s: seq<Item>, n: nat)
    ensures forall x :: x in Strip(s, n) ==> x in s
  {
    if |s| > 0 && n > 0 {
      StripMembers(s[1..], if Mentions(s[1..], s[0].source) then n - 1 else n);
      assert forall x :: x in s[1..] ==> x in s;
    }
  }

  lemma RemainingMembers(s: seq<Item>, n: nat)
    requires n <= |s|
    ensures forall x :: x in Remaining(s, n) ==> x in s
  {
    SurplusAndProtected(s);
    StripAll(s);
    StripMembers(s, |Surplus(s)|);
    StripMembers(s, n);
  }

  /** Dropping keeps the order: what remains is a subsequence. */
  lemma {:induction false} StripOrdered(s: seq<Item>, n: nat)
    requires Ordered(ItemLess, s)
    ensures Ordered(ItemLess, Strip(s, n))
  {
    if |s| > 0 && n > 0 {
      if Mentions(s[1..], s[0].source) {
        StripOrdered(s[1..], n - 1);
      } else {
        StripOrdered(s[1..], n);
        StripMembers(s[1..], n);
        forall x | x in s[1..]
          ensures !ItemLess(x, s[0])
        {
          var i :| 0 <= i < |s[1..]| && s[1..][i] == x;
        }
      }
    }
  }

  lemma RemainingOrdered(s: seq<Item>, n: nat)
    requires Ordered(ItemLess, s) && n <= |s|
    ensures Ordered(ItemLess, Remaining(s, n))
  {
    SurplusAndProtected(s);
    StripAll(s);
    StripOrdered(s, |Surplus(s)|);
    StripOrdered(s, n);
  }

  /** The last item of a source. */
  function LatestOf(s: seq<Item>, kind: string): (r: Item)
    requires Mentions(s, kind)
    ensures r in s && r.source == kind
  {
    MentionsTail(s, kind);
    if Mentions(s[1..], kind) then LatestOf(s[1..], kind) else s[0]
  }

  lemma {:induction false} StripLatest(s: seq<Item>, n: nat, kind: string)
    requires n <= |Surplus(s)| && Mentions(s, kind)
    ensures Mentions(Strip(s, n), kind) && LatestOf(Strip(s, n), kind) == LatestOf(s, kind)
  {
    StripMentions(s, n, kind);
    if |s| > 0 && n > 0 {
      MentionsTail(s, kind);
      if Mentions(s[1..], s[0].source) {
        StripLatest(s[1..], n - 1, kind);
      } else {
        StripMentions(s[1..], n, kind);
        assert Strip(s, n)[1..] == Strip(s[1..], n);
        if Mentions(s[1..], kind) {
          StripLatest(s[1..], n, kind);
        }
      }
    }
  }

  lemma {:induction false} SuffixLatest(s: seq<Item>, n: nat, kind: string)
    requires n <= |s| && Mentions(s[n..], kind)
    ensures Mentions(s, kind) && LatestOf(s, kind) == LatestOf(s[n..], kind)
  {
    if n == 0 {
      assert s[n..] == s;
    } else {
      assert s[n..] == s[1..][n - 1..];
      SuffixLatest(s[1..], n - 1, kind);
      MentionsTail(s, kind);
    }
  }

  /** The protected items hold the newest item of each source. */
  lemma ProtectedLatest(s: seq<Item>, kind: string)
    ensures Mentions(Protected(s), kind) <==> Mentions(s, kind)
    ensures Mentions(s, kind) ==> Mentions(Protected(s), kind) && LatestOf(Protected(s), kind) == LatestOf(s, kind)
  {
    StripAll(s);
    StripMentions(s, |Surplus(s)|, kind);
    if Mentions(s, kind) {
      StripLatest(s, |Surplus(s)|, kind);
    }
  }

  /** What remains is a strip, or a tail of the protected items. */
  lemma RemainingShape(s: seq<Item>, n: nat) returns (k: nat)
    requires n <= |s|
    ensures n <= |Surplus(s)| ==> Remaining(s, n) == Strip(s, n)
    ensures n > |Surplus(s)| ==> k <= |Protected(s)| && Remaining(s, n) == Protected(s)[k..]
  {
    SurplusAndProtected(s);
    k := if n <= |Surplus(s)| then 0 else n - |Surplus(s)|;
  }

  lemma StripKeepsLatest(s: seq<Item>, n: nat, r: seq<Item>, kind: string)
    requires n <= |Surplus(s)| && r == Strip(s, n) && Mentions(r, kind)
    ensures Mentions(s, kind) && LatestOf(r, kind) == LatestOf(s, kind)
  {
    StripMentions(s, n, kind);
    StripLatest(s, n, kind);
  }

  lemma TailKeepsLatest(s: seq<Item>, k: nat, r: seq<Item>, kind: string)
    requires k <= |Protected(s)| && r == Protected(s)[k..] && Mentions(r, kind)
    ensures Mentions(s, kind) && LatestOf(r, kind) == LatestOf(s, kind)
  {
    SuffixLatest(Protected(s), k, kind);
    ProtectedLatest(s, kind);
  }

  /** A source that still has an item after n drops still has its newest one. */
  lemma RemainingKeepsLatest(s: seq<Item>, n: nat, kind: string)
    requires n <= |s| && Mentions(Remaining(s, n), kind)
    ensures Mentions(s, kind) && LatestOf(Remaining(s, n), kind) == LatestOf(s, kind)
  {
    var r := Remaining(s, n);
    var k := RemainingShape(s, n);
    if n <= |Surplus(s)| {
      StripKeepsLatest(s, n, r, kind);
    } else {
      TailKeepsLatest(s, k, r, kind);
    }
  }

  /** A source disappears only when every remaining source is down to one item. */
  lemma RemainingLosesSource(s: seq<Item>, n: nat, kind: string)
    requires n <= |s| && Mentions(s, kind) && !Mentions(Remaining(s, n), kind)
    ensures NoneRepeated(Remaining(s, n))
  {
    SurplusAndProtected(s);
    var k := |Surplus(s)|;
    if n <= k {
      StripMentions(s, n, kind);
    } else {
      ProtectedTail(s, n - k);
      var r := Remaining(s, n);
      forall i, j | 0 <= i < j < |r|
        ensures r[i].source != r[j].source
      {
        if r[i].source == r[j].source {
          SurplusRepeats(r, i, j);
        }
      }
    }
  }

  /** In an ordered sequence, the last item of a source is its newest. */
  lemma {:induction false} LatestIsNewest(s: seq<Item>, kind: string, x: Item)
    requires Ordered(ItemLess, s) && x in s && x.source == kind
    ensures Mentions(s, kind) && !ItemLess(LatestOf(s, kind), x)
  {
    MentionsTail(s, kind);
    if x in s[1..] {
      LatestIsNewest(s[1..], kind, x);
    } else {
      assert s == [s[0]] + s[1..];
      ItemLessOrder();
      if Mentions(s[1..], kind) {
        var j :| 0 <= j < |s[1..]| && s[1..][j] == LatestOf(s[1..], kind);
        assert s[j + 1] == LatestOf(s, kind);
      }
    }
  }

  /** The protected items, and everything from index c on. */
  function Fill(s: seq<Item>, c: nat): seq<Item>
    requires c <= |s|
  {
    if c == 0 then s
    else if Mentions(s[1..], s[0].source) then Fill(s[1..], c - 1)
    else [s[0]] + Fill(s[1..], c - 1)
  }

  lemma {:induction false} FillIsStrip(s: seq<Item>, c: nat)
    requires c <= |s|
    ensures |Protected(s)| <= |Fill(s, c)| <= |s|
    ensures |s| - |Fill(s, c)| <= |Surplus(s)|
    ensures Fill(s, c) == Strip(s, |s| - |Fill(s, c)|)
  {
    SurplusAndProtected(s);
    if c > 0 {
      FillIsStrip(s[1..], c - 1);
    }
  }

  lemma {:induction false} FillEnds(s: seq<Item>)
    ensures Fill(s, |s|) == Protected(s)
  {
    if |s| > 0 {
      FillEnds(s[1..]);
    }
  }

  /** Moving c down by one adds the item there, unless it is protected already. */
  lemma {:induction false} FillStep(s: seq<Item>, c: nat, x: Item)
    requires 0 < c <= |s|
    ensures x in Fill(s, c - 1) <==> x in Fill(s, c) || x == s[c - 1]
  {
    if c == 1 {
      assert s == [s[0]] + s[1..];
    } else {
      FillStep(s[1..], c - 1, x);
    }
  }

  lemma {:induction false} StripUniqueIds(s: seq<Item>, n: nat)
    requires UniqueIds(s)
    ensures UniqueIds(Strip(s, n))
    ensures forall x :: x in Strip(s, n) ==> x in s
  {
    StripMembers(s, n);
    if |s| > 0 && n > 0 {
      if Mentions(s[1..], s[0].source) {
        StripUniqueIds(s[1..], n - 1);
      } else {
        StripUniqueIds(s[1..], n);
        forall x | x in s[1..]
          ensures x.id != s[0].id
        {
          var i :| 0 <= i < |s[1..]| && s[1..][i] == x;
        }
      }
    }
  }

  lemma RemainingIsStrip(s: seq<Item>, n: nat)
    requires n <= |Surplus(s)|
    ensures n <= |s| && Remaining(s, n) == Strip(s, n)
  {
    SurplusAndProtected(s);
  }

  /** When fewer items stay than there are sources, they are the newest protected ones. */
  lemma RemainingIsProtectedTail(s: seq<Item>, k: nat)
    requires k < |Protected(s)|
    ensures k < |s| && Remaining(s, |s| - k) == LastK(Protected(s), k)
  {
    SurplusAndProtected(s);
    var p, n := |Protected(s)|, |s| - k;
    assert n - |Surplus(s)| == p - k > 0;
  }

  /** A fill that reached the limit with room for every source is the selection. */
  lemma FillOfRoom(s: seq<Item>, c: nat, k: nat)
    requires c <= |s| && |Fill(s, c)| <= k
    requires c == 0 || k <= |Fill(s, c)|
    ensures Fill(s, c) == Remaining(s, if |s| <= k then 0 else |s| - k)
  {
    FillIsStrip(s, c);
    RemainingIsStrip(s, |s| - |Fill(s, c)|);
  }

  /** A fill that is over the limit holds the protected items only. */
  lemma FillOverLimit(s: seq<Item>, c: nat)
    requires c <= |s| && |Fill(s, c)| <= |Protected(s)|
    ensures Fill(s, c) == Protected(s)
  {
    FillIsStrip(s, c);
    SurplusAndProtected(s);
    StripAll(s);
  }

  /** The newest-k cut of a fill that cannot grow further is k items of the drop sequence's end. */
  lemma {:induction false} FillSelects(s: seq<Item>, c: nat, k: nat)
    requires c <= |s|
    requires c == 0 || k <= |Fill(s, c)|
    requires |Fill(s, c)| <= |Protected(s)| || |Fill(s, c)| <= k
    ensures LastK(Fill(s, c), k) == Remaining(s, if |s| <= k then 0 else |s| - k)
  {
    if |Fill(s, c)| <= k {
      FillOfRoom(s, c, k);
    } else {
      FillOverLimit(s, c);
      RemainingIsProtectedTail(s, k);
    }
  }
}
