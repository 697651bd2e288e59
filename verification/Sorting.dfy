/** Stable sorting by a comparator, as the program uses it through Go's sort package, and the
    laws that every caller relies on: a stable sort is unique, and the newest-k suffix of a
    union can be computed from the newest-j suffixes of its parts. */
module Sorting {

  ghost predicate Distinct<T>(s: seq<T>) {
    forall i, j :: 0 <= i < j < |s| ==> s[i] != s[j]
  }

  /** What sort.SliceStable asks of a comparator. */
  ghost predicate StrictWeakOrder<T(!new)>(less: (T, T) -> bool) {
    && (forall a :: !less(a, a))
    && (forall a, b, c :: less(a, b) && less(b, c) ==> less(a, c))
    && (forall a, b, c :: less(a, b) ==> less(a, c) || less(c, b))
  }

  /** The comparator separates any two different elements of s. */
  ghost predicate Separates<T>(less: (T, T) -> bool, s: seq<T>) {
    forall a, b :: a in s && b in s ==> less(a, b) || less(b, a) || a == b
  }

  ghost predicate Ordered<T>(less: (T, T) -> bool, s: seq<T>) {
    forall i, j :: 0 <= i < j < |s| ==> !less(s[j], s[i])
  }

  function Insert<T>(less: (T, T) -> bool, s: seq<T>, x: T): (r: seq<T>)
    ensures |r| == |s| + 1
  {
    if |s| == 0 || !less(x, s[|s| - 1]) then s + [x]
    else Insert(less, s[..|s| - 1], x) + [s[|s| - 1]]
  }

  /** The stable sort: each element goes behind everything it is not less than. */
  function Sort<T>(less: (T, T) -> bool, s: seq<T>): (r: seq<T>)
    ensures |r| == |s|
  {
    if |s| == 0 then [] else Insert(less, Sort(less, s[..|s| - 1]), s[|s| - 1])
  }

  lemma FrontLast<T>(s: seq<T>)
    requires |s| > 0
    ensures s == s[..|s| - 1] + [s[|s| - 1]]
    ensures multiset(s) == multiset(s[..|s| - 1]) + multiset{s[|s| - 1]}
  {
    assert s == s[..|s| - 1] + [s[|s| - 1]];
  }

  lemma {:induction false} InsertMultiset<T>(less: (T, T) -> bool, s: seq<T>, x: T)
    ensures multiset(Insert(less, s, x)) == multiset(s) + multiset{x}
  {
    if |s| > 0 && less(x, s[|s| - 1]) {
      InsertMultiset(less, s[..|s| - 1], x);
      FrontLast(s);
    }
  }

  /** Sorting loses and invents nothing. */
  lemma {:induction false} SortMultiset<T>(less: (T, T) -> bool, s: seq<T>)
    ensures multiset(Sort(less, s)) == multiset(s)
  {
    if |s| > 0 {
      SortMultiset(less, s[..|s| - 1]);
      InsertMultiset(less, Sort(less, s[..|s| - 1]), s[|s| - 1]);
      FrontLast(s);
    }
  }

  lemma {:induction false} InsertOrdered<T(!new)>(less: (T, T) -> bool, s: seq<T>, x: T)
    requires StrictWeakOrder(less) && Ordered(less, s)
    ensures Ordered(less, Insert(less, s, x))
  {
    if s != [] && less(x, s[|s| - 1]) {
      var last := s[|s| - 1];
      var front := Insert(less, s[..|s| - 1], x);
      InsertOrdered(less, s[..|s| - 1], x);
      InsertMultiset(less, s[..|s| - 1], x);
      forall i | 0 <= i < |front|
        ensures !less(last, front[i])
      {
        assert front[i] in multiset(front);
        assert front[i] == x || front[i] in s[..|s| - 1];
      }
    }
  }

  lemma {:induction false} SortOrdered<T(!new)>(less: (T, T) -> bool, s: seq<T>)
    requires StrictWeakOrder(less)
    ensures Ordered(less, Sort(less, s))
  {
    if s != [] {
      SortOrdered(less, s[..|s| - 1]);
      InsertOrdered(less, Sort(less, s[..|s| - 1]), s[|s| - 1]);
    }
  }

  /** The elements that tie with x, in the order in which they occur. */
  function Ties<T(!new)>(less: (T, T) -> bool, s: seq<T>, x: T): (r: seq<T>)
    ensures forall y :: y in r <==> y in s && !less(x, y) && !less(y, x)
  {
    if |s| == 0 then
      []
    else
      var last := s[|s| - 1];
      assert s == s[..|s| - 1] + [last];
      Ties(less, s[..|s| - 1], x) + if less(x, last) || less(last, x) then [] else [last]
  }

  /** x alone, if it ties with y. */
  function TieOf<T>(less: (T, T) -> bool, x: T, y: T): seq<T> {
    if less(y, x) || less(x, y) then [] else [x]
  }

  lemma TiesAppend<T(!new)>(less: (T, T) -> bool, s: seq<T>, x: T, y: T)
    ensures Ties(less, s + [x], y) == Ties(less, s, y) + TieOf(less, x, y)
  {
    assert (s + [x])[..|s|] == s;
  }

  /** Elements that do not tie with each other do not both tie with y. */
  lemma TieOfOne<T(!new)>(less: (T, T) -> bool, x: T, z: T, y: T)
    requires StrictWeakOrder(less) && less(x, z)
    ensures TieOf(less, x, y) + TieOf(less, z, y) == TieOf(less, z, y) + TieOf(less, x, y)
  {
    assert less(x, y) || less(y, z);
  }

  lemma AppendBoth<T>(a: seq<T>, b: seq<T>, c: seq<T>)
    requires b + c == c + b
    ensures a + b + c == a + c + b
  {
    assert a + b + c == a + (b + c) && a + c + b == a + (c + b);
  }

  /** Appending a later element to both sides. */
  lemma InsertTiesStep<T(!new)>(less: (T, T) -> bool, inserted: seq<T>, front: seq<T>, last: T, x: T, y: T)
    requires StrictWeakOrder(less) && less(x, last)
    requires Ties(less, inserted, y) == Ties(less, front, y) + TieOf(less, x, y)
    ensures Ties(less, inserted + [last], y) == Ties(less, front + [last], y) + TieOf(less, x, y)
  {
    TiesAppend(less, inserted, last, y);
    TiesAppend(less, front, last, y);
    TieOfOne(less, x, last, y);
    AppendBoth(Ties(less, front, y), TieOf(less, x, y), TieOf(less, last, y));
  }

  lemma {:induction false} InsertTies<T(!new)>(less: (T, T) -> bool, s: seq<T>, x: T, y: T)
    requires StrictWeakOrder(less)
    ensures Ties(less, Insert(less, s, x), y) == Ties(less, s, y) + TieOf(less, x, y)
  {
    if |s| == 0 || !less(x, s[|s| - 1]) {
      TiesAppend(less, s, x, y);
    } else {
      var front, last := s[..|s| - 1], s[|s| - 1];
      assert front + [last] == s;
      InsertTies(less, front, x, y);
      InsertTiesStep(less, Insert(less, front, x), front, last, x, y);
    }
  }

  /** Sorting the last element in keeps the tie groups of s if sorting the rest did. */
  lemma StableStep<T(!new)>(less: (T, T) -> bool, sorted: seq<T>, s: seq<T>, y: T)
    requires StrictWeakOrder(less) && |s| > 0 && Ties(less, sorted, y) == Ties(less, s[..|s| - 1], y)
    ensures Ties(less, Insert(less, sorted, s[|s| - 1]), y) == Ties(less, s, y)
  {
    InsertTies(less, sorted, s[|s| - 1], y);
  }

  /** Stability: sorting never reorders elements that tie. */
  lemma {:induction false} SortStable<T(!new)>(less: (T, T) -> bool, s: seq<T>, y: T)
    requires StrictWeakOrder(less)
    ensures Ties(less, Sort(less, s), y) == Ties(less, s, y)
  {
    if |s| > 0 {
      SortStable(less, s[..|s| - 1], y);
      StableStep(less, Sort(less, s[..|s| - 1]), s, y);
    }
  }

  /** s and t hold the same tie groups, each in the same order. */
  ghost predicate SameTies<T(!new)>(less: (T, T) -> bool, s: seq<T>, t: seq<T>) {
    forall x :: Ties(less, s, x) == Ties(less, t, x)
  }

  /** Nothing in an ordered sequence is greater than its last element. */
  lemma LastIsGreatest<T(!new)>(less: (T, T) -> bool, s: seq<T>, x: T)
    requires StrictWeakOrder(less) && Ordered(less, s)
    requires x in s
    ensures !less(s[|s| - 1], x)
  {
    var i :| 0 <= i < |s| && s[i] == x;
  }

  lemma SameTiesLast<T(!new)>(less: (T, T) -> bool, s: seq<T>, t: seq<T>)
    requires StrictWeakOrder(less)
    requires Ordered(less, s) && Ordered(less, t)
    requires SameTies(less, s, t) && s != []
    ensures t != [] && s[|s| - 1] == t[|t| - 1]
  {
    var x := s[|s| - 1];
    assert x in Ties(less, s, x);
    assert x in Ties(less, t, x);
    var y := t[|t| - 1];
    assert y in Ties(less, t, y);
    assert y in Ties(less, s, y);
    LastIsGreatest(less, s, y);
    LastIsGreatest(less, t, x);
    var ts, tt := Ties(less, s, x), Ties(less, t, x);
    assert ts == tt && ts[|ts| - 1] == x && tt[|tt| - 1] == y;
  }

  lemma TiesFront<T(!new)>(less: (T, T) -> bool, s: seq<T>, x: T)
    requires s != []
    ensures var r, last := Ties(less, s, x), s[|s| - 1];
            Ties(less, s[..|s| - 1], x) == if less(x, last) || less(last, x) then r else r[..|r| - 1]
  {
  }

  lemma SameTiesFront<T(!new)>(less: (T, T) -> bool, s: seq<T>, t: seq<T>)
    requires SameTies(less, s, t)
    requires s != [] && t != [] && s[|s| - 1] == t[|t| - 1]
    ensures SameTies(less, s[..|s| - 1], t[..|t| - 1])
  {
    var s1, t1 := s[..|s| - 1], t[..|t| - 1];
    forall x
      ensures Ties(less, s1, x) == Ties(less, t1, x)
    {
      assert Ties(less, s, x) == Ties(less, t, x);
      TiesFront(less, s, x);
      TiesFront(less, t, x);
    }
  }

  /** An ordered sequence is determined by the tie groups it holds. */
  lemma {:induction false} OrderedUnique<T(!new)>(less: (T, T) -> bool, s: seq<T>, t: seq<T>)
    requires StrictWeakOrder(less)
    requires Ordered(less, s) && Ordered(less, t)
    requires SameTies(less, s, t)
    ensures s == t
  {
    if s == [] {
      if t != [] {
        SameTiesLast(less, t, s);
      }
    } else {
      SameTiesLast(less, s, t);
      SameTiesFront(less, s, t);
      OrderedUnique(less, s[..|s| - 1], t[..|t| - 1]);
      assert s == s[..|s| - 1] + [s[|s| - 1]] && t == t[..|t| - 1] + [t[|t| - 1]];
    }
  }

  /** Whatever is ordered, and keeps every tie group of s as it was, is Sort(less, s). */
  lemma {:induction false} StableSortUnique<T(!new)>(less: (T, T) -> bool, s: seq<T>, t: seq<T>)
    requires StrictWeakOrder(less)
    ensures t == Sort(less, s) <==> Ordered(less, t) && SameTies(less, t, s)
  {
    SortOrdered(less, s);
    forall x {:trigger Ties(less, s, x)}
      ensures Ties(less, Sort(less, s), x) == Ties(less, s, x)
    {
      SortStable(less, s, x);
    }
    if Ordered(less, t) && SameTies(less, t, s) {
      assert SameTies(less, t, Sort(less, s));
      OrderedUnique(less, t, Sort(less, s));
    }
  }

  lemma MultisetCancel<T>(a: multiset<T>, b: multiset<T>, x: T)
    requires a + multiset{x} == b + multiset{x}
    ensures a == b
  {
    assert a == a + multiset{x} - multiset{x};
    assert b == b + multiset{x} - multiset{x};
  }

  lemma PermutationLast<T(!new)>(less: (T, T) -> bool, s: seq<T>, t: seq<T>)
    requires StrictWeakOrder(less) && Separates(less, s)
    requires Ordered(less, s) && Ordered(less, t)
    requires multiset(s) == multiset(t) && s != [] && t != []
    ensures s[|s| - 1] == t[|t| - 1]
  {
    var x, y := s[|s| - 1], t[|t| - 1];
    assert x in multiset(t) && y in multiset(s);
    LastIsGreatest(less, s, y);
    LastIsGreatest(less, t, x);
  }

  /** When no two different elements tie, an ordered sequence is determined by its multiset. */
  lemma {:induction false} OrderedPermutation<T(!new)>(less: (T, T) -> bool, s: seq<T>, t: seq<T>)
    requires StrictWeakOrder(less) && Separates(less, s)
    requires Ordered(less, s) && Ordered(less, t)
    requires multiset(s) == multiset(t)
    ensures s == t
  {
    if s == [] || t == [] {
      assert |s| == |multiset(s)| && |t| == |multiset(t)|;
    } else {
      PermutationLast(less, s, t);
      FrontLast(s);
      FrontLast(t);
      MultisetCancel(multiset(s[..|s| - 1]), multiset(t[..|t| - 1]), s[|s| - 1]);
      OrderedPermutation(less, s[..|s| - 1], t[..|t| - 1]);
    }
  }

  lemma {:induction false} DistinctCounts<T>(s: seq<T>, x: T)
    requires Distinct(s)
    ensures multiset(s)[x] == if x in s then 1 else 0
  {
    if |s| > 0 {
      FrontLast(s);
      DistinctCounts(s[..|s| - 1], x);
    }
  }

  lemma RepeatCounts<T>(s: seq<T>, i: nat, j: nat)
    requires i < j < |s| && s[i] == s[j]
    ensures multiset(s)[s[i]] >= 2
  {
    assert s == s[..i] + [s[i]] + s[i + 1..j] + [s[j]] + s[j + 1..];
  }

  lemma DistinctPermutation<T>(s: seq<T>, t: seq<T>)
    requires Distinct(s) && multiset(s) == multiset(t)
    ensures Distinct(t)
    ensures forall x :: x in s <==> x in t
  {
    forall x
      ensures x in s <==> x in t
    {
      assert x in s <==> x in multiset(s);
      assert x in t <==> x in multiset(t);
    }
    forall i, j | 0 <= i < j < |t|
      ensures t[i] != t[j]
    {
      DistinctCounts(s, t[i]);
      if t[i] == t[j] {
        RepeatCounts(t, i, j);
      }
    }
  }

  lemma DistinctSameElements<T>(s: seq<T>, t: seq<T>)
    requires Distinct(s) && Distinct(t)
    requires forall x :: x in s <==> x in t
    ensures multiset(s) == multiset(t) && |s| == |t|
  {
    forall x
      ensures multiset(s)[x] == multiset(t)[x]
    {
      DistinctCounts(s, x);
      DistinctCounts(t, x);
    }
    assert multiset(s) == multiset(t);
    assert |s| == |multiset(s)| && |t| == |multiset(t)|;
  }

  lemma SortPermutation<T(!new)>(less: (T, T) -> bool, s: seq<T>, t: seq<T>)
    requires StrictWeakOrder(less) && Separates(less, s)
    requires multiset(s) == multiset(t)
    ensures Sort(less, s) == Sort(less, t)
  {
    SortOrdered(less, s);
    SortOrdered(less, t);
    SortMultiset(less, s);
    SortMultiset(less, t);
    forall x | x in Sort(less, s)
      ensures x in s
    {
      assert x in multiset(Sort(less, s));
    }
    OrderedPermutation(less, Sort(less, s), Sort(less, t));
  }

  lemma {:induction false} SortOfOrdered<T>(less: (T, T) -> bool, s: seq<T>)
    requires Ordered(less, s)
    ensures Sort(less, s) == s
  {
    if |s| > 0 {
      var front := s[..|s| - 1];
      SortOfOrdered(less, front);
      assert |front| > 0 ==> front[|front| - 1] == s[|s| - 2];
      assert Insert(less, front, s[|s| - 1]) == front + [s[|s| - 1]];
      assert s == front + [s[|s| - 1]];
    }
  }

  /** The last k elements, or all of them when there are fewer. */
  function LastK<T>(s: seq<T>, k: nat): seq<T> {
    if |s| <= k then s else s[|s| - k..]
  }

  /** The last k of a sorted sequence: nothing left out sorts after anything kept. */
  lemma LastKOfSort<T(!new)>(less: (T, T) -> bool, s: seq<T>, k: nat) returns (dropped: seq<T>)
    requires StrictWeakOrder(less)
    ensures multiset(s) == multiset(dropped) + multiset(LastK(Sort(less, s), k))
    ensures Ordered(less, dropped + LastK(Sort(less, s), k))
  {
    var sorted, kept := Sort(less, s), LastK(Sort(less, s), k);
    dropped := sorted[..|sorted| - |kept|];
    assert sorted == dropped + kept;
    SortMultiset(less, s);
    SortOrdered(less, s);
  }

  /** The stable merge of two ordered runs; a tie takes from s first. */
  function Merge<T>(less: (T, T) -> bool, s: seq<T>, t: seq<T>): (r: seq<T>)
    ensures |r| == |s| + |t|
    decreases |s| + |t|
  {
    if |t| == 0 then s
    else if |s| == 0 then t
    else if less(t[|t| - 1], s[|s| - 1]) then Merge(less, s[..|s| - 1], t) + [s[|s| - 1]]
    else Merge(less, s, t[..|t| - 1]) + [t[|t| - 1]]
  }

  lemma {:induction false} InsertIntoMerge<T(!new)>(less: (T, T) -> bool, s: seq<T>, t: seq<T>, x: T)
    requires StrictWeakOrder(less)
    ensures Insert(less, Merge(less, s, t), x) == Merge(less, s, Insert(less, t, x))
    decreases |s| + |t|
  {
    var r := Insert(less, t, x);
    if t != [] && less(x, t[|t| - 1]) {
      assert r[..|r| - 1] == Insert(less, t[..|t| - 1], x) && r[|r| - 1] == t[|t| - 1];
      if s != [] && less(t[|t| - 1], s[|s| - 1]) {
        assert Merge(less, s, t)[..|s| + |t| - 1] == Merge(less, s[..|s| - 1], t);
        InsertIntoMerge(less, s[..|s| - 1], t, x);
      } else {
        if s != [] {
          assert Merge(less, s, t)[..|s| + |t| - 1] == Merge(less, s, t[..|t| - 1]);
        }
        InsertIntoMerge(less, s, t[..|t| - 1], x);
      }
    } else {
      assert r[..|r| - 1] == t;
      if s != [] && less(x, s[|s| - 1]) {
        InsertIntoMerge(less, s[..|s| - 1], t, x);
        if t != [] {
          assert Merge(less, s, t)[..|s| + |t| - 1] == Merge(less, s[..|s| - 1], t);
        }
      }
    }
  }

  lemma {:induction false} SortConcat<T(!new)>(less: (T, T) -> bool, s: seq<T>, t: seq<T>)
    requires StrictWeakOrder(less)
    ensures Sort(less, s + t) == Merge(less, Sort(less, s), Sort(less, t))
  {
    if t == [] {
      assert s + t == s;
    } else {
      SortConcat(less, s, t[..|t| - 1]);
      assert (s + t)[..|s + t| - 1] == s + t[..|t| - 1];
      InsertIntoMerge(less, Sort(less, s), Sort(less, t[..|t| - 1]), t[|t| - 1]);
    }
  }

  /** The last k of the merge of the first a of s and the first b of t, read off from the end. */
  function TopMerge<T>(less: (T, T) -> bool, s: seq<T>, a: nat, t: seq<T>, b: nat, k: nat): seq<T>
    requires a <= |s| && b <= |t|
    decreases k
  {
    if k == 0 then []
    else if b == 0 then LastK(s[..a], k)
    else if a == 0 then LastK(t[..b], k)
    else if less(t[b - 1], s[a - 1]) then TopMerge(less, s, a - 1, t, b, k - 1) + [s[a - 1]]
    else TopMerge(less, s, a, t, b - 1, k - 1) + [t[b - 1]]
  }

  lemma LastKAppend<T>(s: seq<T>, x: T, k: nat)
    requires k > 0
    ensures LastK(s + [x], k) == LastK(s, k - 1) + [x]
  {
  }

  lemma MergeTakesLeft<T>(less: (T, T) -> bool, s: seq<T>, a: nat, t: seq<T>, b: nat)
    requires 0 < a <= |s| && 0 < b <= |t| && less(t[b - 1], s[a - 1])
    ensures Merge(less, s[..a], t[..b]) == Merge(less, s[..a - 1], t[..b]) + [s[a - 1]]
  {
    assert s[..a][..a - 1] == s[..a - 1];
  }

  lemma MergeTakesRight<T>(less: (T, T) -> bool, s: seq<T>, a: nat, t: seq<T>, b: nat)
    requires 0 < a <= |s| && 0 < b <= |t| && !less(t[b - 1], s[a - 1])
    ensures Merge(less, s[..a], t[..b]) == Merge(less, s[..a], t[..b - 1]) + [t[b - 1]]
  {
    assert t[..b][..b - 1] == t[..b - 1];
  }

  /** TopMerge from the given lengths is the last k of that merge. */
  ghost predicate IsLastK<T>(less: (T, T) -> bool, s: seq<T>, a: nat, t: seq<T>, b: nat, k: nat)
    requires a <= |s| && b <= |t|
  {
    TopMerge(less, s, a, t, b, k) == LastK(Merge(less, s[..a], t[..b]), k)
  }

  lemma LastKTakesLeft<T>(less: (T, T) -> bool, s: seq<T>, a: nat, t: seq<T>, b: nat, k: nat)
    requires 0 < a <= |s| && 0 < b <= |t| && 0 < k && less(t[b - 1], s[a - 1])
    requires IsLastK(less, s, a - 1, t, b, k - 1)
    ensures IsLastK(less, s, a, t, b, k)
  {
    MergeTakesLeft(less, s, a, t, b);
    LastKAppend(Merge(less, s[..a - 1], t[..b]), s[a - 1], k);
  }

  lemma LastKTakesRight<T>(less: (T, T) -> bool, s: seq<T>, a: nat, t: seq<T>, b: nat, k: nat)
    requires 0 < a <= |s| && 0 < b <= |t| && 0 < k && !less(t[b - 1], s[a - 1])
    requires IsLastK(less, s, a, t, b - 1, k - 1)
    ensures IsLastK(less, s, a, t, b, k)
  {
    MergeTakesRight(less, s, a, t, b);
    LastKAppend(Merge(less, s[..a], t[..b - 1]), t[b - 1], k);
  }

  lemma TopMergeOfNothing<T>(less: (T, T) -> bool, s: seq<T>, a: nat, t: seq<T>, b: nat, k: nat)
    requires a <= |s| && b <= |t| && (k == 0 || a == 0 || b == 0)
    ensures IsLastK(less, s, a, t, b, k)
  {
    if k == 0 {
      assert LastK(Merge(less, s[..a], t[..b]), 0) == [];
    }
  }

  lemma {:induction false} TopMergeIsLastK<T>(less: (T, T) -> bool, s: seq<T>, a: nat, t: seq<T>, b: nat, k: nat)
    requires a <= |s| && b <= |t|
    ensures IsLastK(less, s, a, t, b, k)
    decreases k
  {
    if k == 0 || a == 0 || b == 0 {
      TopMergeOfNothing(less, s, a, t, b, k);
    } else if less(t[b - 1], s[a - 1]) {
      TopMergeIsLastK(less, s, a - 1, t, b, k - 1);
      LastKTakesLeft(less, s, a, t, b, k);
    } else {
      TopMergeIsLastK(less, s, a, t, b - 1, k - 1);
      LastKTakesRight(less, s, a, t, b, k);
    }
  }

  lemma TopMergeOfAll<T>(less: (T, T) -> bool, s: seq<T>, t: seq<T>, k: nat)
    ensures TopMerge(less, s, |s|, t, |t|, k) == LastK(Merge(less, s, t), k)
  {
    TopMergeIsLastK(less, s, |s|, t, |t|, k);
    assert s[..|s|] == s && t[..|t|] == t;
  }

  lemma LastKOfCut<T>(s: seq<T>, o: nat, a: nat, k: nat)
    requires o <= a <= |s| && k <= a - o
    ensures LastK(s[o..][..a - o], k) == LastK(s[..a], k)
  {
    assert s[o..][..a - o] == s[o..a];
  }

  /** Cutting off a front of s that the last k cannot reach changes nothing. */
  lemma {:induction false} TopMergeCutLeft<T>(
      less: (T, T) -> bool, s: seq<T>, a: nat, o: nat, t: seq<T>, b: nat, k: nat)
    requires o <= a <= |s| && b <= |t| && k <= a - o
    ensures TopMerge(less, s[o..], a - o, t, b, k) == TopMerge(less, s, a, t, b, k)
    decreases k
  {
    if k > 0 {
      if b == 0 {
        LastKOfCut(s, o, a, k);
      } else if less(t[b - 1], s[a - 1]) {
        TopMergeCutLeft(less, s, a - 1, o, t, b, k - 1);
      } else {
        TopMergeCutLeft(less, s, a, o, t, b - 1, k - 1);
      }
    }
  }

  /** The same for a front of t. */
  lemma {:induction false} TopMergeCutRight<T>(
      less: (T, T) -> bool, s: seq<T>, a: nat, t: seq<T>, b: nat, u: nat, k: nat)
    requires a <= |s| && u <= b <= |t| && k <= b - u
    ensures TopMerge(less, s, a, t[u..], b - u, k) == TopMerge(less, s, a, t, b, k)
    decreases k
  {
    if k > 0 {
      if a == 0 {
        LastKOfCut(t, u, b, k);
      } else if less(t[b - 1], s[a - 1]) {
        TopMergeCutRight(less, s, a - 1, t, b, u, k - 1);
      } else {
        TopMergeCutRight(less, s, a, t, b - 1, u, k - 1);
      }
    }
  }

  lemma TopMergeCutS<T>(less: (T, T) -> bool, s: seq<T>, o: nat, s1: seq<T>, t: seq<T>, k: nat)
    requires o <= |s| && (o == 0 || k <= |s| - o) && s1 == s[o..]
    ensures TopMerge(less, s1, |s1|, t, |t|, k) == TopMerge(less, s, |s|, t, |t|, k)
  {
    if o > 0 {
      TopMergeCutLeft(less, s, |s|, o, t, |t|, k);
    } else {
      assert s1 == s;
    }
  }

  lemma TopMergeCutT<T>(less: (T, T) -> bool, s: seq<T>, t: seq<T>, u: nat, t1: seq<T>, k: nat)
    requires u <= |t| && (u == 0 || k <= |t| - u) && t1 == t[u..]
    ensures TopMerge(less, s, |s|, t1, |t1|, k) == TopMerge(less, s, |s|, t, |t|, k)
  {
    if u > 0 {
      TopMergeCutRight(less, s, |s|, t, |t|, u, k);
    } else {
      assert t1 == t;
    }
  }

  /** The last k of a merge depend only on the last k of each run. */
  lemma LastKOfMerge<T>(less: (T, T) -> bool, s: seq<T>, t: seq<T>, i: nat, j: nat, k: nat)
    requires k <= i && k <= j
    ensures LastK(Merge(less, LastK(s, i), LastK(t, j)), k) == LastK(Merge(less, s, t), k)
  {
    var s1, t1 := LastK(s, i), LastK(t, j);
    LastKIsDrop(s, i);
    LastKIsDrop(t, j);
    TopMergeCutS(less, s, if |s| <= i then 0 else |s| - i, s1, t1, k);
    TopMergeCutT(less, s, t, if |t| <= j then 0 else |t| - j, t1, k);
    TopMergeOfAll(less, s, t, k);
    TopMergeOfAll(less, s1, t1, k);
  }

  lemma LastKIsDrop<T>(s: seq<T>, k: nat)
    ensures LastK(s, k) == s[if |s| <= k then 0 else |s| - k..]
  {
  }

  /** Where x goes: behind the last element it is not less than. */
  lemma {:induction false} InsertPosition<T>(less: (T, T) -> bool, s: seq<T>, i: nat, x: T)
    requires i <= |s|
    requires i == 0 || !less(x, s[i - 1])
    requires forall k :: i <= k < |s| ==> less(x, s[k])
    ensures Insert(less, s, x) == s[..i] + [x] + s[i..]
  {
    if i < |s| {
      var front := s[..|s| - 1];
      InsertPosition(less, front, i, x);
      assert front[..i] == s[..i] && s[i..] == front[i..] + [s[|s| - 1]];
    }
  }

  /** Moves everything that a[n] is less than one place to the right; i is the place it leaves. */
  method ShiftRight<T>(a: array<T>, less: (T, T) -> bool, n: nat) returns (i: nat)
    requires n < a.Length
    modifies a
    ensures i <= n && (i == 0 || !less(old(a[n]), old(a[i - 1])))
    ensures forall k :: 0 <= k < i || n < k < a.Length ==> a[k] == old(a[k])
    ensures forall k :: i <= k < n ==> a[k + 1] == old(a[k]) && less(old(a[n]), old(a[k]))
  {
    var x := a[n];
    i := n;
    while i > 0 && less(x, a[i - 1])
      invariant i <= n
      invariant forall k :: 0 <= k < i || n < k < a.Length ==> a[k] == old(a[k])
      invariant forall k :: i <= k < n ==> a[k + 1] == old(a[k]) && less(x, old(a[k]))
    {
      a[i] := a[i - 1];
      i := i - 1;
    }
  }

  /** What shifting and storing does to the contents. */
  lemma Inserted<T>(less: (T, T) -> bool, before: seq<T>, after: seq<T>, n: nat, i: nat)
    requires |before| == |after| && i <= n < |before| && after[i] == before[n]
    requires forall k :: 0 <= k < i || n < k < |before| ==> after[k] == before[k]
    requires forall k :: i <= k < n ==> after[k + 1] == before[k] && less(before[n], before[k])
    requires i == 0 || !less(before[n], before[i - 1])
    ensures after[..n + 1] == Insert(less, before[..n], before[n]) && after[n + 1..] == before[n + 1..]
  {
    InsertPosition(less, before[..n], i, before[n]);
    assert after[..n + 1] == before[..n][..i] + [before[n]] + before[..n][i..];
  }

  /** One insertion step: a[n] moves left past everything it is less than. */
  method InsertInPlace<T>(a: array<T>, less: (T, T) -> bool, n: nat)
    requires n < a.Length
    modifies a
    ensures a[..n + 1] == Insert(less, old(a[..n]), old(a[n]))
    ensures a[n + 1..] == old(a[n + 1..])
  {
    ghost var before := a[..];
    var x := a[n];
    var i := ShiftRight(a, less, n);
    a[i] := x;
    ghost var after := a[..];
    assert forall k :: 0 <= k < a.Length ==> after[k] == a[k] && before[k] == old(a[k]);
    Inserted(less, before, after, n, i);
    assert a[..n + 1] == after[..n + 1] && before[..n] == old(a[..n]);
    assert a[n + 1..] == after[n + 1..] && before[n + 1..] == old(a[n + 1..]);
  }

  /** sort.SliceStable on a slice, as in-place insertion. */
  method StableSort<T>(a: array<T>, less: (T, T) -> bool)
    modifies a
    ensures a[..] == Sort(less, old(a[..]))
  {
    ghost var was := a[..];
    for n := 0 to a.Length
      invariant a[..n] == Sort(less, was[..n])
      invariant a[n..] == was[n..]
    {
      assert was[..n + 1][..n] == was[..n] && a[n] == was[n..][0];
      InsertInPlace(a, less, n);
      assert was[n + 1..] == was[n..][1..];
    }
    assert a[..a.Length] == a[..] && was[..a.Length] == was;
  }

  /** sort.Strings and friends on a slice the caller has just built. */
  method SortedCopy<T>(s: seq<T>, less: (T, T) -> bool) returns (r: seq<T>)
    ensures r == Sort(less, s)
  {
    var a := new T[|s|](i requires 0 <= i < |s| => s[i]);
    assert a[..] == s;
    StableSort(a, less);
    r := a[..];
  }
}
