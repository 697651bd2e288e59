/** Redaction: every rule marks its matches in one bitmap over the original text, and each
    maximal marked run is replaced by one marker. A string stands for Go's byte string. */
module Redaction {

  const REPLACEMENT := "[REDACTED]"

  // ---------------------------------------------------------------- the exact-rule scan

  predicate Occurs(s: string, ex: string, p: nat) {
    p + |ex| <= |s| && s[p..p + |ex|] == ex
  }

  /** The starts that the non-overlapping scan finds from offset on. */
  function ScanStarts(s: string, ex: string, offset: nat): seq<nat>
    requires |ex| > 0
    decreases |s| - offset
  {
    if offset + |ex| > |s| then []
    else if Occurs(s, ex, offset) then [offset] + ScanStarts(s, ex, offset + |ex|)
    else ScanStarts(s, ex, offset + 1)
  }

  /** Byte i lies in the match at one of the starts. */
  ghost predicate StartsCover(starts: seq<nat>, len: nat, i: int) {
    exists k :: 0 <= k < |starts| && starts[k] <= i < starts[k] + len
  }

  lemma StartsCoverAppend(starts: seq<nat>, start: nat, len: nat, i: int)
    ensures StartsCover(starts + [start], len, i) <==> StartsCover(starts, len, i) || start <= i < start + len
  {
    var more := starts + [start];
    if StartsCover(starts, len, i) {
      var k :| 0 <= k < |starts| && starts[k] <= i < starts[k] + len;
      assert more[k] == starts[k];
    }
    assert more[|starts|] == start;
  }

  /** The scan for ex marks byte i. */
  ghost predicate ScanCovers(s: string, ex: string, i: int) {
    |ex| > 0 && StartsCover(ScanStarts(s, ex, 0), |ex|, i)
  }

  /** strings.Index on s[offset:], as an index into s; -1 when there is none. */
  method IndexFrom(s: string, ex: string, offset: nat) returns (p: int)
    requires |ex| > 0 && offset + |ex| <= |s|
    ensures p == -1 || offset <= p
    ensures p == -1 ==> ScanStarts(s, ex, offset) == []
    ensures p != -1 ==> Occurs(s, ex, p) && ScanStarts(s, ex, offset) == [p] + ScanStarts(s, ex, p + |ex|)
    ensures forall q :: offset <= q && (p == -1 || q < p) ==> !Occurs(s, ex, q)
  {
    p := offset;
    while p + |ex| <= |s|
      invariant offset <= p
      invariant ScanStarts(s, ex, p) == ScanStarts(s, ex, offset)
      invariant forall q :: offset <= q < p ==> !Occurs(s, ex, q)
      decreases |s| - p
    {
      if s[p..p + |ex|] == ex {
        return;
      }
      p := p + 1;
    }
    p := -1;
  }

  // ---------------------------------------------------------------- the bitmap

  function CountTrue(m: seq<bool>): nat {
    if |m| == 0 then 0 else CountTrue(m[..|m| - 1]) + if m[|m| - 1] then 1 else 0
  }

  lemma {:induction false} CountTrueBound(m: seq<bool>)
    ensures CountTrue(m) <= |m|
    ensures CountTrue(m) == |m| <==> forall i :: 0 <= i < |m| ==> m[i]
  {
    if |m| > 0 {
      var front := m[..|m| - 1];
      CountTrueBound(front);
      assert forall i :: 0 <= i < |front| ==> front[i] == m[i];
    }
  }

  lemma {:induction false} CountTrueSet(m: seq<bool>, i: nat)
    requires i < |m| && !m[i]
    ensures CountTrue(m[i := true]) == CountTrue(m) + 1
  {
    var n := |m| - 1;
    if i < n {
      CountTrueSet(m[..n], i);
      assert m[i := true][..n] == m[..n][i := true];
    } else {
      assert m[i := true][..n] == m[..n];
    }
  }

  /** A match with these bounds marks byte i; bounds outside the text mark nothing. */
  predicate Marks(n: nat, start: int, end: int, i: int) {
    0 <= start <= i < end <= n
  }

  /** The mark closure. */
  method Mark(redacted: array<bool>, covered: nat, start: int, end: int) returns (now: nat)
    requires covered == CountTrue(redacted[..])
    modifies redacted
    ensures forall i :: 0 <= i < redacted.Length ==>
              (redacted[i] <==> old(redacted[i]) || Marks(redacted.Length, start, end, i))
    ensures now == CountTrue(redacted[..])
  {
    now := covered;
    if start < 0 || end > redacted.Length || start >= end {
      return;
    }
    for i := start to end
      invariant forall j :: 0 <= j < redacted.Length ==> (redacted[j] <==> old(redacted[j]) || start <= j < i)
      invariant now == CountTrue(redacted[..])
    {
      if !redacted[i] {
        CountTrueSet(redacted[..], i);
        ghost var was := redacted[..];
        redacted[i] := true;
        assert redacted[..] == was[i := true];
        now := now + 1;
      }
    }
  }

  /** The scan so far has marked the matches at the starts in done, and the rest is to come. */
  ghost predicate Scanned(s: string, ex: string, offset: nat, done: seq<nat>, was: seq<bool>, m: seq<bool>)
    requires |ex| > 0
  {
    && |m| == |was| == |s|
    && ScanStarts(s, ex, 0) == done + ScanStarts(s, ex, offset)
    && forall i :: 0 <= i < |s| ==> (m[i] <==> was[i] || StartsCover(done, |ex|, i))
  }

  lemma ScannedStep(
      s: string, ex: string, offset: nat, done: seq<nat>, was: seq<bool>, m: seq<bool>, start: nat, m': seq<bool>)
    requires |ex| > 0 && Scanned(s, ex, offset, done, was, m)
    requires start + |ex| <= |s| && ScanStarts(s, ex, offset) == [start] + ScanStarts(s, ex, start + |ex|)
    requires |m'| == |s| && forall i :: 0 <= i < |s| ==> (m'[i] <==> m[i] || Marks(|s|, start, start + |ex|, i))
    ensures Scanned(s, ex, start + |ex|, done + [start], was, m')
  {
    forall i | 0 <= i < |s|
      ensures m'[i] <==> was[i] || StartsCover(done + [start], |ex|, i)
    {
      StartsCoverAppend(done, start, |ex|, i);
    }
    assert done + ([start] + ScanStarts(s, ex, start + |ex|)) == (done + [start]) + ScanStarts(s, ex, start + |ex|);
  }

  /** Once no start is left, the marks added are those of the whole scan. */
  lemma ScannedAll(s: string, ex: string, offset: nat, done: seq<nat>, was: seq<bool>, m: seq<bool>)
    requires |ex| > 0 && Scanned(s, ex, offset, done, was, m) && ScanStarts(s, ex, offset) == []
    ensures forall i :: 0 <= i < |s| ==> (m[i] <==> was[i] || ScanCovers(s, ex, i))
  {
    assert done + [] == done;
  }

  lemma ScannedNothing(s: string, ex: string, was: seq<bool>)
    requires |ex| > 0 && |was| == |s|
    ensures Scanned(s, ex, 0, [], was, was)
  {
    assert [] + ScanStarts(s, ex, 0) == ScanStarts(s, ex, 0);
  }

  /** Marks the next match of the scan. */
  method MarkMatch(s: string, ex: string, redacted: array<bool>, covered: nat, start: nat,
                   ghost offset: nat, ghost done: seq<nat>, ghost was: seq<bool>) returns (now: nat)
    requires |ex| > 0 && redacted.Length == |s| && covered == CountTrue(redacted[..])
    requires Scanned(s, ex, offset, done, was, redacted[..])
    requires start + |ex| <= |s| && ScanStarts(s, ex, offset) == [start] + ScanStarts(s, ex, start + |ex|)
    modifies redacted
    ensures Scanned(s, ex, start + |ex|, done + [start], was, redacted[..])
    ensures now == CountTrue(redacted[..])
  {
    ghost var m := redacted[..];
    now := Mark(redacted, covered, start, start + |ex|);
    ScannedStep(s, ex, offset, done, was, m, start, redacted[..]);
  }

  /** The next start of the scan; -1 when there is none. */
  method NextStart(s: string, ex: string, offset: nat) returns (p: int)
    requires |ex| > 0 && offset + |ex| <= |s|
    ensures p == -1 ==> ScanStarts(s, ex, offset) == []
    ensures p != -1 ==> offset <= p && p + |ex| <= |s|
    ensures p != -1 ==> ScanStarts(s, ex, offset) == [p] + ScanStarts(s, ex, p + |ex|)
  {
    p := IndexFrom(s, ex, offset);
  }

  /** Looks for the next match from offset on and marks it; next is where the scan goes on. */
  method ScanNext(s: string, ex: string, redacted: array<bool>, covered: nat, offset: nat,
                  ghost done: seq<nat>, ghost was: seq<bool>)
      returns (found: bool, now: nat, next: nat, ghost more: seq<nat>)
    requires |ex| > 0 && redacted.Length == |s| && covered == CountTrue(redacted[..])
    requires offset + |ex| <= |s| && Scanned(s, ex, offset, done, was, redacted[..])
    modifies redacted
    ensures Scanned(s, ex, next, more, was, redacted[..]) && now == CountTrue(redacted[..])
    ensures if found then offset < next else ScanStarts(s, ex, next) == []
  {
    var start := NextStart(s, ex, offset);
    if start < 0 {
      return false, covered, offset, done;
    }
    now := MarkMatch(s, ex, redacted, covered, start, offset, done, was);
    return true, now, start + |ex|, done + [start];
  }

  /** The scanning loop; was is the bitmap it starts from. */
  method MarkScan(s: string, ex: string, redacted: array<bool>, covered: nat, ghost was: seq<bool>)
      returns (now: nat)
    requires |ex| > 0 && redacted.Length == |s| && covered == CountTrue(redacted[..]) && was == redacted[..]
    modifies redacted
    ensures forall i :: 0 <= i < |s| ==> (redacted[..][i] <==> was[i] || ScanCovers(s, ex, i))
    ensures now == CountTrue(redacted[..])
  {
    now := covered;
    var offset: nat := 0;
    ghost var done: seq<nat> := [];
    ScannedNothing(s, ex, was);
    while offset <= |s| - |ex|
      invariant Scanned(s, ex, offset, done, was, redacted[..])
      invariant now == CountTrue(redacted[..])
      decreases |s| - offset
    {
      var found;
      found, now, offset, done := ScanNext(s, ex, redacted, now, offset, done, was);
      if !found {
        break;
      }
    }
    ScannedAll(s, ex, offset, done, was, redacted[..]);
  }

  /** One exact rule: it marks exactly what its scan covers, on top of what was marked. */
  method MarkExact(s: string, ex: string, redacted: array<bool>, covered: nat) returns (now: nat)
    requires |ex| > 0 && redacted.Length == |s| && covered == CountTrue(redacted[..])
    modifies redacted
    ensures forall i :: 0 <= i < |s| ==> (redacted[i] <==> old(redacted[i]) || ScanCovers(s, ex, i))
    ensures now == CountTrue(redacted[..])
  {
    ghost var was := redacted[..];
    now := MarkScan(s, ex, redacted, covered, was);
    forall i | 0 <= i < |s|
      ensures redacted[i] <==> old(redacted[i]) || ScanCovers(s, ex, i)
    {
      assert redacted[..][i] == redacted[i] && was[i] == old(redacted[i]);
    }
  }

  type Locs = seq<(int, int)>

  /** Some match of one regular expression marks byte i. */
  ghost predicate LocsCover(n: nat, locs: Locs, i: int) {
    exists k :: 0 <= k < |locs| && Marks(n, locs[k].0, locs[k].1, i)
  }

  method MarkLocs(locs: Locs, redacted: array<bool>, covered: nat) returns (now: nat)
    requires covered == CountTrue(redacted[..])
    modifies redacted
    ensures forall i :: 0 <= i < redacted.Length ==>
              (redacted[i] <==> old(redacted[i]) || LocsCover(redacted.Length, locs, i))
    ensures now == CountTrue(redacted[..])
  {
    now := covered;
    for m := 0 to |locs|
      invariant forall i :: 0 <= i < redacted.Length ==>
                  (redacted[i] <==>
                     old(redacted[i]) || exists k :: 0 <= k < m && Marks(redacted.Length, locs[k].0, locs[k].1, i))
      invariant now == CountTrue(redacted[..])
    {
      if locs[m].1 > locs[m].0 {
        now := Mark(redacted, now, locs[m].0, locs[m].1);
      }
    }
  }

  /** One of the first n exact rules marks byte i. */
  ghost predicate ExactCovers(s: string, exact: seq<string>, n: nat, i: int)
    requires n <= |exact|
  {
    exists r :: 0 <= r < n && ScanCovers(s, exact[r], i)
  }

  /** One of the first n regular expressions marks byte i. */
  ghost predicate RegexCovers(s: string, matches: seq<Locs>, n: nat, i: int)
    requires n <= |matches|
  {
    exists r :: 0 <= r < n && LocsCover(|s|, matches[r], i)
  }

  /** The specification of the bitmap: the union of all matches of all rules, each taken on the
      original text. matches lists what each regular expression finds in s. */
  ghost predicate Covered(s: string, exact: seq<string>, matches: seq<Locs>, i: int) {
    ExactCovers(s, exact, |exact|, i) || RegexCovers(s, matches, |matches|, i)
  }

  ghost function Mask(s: string, exact: seq<string>, matches: seq<Locs>): (m: seq<bool>)
    ensures |m| == |s|
    ensures forall i :: 0 <= i < |s| ==> (m[i] <==> Covered(s, exact, matches, i))
  {
    seq(|s|, i => Covered(s, exact, matches, i))
  }

  lemma AllTrue(m: seq<bool>)
    requires CountTrue(m) == |m|
    ensures forall i :: 0 <= i < |m| ==> m[i]
  {
    CountTrueBound(m);
  }

  /** The exact rules in turn, stopping once every byte is covered. */
  method MarkAllExact(s: string, exact: seq<string>, redacted: array<bool>) returns (covered: nat)
    requires redacted.Length == |s| && forall i :: 0 <= i < |s| ==> !redacted[i]
    modifies redacted
    ensures covered == CountTrue(redacted[..])
    ensures forall i :: 0 <= i < |s| ==> (redacted[i] <==> ExactCovers(s, exact, |exact|, i))
  {
    covered := 0;
    NoneTrue(redacted[..]);
    for r := 0 to |exact|
      invariant covered == CountTrue(redacted[..])
      invariant forall i :: 0 <= i < |s| ==> (redacted[i] <==> ExactCovers(s, exact, r, i))
    {
      if exact[r] == "" {
        continue;
      }
      covered := MarkExact(s, exact[r], redacted, covered);
      if covered == |s| {
        AllTrue(redacted[..]);
        break;
      }
    }
  }

  /** The regular expressions in turn, with the same early exit. */
  method MarkAllRegex(s: string, exact: seq<string>, matches: seq<Locs>, redacted: array<bool>, was: nat)
    requires redacted.Length == |s| && was == CountTrue(redacted[..])
    requires forall i :: 0 <= i < |s| ==> (redacted[i] <==> ExactCovers(s, exact, |exact|, i))
    modifies redacted
    ensures forall i :: 0 <= i < |s| ==> (redacted[i] <==> Covered(s, exact, matches, i))
  {
    var covered := was;
    for r := 0 to |matches|
      invariant covered == CountTrue(redacted[..])
      invariant forall i :: 0 <= i < |s| ==>
                  (redacted[i] <==> ExactCovers(s, exact, |exact|, i) || RegexCovers(s, matches, r, i))
    {
      if covered == |s| {
        AllTrue(redacted[..]);
        break;
      }
      covered := MarkLocs(matches[r], redacted, covered);
    }
  }

  /** The bitmap after all rules is the specified one, early exits and all. */
  method MarkAll(s: string, exact: seq<string>, matches: seq<Locs>) returns (redacted: array<bool>)
    ensures fresh(redacted) && redacted[..] == Mask(s, exact, matches)
  {
    redacted := new bool[|s|](i => false);
    var covered := MarkAllExact(s, exact, redacted);
    MarkAllRegex(s, exact, matches, redacted, covered);
  }

  lemma {:induction false} NoneTrue(m: seq<bool>)
    requires forall i :: 0 <= i < |m| ==> !m[i]
    ensures CountTrue(m) == 0
  {
    if |m| > 0 {
      NoneTrue(m[..|m| - 1]);
    }
  }

  // ---------------------------------------------------------------- what the bitmap holds

  /** Every match of every regular expression is marked from its first to its last byte. */
  lemma MatchesAreMarked(s: string, exact: seq<string>, matches: seq<Locs>, r: nat, k: nat, i: nat)
    requires r < |matches| && k < |matches[r]|
    requires 0 <= matches[r][k].0 <= i < matches[r][k].1 <= |s|
    ensures Mask(s, exact, matches)[i]
  {
    assert LocsCover(|s|, matches[r], i);
  }

  /** Every start of the scan is an occurrence. */
  lemma {:induction false} ScanFindsOnlyOccurrences(s: string, ex: string, offset: nat)
    requires |ex| > 0
    ensures forall k :: 0 <= k < |ScanStarts(s, ex, offset)| ==> Occurs(s, ex, ScanStarts(s, ex, offset)[k])
    decreases |s| - offset
  {
    if offset + |ex| <= |s| {
      ScanFindsOnlyOccurrences(s, ex, if Occurs(s, ex, offset) then offset + |ex| else offset + 1);
    }
  }

  /** Byte i lies in a match of a regular expression within the text, in words of the matches alone. */
  ghost predicate InMatch(n: nat, matches: seq<Locs>, i: nat) {
    exists r, k :: 0 <= r < |matches| && 0 <= k < |matches[r]|
      && 0 <= matches[r][k].0 <= i < matches[r][k].1 <= n
  }

  /** Byte i lies in the text ex, which stands at p. */
  predicate StandsAt(s: string, ex: string, p: nat, i: nat) {
    p <= i < p + |ex| <= |s| && s[p..p + |ex|] == ex
  }

  /** Byte i lies in an occurrence of an exact rule, in words of the text alone. */
  ghost predicate InOccurrence(s: string, exact: seq<string>, i: nat) {
    exists r, p: nat :: 0 <= r < |exact| && StandsAt(s, exact[r], p, i)
  }

  /** Nothing else is marked: every marked byte lies in a match or in an occurrence. */
  lemma MarkedIsMatched(s: string, exact: seq<string>, matches: seq<Locs>, i: nat)
    requires i < |s| && Mask(s, exact, matches)[i]
    ensures InMatch(|s|, matches, i) || InOccurrence(s, exact, i)
  {
    if ExactCovers(s, exact, |exact|, i) {
      var r :| 0 <= r < |exact| && ScanCovers(s, exact[r], i);
      var starts := ScanStarts(s, exact[r], 0);
      var k :| 0 <= k < |starts| && starts[k] <= i < starts[k] + |exact[r]|;
      ScanFindsOnlyOccurrences(s, exact[r], 0);
      assert StandsAt(s, exact[r], starts[k], i);
    } else {
      var r :| 0 <= r < |matches| && LocsCover(|s|, matches[r], i);
      var k :| 0 <= k < |matches[r]| && Marks(|s|, matches[r][k].0, matches[r][k].1, i);
      assert 0 <= matches[r][k].0 <= i < matches[r][k].1 <= |s|;
    }
  }

  // ---------------------------------------------------------------- the output

  /** Index i begins a maximal marked run. */
  predicate StartsRun(m: seq<bool>, i: nat)
    requires i < |m|
  {
    m[i] && (i == 0 || !m[i - 1])
  }

  /** The text from i on: unmarked bytes as they are, and one marker where a run begins. */
  function Render(s: string, m: seq<bool>, i: nat): string
    requires |m| == |s| && i <= |s|
    decreases |s| - i
  {
    if i == |s| then ""
    else if !m[i] then [s[i]] + Render(s, m, i + 1)
    else if StartsRun(m, i) then REPLACEMENT + Render(s, m, i + 1)
    else Render(s, m, i + 1)
  }

  /** The number of runs that begin at i or later. */
  function Runs(m: seq<bool>, i: nat): nat
    requires i <= |m|
    decreases |m| - i
  {
    if i == |m| then 0 else (if StartsRun(m, i) then 1 else 0) + Runs(m, i + 1)
  }

  /** The body of a run adds nothing to the output. */
  lemma {:induction false} RenderRun(s: string, m: seq<bool>, i: nat, j: nat)
    requires |m| == |s| && 0 < i <= j <= |s|
    requires forall k :: i - 1 <= k < j ==> m[k]
    ensures Render(s, m, i) == Render(s, m, j) && Runs(m, i) == Runs(m, j)
    decreases j - i
  {
    if i < j {
      RenderRun(s, m, i + 1, j);
    }
  }

  /** The first index from start on that is not marked. */
  method EndOfRun(redacted: array<bool>, start: nat) returns (i: nat)
    requires start < redacted.Length && redacted[start]
    ensures start < i <= redacted.Length && (i < redacted.Length ==> !redacted[i])
    ensures forall k :: start <= k < i ==> redacted[k]
  {
    i := start;
    while i < redacted.Length && redacted[i]
      invariant start <= i <= redacted.Length
      invariant forall k :: start <= k < i ==> redacted[k]
    {
      i := i + 1;
    }
  }

  /** A run is rendered as one marker and counted once. */
  lemma RunRendered(s: string, m: seq<bool>, start: nat, end: nat)
    requires |m| == |s| && start < end <= |s| && StartsRun(m, start)
    requires forall k :: start <= k < end ==> m[k]
    ensures Render(s, m, start) == REPLACEMENT + Render(s, m, end) && Runs(m, start) == 1 + Runs(m, end)
  {
    assert Render(s, m, start) == REPLACEMENT + Render(s, m, start + 1) && Runs(m, start) == 1 + Runs(m, start + 1);
    RenderRun(s, m, start + 1, end);
  }

  /** Up to index i the output is out, followed by the text from last on that is still to be copied. */
  ghost predicate Emitted(s: string, m: seq<bool>, i: nat, out: string, regions: nat, last: nat) {
    && |m| == |s| && last <= i <= |s|
    && out + s[last..i] + Render(s, m, i) == Render(s, m, 0)
    && regions + Runs(m, i) == Runs(m, 0)
    && (regions == 0 ==> out == "" && last == 0)
  }

  lemma EmittedCopy(s: string, m: seq<bool>, i: nat, out: string, regions: nat, last: nat)
    requires Emitted(s, m, i, out, regions, last) && i < |s| && !m[i]
    ensures Emitted(s, m, i + 1, out, regions, last)
  {
    assert s[last..i + 1] == s[last..i] + [s[i]];
    assert Render(s, m, i) == [s[i]] + Render(s, m, i + 1);
    assert out + s[last..i] + ([s[i]] + Render(s, m, i + 1)) == out + (s[last..i] + [s[i]]) + Render(s, m, i + 1);
  }

  lemma EmittedRun(s: string, m: seq<bool>, start: nat, end: nat, out: string, regions: nat, last: nat)
    requires Emitted(s, m, start, out, regions, last)
    requires start < end <= |s| && StartsRun(m, start) && forall k :: start <= k < end ==> m[k]
    ensures Emitted(s, m, end, out + s[last..start] + REPLACEMENT, regions + 1, end)
  {
    RunRendered(s, m, start, end);
    assert s[end..end] == "";
    var o := out + s[last..start];
    assert o + (REPLACEMENT + Render(s, m, end)) == (o + REPLACEMENT) + s[end..end] + Render(s, m, end);
  }

  /** The output loop: it copies the gaps between runs, writes one marker for each run, and
      counts the runs. */
  method Emit(s: string, redacted: array<bool>) returns (out: string, regions: nat, last: nat)
    requires redacted.Length == |s|
    ensures last <= |s|
    ensures out + s[last..] == Render(s, redacted[..], 0)
    ensures regions == Runs(redacted[..], 0)
    ensures regions == 0 ==> out == "" && last == 0
  {
    ghost var m := redacted[..];
    out, regions, last := "", 0, 0;
    var i := 0;
    EmittedNothing(s, m);
    while i < redacted.Length
      invariant 0 <= i <= |s| && Emitted(s, m, i, out, regions, last)
      invariant i < |s| && m[i] ==> StartsRun(m, i)
      decreases |s| - i
    {
      if !redacted[i] {
        EmittedCopy(s, m, i, out, regions, last);
        i := i + 1;
        continue;
      }
      var start := i;
      i := EndOfRun(redacted, start);
      EmittedRun(s, m, start, i, out, regions, last);
      out := out + s[last..start] + REPLACEMENT;
      last := i;
      regions := regions + 1;
    }
    assert s[last..i] == s[last..];
  }

  lemma EmittedNothing(s: string, m: seq<bool>)
    requires |m| == |s|
    ensures Emitted(s, m, 0, "", 0, 0)
  {
    assert "" + s[0..0] + Render(s, m, 0) == Render(s, m, 0);
  }

  /** Apply on the rules' matches. sanitize stands for SanitizeControl. */
  method Apply(s: string, exact: seq<string>, matches: seq<Locs>, sanitize: string -> string)
      returns (out: string, regions: nat)
    ensures s == "" ==> out == "" && regions == 0
    ensures s != "" ==>
              var m := Mask(s, exact, matches);
              out == sanitize(Render(s, m, 0)) && regions == Runs(m, 0)
  {
    if s == "" {
      return "", 0;
    }
    var redacted := MarkAll(s, exact, matches);
    var last;
    out, regions, last := Emit(s, redacted);
    if regions == 0 {
      assert s[0..] == s && out + s[last..] == s;
      return sanitize(s), 0;
    }
    out := sanitize(out + s[last..]);
  }

  // ---------------------------------------------------------------- what the output is

  /** Without marks the output is the text. */
  lemma {:induction false} RenderPlain(s: string, m: seq<bool>, i: nat)
    requires |m| == |s| && i <= |s| && forall k :: i <= k < |s| ==> !m[k]
    ensures Render(s, m, i) == s[i..] && Runs(m, i) == 0
    decreases |s| - i
  {
    if i < |s| {
      RenderPlain(s, m, i + 1);
      assert s[i..] == [s[i]] + s[i + 1..];
    }
  }

  /** What rendering does first at i, and the rest. */
  function FirstOf(s: string, m: seq<bool>, i: nat): string
    requires |m| == |s| && i < |s|
  {
    if !m[i] then [s[i]] else if StartsRun(m, i) then REPLACEMENT else ""
  }

  lemma RenderFirst(s: string, m: seq<bool>, i: nat)
    requires |m| == |s| && i < |s|
    ensures Render(s, m, i) == FirstOf(s, m, i) + Render(s, m, i + 1)
    ensures Runs(m, i) == (if StartsRun(m, i) then 1 else 0) + Runs(m, i + 1)
  {
  }

  /** Behind an unmarked byte, rendering the whole from there is rendering the rest alone. */
  lemma {:induction false} RenderShift(s: string, m: seq<bool>, o: nat, i: nat)
    requires |m| == |s| && o <= i <= |s| && (o < |s| && o > 0 ==> !m[o] || !m[o - 1])
    ensures Render(s, m, i) == Render(s[o..], m[o..], i - o) && Runs(m, i) == Runs(m[o..], i - o)
    decreases |s| - i
  {
    if i < |s| {
      RenderShift(s, m, o, i + 1);
      ShiftStep(s, m, s[o..], m[o..], o, i);
    }
  }

  lemma ShiftStep(s: string, m: seq<bool>, s': string, m': seq<bool>, o: nat, i: nat)
    requires |m| == |s| && o <= i < |s| && (o > 0 ==> !m[o] || !m[o - 1]) && s' == s[o..] && m' == m[o..]
    requires Render(s, m, i + 1) == Render(s', m', i + 1 - o) && Runs(m, i + 1) == Runs(m', i + 1 - o)
    ensures Render(s, m, i) == Render(s', m', i - o) && Runs(m, i) == Runs(m', i - o)
  {
    assert s'[i - o] == s[i] && m'[i - o] == m[i] && (i > o ==> m'[i - o - 1] == m[i - 1]);
    RenderFirst(s, m, i);
    RenderFirst(s', m', i - o);
  }

  /** Rendering up to a does not look beyond. */
  lemma {:induction false} RenderPrefix(s: string, m: seq<bool>, a: nat, i: nat)
    requires |m| == |s| && i <= a <= |s|
    ensures Render(s, m, i) == Render(s[..a], m[..a], i) + Render(s, m, a)
    ensures Runs(m, i) == Runs(m[..a], i) + Runs(m, a)
    decreases a - i
  {
    if i < a {
      RenderPrefix(s, m, a, i + 1);
      PrefixStep(s, m, s[..a], m[..a], i, Render(s, m, a), Runs(m, a));
    }
  }

  /** One step of both, where the shorter text agrees with the longer one. */
  lemma PrefixStep(s: string, m: seq<bool>, s': string, m': seq<bool>, i: nat, tail: string, runs: nat)
    requires |m| == |s| && |m'| == |s'| && i < |s'| <= |s| && s' == s[..|s'|] && m' == m[..|s'|]
    requires Render(s, m, i + 1) == Render(s', m', i + 1) + tail && Runs(m, i + 1) == Runs(m', i + 1) + runs
    ensures Render(s, m, i) == Render(s', m', i) + tail && Runs(m, i) == Runs(m', i) + runs
  {
    assert FirstOf(s', m', i) == FirstOf(s, m, i);
    RenderFirst(s, m, i);
    RenderFirst(s', m', i);
    Regroup(FirstOf(s, m, i), Render(s', m', i + 1), tail);
  }

  lemma Regroup(a: string, b: string, c: string)
    ensures a + (b + c) == a + b + c
  {
  }

  /** What the output is, run by run: a maximal marked run is one marker, and what stands before it
      and behind it is rendered by itself. */
  lemma RenderSplits(s: string, m: seq<bool>, a: nat, b: nat)
    requires |m| == |s| && a < b <= |s| && forall k :: a <= k < b ==> m[k]
    requires (a == 0 || !m[a - 1]) && (b == |s| || !m[b])
    ensures Render(s, m, 0) == Render(s[..a], m[..a], 0) + REPLACEMENT + Render(s[b..], m[b..], 0)
    ensures Runs(m, 0) == Runs(m[..a], 0) + 1 + Runs(m[b..], 0)
  {
    RenderPrefix(s, m, a, 0);
    RunRendered(s, m, a, b);
    RenderShift(s, m, b, b);
    Regroup(Render(s[..a], m[..a], 0), REPLACEMENT, Render(s[b..], m[b..], 0));
  }

  // ---------------------------------------------------------------- what redaction guarantees

  /** Texts of one length that agree on every unmarked byte have the same output: nothing of
      what was marked shows in the result. */
  lemma {:induction false} RenderIgnoresMarked(s: string, t: string, m: seq<bool>, i: nat)
    requires |m| == |s| == |t| && i <= |s|
    requires forall k :: 0 <= k < |s| && !m[k] ==> s[k] == t[k]
    ensures Render(s, m, i) == Render(t, m, i)
    decreases |s| - i
  {
    if i < |s| {
      RenderIgnoresMarked(s, t, m, i + 1);
    }
  }

  /** The unmarked bytes all survive, and each run costs one marker. */
  lemma {:induction false} RenderLength(s: string, m: seq<bool>, i: nat)
    requires |m| == |s| && i <= |s|
    ensures |Render(s, m, i)| + CountTrue(m[i..]) == |s| - i + Runs(m, i) * |REPLACEMENT|
    decreases |s| - i
  {
    if i < |s| {
      RenderLength(s, m, i + 1);
      CountTrueHead(m[i..]);
      assert m[i..][1..] == m[i + 1..];
    }
  }

  lemma {:induction false} CountTrueHead(m: seq<bool>)
    requires |m| > 0
    ensures CountTrue(m) == (if m[0] then 1 else 0) + CountTrue(m[1..])
  {
    if |m| > 1 {
      CountTrueHead(m[..|m| - 1]);
      assert m[..|m| - 1][1..] == m[1..][..|m| - 2];
    }
  }

  /** Every occurrence the scan starts from offset on is covered, or begins inside a match. */
  lemma {:induction false} ScanFindsOccurrence(s: string, ex: string, offset: nat, p: nat)
    requires |ex| > 0 && offset <= p && Occurs(s, ex, p)
    ensures exists k :: 0 <= k < |ScanStarts(s, ex, offset)|
              && var q := ScanStarts(s, ex, offset)[k]; offset <= q <= p < q + |ex| && Occurs(s, ex, q)
    decreases |s| - offset
  {
    var starts := ScanStarts(s, ex, offset);
    if Occurs(s, ex, offset) {
      assert starts[0] == offset;
      if offset + |ex| <= p {
        ScanFindsOccurrence(s, ex, offset + |ex|, p);
        var rest := ScanStarts(s, ex, offset + |ex|);
        var k :| 0 <= k < |rest| && rest[k] <= p < rest[k] + |ex| && offset + |ex| <= rest[k] && Occurs(s, ex, rest[k]);
        assert starts[k + 1] == rest[k];
      }
    } else {
      ScanFindsOccurrence(s, ex, offset + 1, p);
    }
  }

  /** The first byte of every occurrence of an exact rule is redacted, overlapping occurrences
      included, so no occurrence survives whole. */
  lemma FirstByteRedacted(s: string, exact: seq<string>, matches: seq<Locs>, r: nat, p: nat)
    requires r < |exact| && exact[r] != "" && p + |exact[r]| <= |s| && s[p..p + |exact[r]|] == exact[r]
    ensures p < |s| && Mask(s, exact, matches)[p]
  {
    ScanFindsOccurrence(s, exact[r], 0, p);
    assert ScanCovers(s, exact[r], p);
  }

  /** Where each byte of the rendering comes from: a byte of the text, or a marker. */
  datatype Origin = Copied(index: nat) | FromMarker

  function Markers(n: nat): (r: seq<Origin>)
    ensures |r| == n && forall k :: 0 <= k < n ==> r[k] == FromMarker
  {
    seq(n, _ => FromMarker)
  }

  /** Render once more, with origins for bytes. */
  function Origins(m: seq<bool>, i: nat): seq<Origin>
    requires i <= |m|
    decreases |m| - i
  {
    if i == |m| then []
    else if !m[i] then [Copied(i)] + Origins(m, i + 1)
    else if StartsRun(m, i) then Markers(|REPLACEMENT|) + Origins(m, i + 1)
    else Origins(m, i + 1)
  }

  /** At k, a copied byte is an unmarked byte of the text, from i on. */
  ghost predicate OriginOk(s: string, m: seq<bool>, i: nat, k: nat, out: string, from: seq<Origin>)
    requires |m| == |s| && k < |out| == |from|
  {
    from[k].Copied? ==> i <= from[k].index < |s| && out[k] == s[from[k].index] && !m[from[k].index]
  }

  lemma {:induction false} OriginAt(s: string, m: seq<bool>, i: nat, k: nat)
    requires |m| == |s| && i <= |s|
    ensures |Origins(m, i)| == |Render(s, m, i)|
    ensures k < |Origins(m, i)| ==> OriginOk(s, m, i, k, Render(s, m, i), Origins(m, i))
    decreases |s| - i
  {
    if i < |s| {
      var head := if !m[i] then 1 else if StartsRun(m, i) then |REPLACEMENT| else 0;
      OriginAt(s, m, i + 1, if k < head then 0 else k - head);
    }
  }

  /** The first copied byte, unless a marker comes before it, is the first byte from i on. */
  lemma {:induction false} OriginFirst(m: seq<bool>, i: nat)
    requires i <= |m| && |Origins(m, i)| > 0 && Origins(m, i)[0].Copied?
    requires i > 0 ==> !m[i - 1]
    ensures Origins(m, i)[0].index == i
  {
  }

  /** Copied bytes that follow each other in the output do so in the text: every run between two
      unmarked bytes leaves a marker between them. */
  lemma {:induction false} OriginNext(m: seq<bool>, i: nat, k: nat)
    requires i <= |m| && k + 1 < |Origins(m, i)|
    requires Origins(m, i)[k].Copied? && Origins(m, i)[k + 1].Copied?
    ensures Origins(m, i)[k + 1].index == Origins(m, i)[k].index + 1
    decreases |m| - i
  {
    var rest := Origins(m, i + 1);
    if !m[i] {
      if k == 0 {
        OriginFirst(m, i + 1);
      } else {
        OriginNext(m, i + 1, k - 1);
      }
    } else {
      OriginNext(m, i + 1, if StartsRun(m, i) then k - |REPLACEMENT| else k);
    }
  }

  /** No byte of the output comes from a match of a regular expression. */
  lemma CopiedIsNoMatch(s: string, exact: seq<string>, matches: seq<Locs>, q: nat)
    requires q < |Origins(Mask(s, exact, matches), 0)| && Origins(Mask(s, exact, matches), 0)[q].Copied?
    ensures var p := Origins(Mask(s, exact, matches), 0)[q].index;
            && p < |s| && |Render(s, Mask(s, exact, matches), 0)| == |Origins(Mask(s, exact, matches), 0)|
            && Render(s, Mask(s, exact, matches), 0)[q] == s[p]
            && !InMatch(|s|, matches, p)
  {
    var m, p := Mask(s, exact, matches), Origins(Mask(s, exact, matches), 0)[q].index;
    OriginAt(s, m, 0, q);
    if r, k :| 0 <= r < |matches| && 0 <= k < |matches[r]| && 0 <= matches[r][k].0 <= p < matches[r][k].1 <= |s| {
      MatchesAreMarked(s, exact, matches, r, k, p);
    }
  }

  /** Every unmarked byte is in the output. */
  lemma {:induction false} UnmarkedIsCopied(m: seq<bool>, i: nat, p: nat)
    requires i <= p < |m| && !m[p]
    ensures Copied(p) in Origins(m, i)
    decreases |m| - i
  {
    if i < p {
      UnmarkedIsCopied(m, i + 1, p);
    }
  }

  /** Copied bytes in a row are bytes in a row of the text. */
  lemma {:induction false} OriginRun(m: seq<bool>, q: nat, k: nat)
    requires q <= k < |Origins(m, 0)|
    requires forall j :: q <= j <= k ==> Origins(m, 0)[j].Copied?
    ensures Origins(m, 0)[k].index == Origins(m, 0)[q].index + (k - q)
  {
    if q < k {
      OriginRun(m, q, k - 1);
      OriginNext(m, 0, k - 1);
    }
  }

  /** The output byte at k belongs to a marker. */
  predicate IsMarker(m: seq<bool>, k: nat) {
    k < |Origins(m, 0)| && Origins(m, 0)[k] == FromMarker
  }

  /** Redaction holds of the output: wherever the text of an exact rule can still be read there,
      some byte of it belongs to a marker, so it is no part of the original text. */
  lemma OccurrencesTouchMarkers(s: string, exact: seq<string>, matches: seq<Locs>, r: nat, q: nat)
    requires r < |exact| && exact[r] != "" && q + |exact[r]| <= |Render(s, Mask(s, exact, matches), 0)|
    requires Render(s, Mask(s, exact, matches), 0)[q..q + |exact[r]|] == exact[r]
    ensures exists k :: q <= k < q + |exact[r]| && IsMarker(Mask(s, exact, matches), k)
  {
    var m, ex, out := Mask(s, exact, matches), exact[r], Render(s, Mask(s, exact, matches), 0);
    var from := Origins(m, 0);
    OriginAt(s, m, 0, 0);
    if forall k :: q <= k < q + |ex| ==> !IsMarker(m, k) {
      CopiedOccurrence(s, m, ex, q);
      FirstByteRedacted(s, exact, matches, r, from[q].index);
    }
  }

  lemma CopiedByte(s: string, m: seq<bool>, ex: string, q: nat, k: nat)
    requires |m| == |s| && Occurs(Render(s, m, 0), ex, q) && k < |ex|
    requires forall j :: q <= j < q + |ex| ==> !IsMarker(m, j)
    ensures |Origins(m, 0)| == |Render(s, m, 0)| && Origins(m, 0)[q].Copied?
    ensures var p := Origins(m, 0)[q].index; p + k < |s| && s[p + k] == ex[k] && !m[p + k]
  {
    var out, from := Render(s, m, 0), Origins(m, 0);
    OriginAt(s, m, 0, q + k);
    forall j | q <= j < q + |ex|
      ensures from[j].Copied?
    {
      assert !IsMarker(m, j);
    }
    OriginRun(m, q, q + k);
    assert out[q..q + |ex|][k] == out[q + k];
  }

  /** An occurrence in the output without a marker is one of unmarked bytes in the text. */
  lemma CopiedOccurrence(s: string, m: seq<bool>, ex: string, q: nat)
    requires |m| == |s| && ex != "" && Occurs(Render(s, m, 0), ex, q)
    requires forall k :: q <= k < q + |ex| ==> !IsMarker(m, k)
    ensures q < |Origins(m, 0)| && Origins(m, 0)[q].Copied?
    ensures var p := Origins(m, 0)[q].index; p < |s| && !m[p] && Occurs(s, ex, p)
  {
    CopiedByte(s, m, ex, q, 0);
    CopiedByte(s, m, ex, q, |ex| - 1);
    var p := Origins(m, 0)[q].index;
    forall k | 0 <= k < |ex|
      ensures s[p..p + |ex|][k] == ex[k]
    {
      CopiedByte(s, m, ex, q, k);
    }
    assert s[p..p + |ex|] == ex;
  }

  /** No proper prefix of ex is also a suffix of it. */
  predicate Unbordered(ex: string) {
    forall b :: 0 < b < |ex| ==> ex[..b] != ex[|ex| - b..]
  }

  /** Two overlapping occurrences share a border of the rule text. */
  lemma OverlapIsBorder(s: string, ex: string, q: nat, p: nat)
    requires q < p < q + |ex| && Occurs(s, ex, q) && Occurs(s, ex, p)
    ensures var b := q + |ex| - p; 0 < b < |ex| && ex[..b] == ex[|ex| - b..]
  {
    var b := q + |ex| - p;
    assert ex[..b] == s[p..p + |ex|][..b] == s[p..p + b];
    assert ex[|ex| - b..] == s[q..q + |ex|][|ex| - b..] == s[p..p + b];
  }

  lemma UnborderedIsCovered(s: string, ex: string, p: nat, i: nat)
    requires |ex| > 0 && Unbordered(ex) && Occurs(s, ex, p) && p <= i < p + |ex|
    ensures ScanCovers(s, ex, i)
  {
    ScanFindsOccurrence(s, ex, 0, p);
    var starts := ScanStarts(s, ex, 0);
    var k :| 0 <= k < |starts| && starts[k] <= p < starts[k] + |ex| && Occurs(s, ex, starts[k]);
    var q := starts[k];
    if q < p {
      OverlapIsBorder(s, ex, q, p);
    }
  }

  /** The text in which an occurrence begins in the last b bytes of another. */
  function Overlap(ex: string, b: nat): string
    requires b <= |ex|
  {
    ex + ex[b..]
  }

  lemma BorderedIsNotCovered(ex: string, b: nat)
    requires 0 < b < |ex| && ex[..b] == ex[|ex| - b..]
    ensures var s := Overlap(ex, b);
            && Occurs(s, ex, |ex| - b)
            && |ex| - b <= |s| - 1 < 2 * |ex| - b
            && !ScanCovers(s, ex, |s| - 1)
  {
    var s := Overlap(ex, b);
    assert s[0..|ex|] == ex;
    assert s[|ex| - b..2 * |ex| - b] == ex[|ex| - b..] + ex[b..] == ex[..b] + ex[b..] == ex;
    assert ScanStarts(s, ex, |ex|) == [];
    assert ScanStarts(s, ex, 0) == [0] + [];
  }

  /** Exactly the rules whose text does not overlap itself have every byte of every occurrence
      redacted by their own scan, in every text. */
  lemma ScanCoversAllIff(ex: string)
    requires ex != ""
    ensures Unbordered(ex) <==>
            forall s, p: nat, i :: Occurs(s, ex, p) && p <= i < p + |ex| ==> ScanCovers(s, ex, i)
  {
    if Unbordered(ex) {
      forall s, p: nat, i | Occurs(s, ex, p) && p <= i < p + |ex|
        ensures ScanCovers(s, ex, i)
      {
        UnborderedIsCovered(s, ex, p, i);
      }
    } else {
      var b :| 0 < b < |ex| && ex[..b] == ex[|ex| - b..];
      BorderedIsNotCovered(ex, b);
    }
  }
}
