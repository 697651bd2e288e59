/** The Healthchecks history collection: the selected checks in a fixed order, at most a bounded
    number of them, the newest bounded number of transitions of each, and coverage counters. */
module Healthchecks {
  import opened Sorting
  import opened Evidence
  import opened Options

  const MAX_TRANSITION_CHECKS := 32
  const MAX_FLIPS_PER_CHECK := 200

  /** tags holds the words of the tag string. */
  datatype Check = Check(name: string, slug: string, tags: seq<string>, status: string, uuid: string, uniqueKey: string)

  datatype Filter = Filter(name: string, tags: seq<string>, uuid: string, uniqueKey: string, status: string)

  /** The text functions of Go's library that the adapter calls, and its key pattern. */
  datatype TextOps = TextOps(
    equalFold: (string, string) -> bool,
    lower: string -> string,
    trim: string -> string,
    keyMatches: string -> bool)

  // ---------------------------------------------------------------- selection

  predicate Selects(f: Filter) {
    f.name != "" || f.uuid != "" || f.uniqueKey != "" || |f.tags| > 0 || f.status != ""
  }

  predicate TagsInclude(ops: TextOps, have: seq<string>, want: seq<string>) {
    forall w :: w in want ==> exists t :: t in have && ops.lower(t) == ops.lower(w)
  }

  /** Every criterion that the filter sets holds, and it sets at least one. */
  predicate Matches(ops: TextOps, f: Filter, c: Check) {
    && Selects(f)
    && (f.uuid == "" || ops.equalFold(c.uuid, f.uuid))
    && (f.uniqueKey == "" || ops.equalFold(c.uniqueKey, f.uniqueKey))
    && (f.name == "" || ops.equalFold(c.name, f.name) || ops.equalFold(c.slug, f.name))
    && (|f.tags| == 0 || TagsInclude(ops, c.tags, f.tags))
    && (f.status == "" || ops.equalFold(ops.trim(c.status), f.status))
  }

  function Matching(ops: TextOps, f: Filter, checks: seq<Check>): seq<Check> {
    if |checks| == 0 then []
    else Matching(ops, f, checks[..|checks| - 1]) +
         if Matches(ops, f, checks[|checks| - 1]) then [checks[|checks| - 1]] else []
  }

  /** Some criterion that the filter sets is not met. */
  ghost predicate Misses(ops: TextOps, f: Filter, c: Check) {
    || (f.uuid != "" && !ops.equalFold(c.uuid, f.uuid))
    || (f.uniqueKey != "" && !ops.equalFold(c.uniqueKey, f.uniqueKey))
    || (f.name != "" && !ops.equalFold(c.name, f.name) && !ops.equalFold(c.slug, f.name))
    || (exists w :: w in f.tags && forall t :: t in c.tags ==> ops.lower(t) != ops.lower(w))
    || (f.status != "" && !ops.equalFold(ops.trim(c.status), f.status))
  }

  /** A check is left out when it misses a criterion, or when there is none. */
  lemma MatchingOne(ops: TextOps, f: Filter, c: Check)
    ensures Matching(ops, f, [c]) ==
            if Misses(ops, f, c) || f == Filter("", [], "", "", "") then [] else [c]
  {
    assert [c][..0] == [];
  }

  /** Filtering goes check by check, in the order in which they come. */
  lemma {:induction false} MatchingConcat(ops: TextOps, f: Filter, a: seq<Check>, b: seq<Check>)
    ensures Matching(ops, f, a + b) == Matching(ops, f, a) + Matching(ops, f, b)
  {
    if |b| == 0 {
      assert a + b == a;
    } else {
      MatchingConcat(ops, f, a, b[..|b| - 1]);
      assert (a + b)[..|a + b| - 1] == a + b[..|b| - 1];
    }
  }

  method TagsMatch(ops: TextOps, have: seq<string>, want: seq<string>) returns (ok: bool)
    ensures ok <==> TagsInclude(ops, have, want)
  {
    var folded: set<string> := {};
    for i := 0 to |have|
      invariant forall x :: x in folded <==> exists j :: 0 <= j < i && ops.lower(have[j]) == x
    {
      folded := folded + {ops.lower(have[i])};
    }
    for i := 0 to |want|
      invariant forall j :: 0 <= j < i ==> ops.lower(want[j]) in folded
    {
      if ops.lower(want[i]) !in folded {
        assert want[i] in want;
        return false;
      }
    }
    forall w | w in want
      ensures exists t :: t in have && ops.lower(t) == ops.lower(w)
    {
      var i :| 0 <= i < |want| && want[i] == w;
      var j :| 0 <= j < |have| && ops.lower(have[j]) == ops.lower(want[i]);
      assert have[j] in have;
    }
    return true;
  }

  method FilterChecks(ops: TextOps, checks: seq<Check>, f: Filter) returns (out: seq<Check>)
    ensures out == Matching(ops, f, checks)
  {
    out := [];
    for i := 0 to |checks|
      invariant out == Matching(ops, f, checks[..i])
    {
      assert checks[..i + 1][..i] == checks[..i];
      var c := checks[i];
      if f.uuid != "" && !ops.equalFold(c.uuid, f.uuid) {
        continue;
      }
      if f.uniqueKey != "" && !ops.equalFold(c.uniqueKey, f.uniqueKey) {
        continue;
      }
      if f.name != "" && !ops.equalFold(c.name, f.name) && !ops.equalFold(c.slug, f.name) {
        continue;
      }
      if |f.tags| > 0 {
        var ok := TagsMatch(ops, c.tags, f.tags);
        if !ok {
          continue;
        }
      }
      if f.status != "" && !ops.equalFold(ops.trim(c.status), f.status) {
        continue;
      }
      if !Selects(f) {
        continue;
      }
      out := out + [c];
    }
    assert checks[..|checks|] == checks;
  }

  function SafeSourceId(c: Check): string {
    if c.slug != "" then c.slug else if c.name != "" then c.name else "check"
  }

  predicate CheckLess(a: Check, b: Check) {
    if SafeSourceId(a) != SafeSourceId(b) then TextLess(SafeSourceId(a), SafeSourceId(b))
    else TextLess(a.uniqueKey, b.uniqueKey)
  }

  /** Checks are put in an order that no key ever contradicts. */
  lemma {:induction false} CheckLessOrder()
    ensures StrictWeakOrder(CheckLess)
  {
    TextLessOrder();
  }

  /** The order goes by the slug, or the name when there is none, or a fixed word, and then by the
      unique key. */
  lemma CheckLessKeys(a: Check, b: Check)
    ensures a.slug != "" && b.slug != "" && TextLess(a.slug, b.slug) ==> CheckLess(a, b)
    ensures a.slug == b.slug == "" && a.name != "" && b.name != "" && TextLess(a.name, b.name) ==> CheckLess(a, b)
    ensures a.slug == "" && a.name != "" && b.slug != "" && TextLess(a.name, b.slug) ==> CheckLess(a, b)
    ensures a.slug == "" && a.name == "" && b.slug != "" && TextLess("check", b.slug) ==> CheckLess(a, b)
    ensures (a.slug, a.name) == (b.slug, b.name) && TextLess(a.uniqueKey, b.uniqueKey) ==> CheckLess(a, b)
  {
    TextLessIrreflexive(b.slug);
    TextLessIrreflexive(b.name);
  }

  /** The checks that the request is about, before the bound on their number. */
  function Selected(ops: TextOps, checks: seq<Check>, serviceId: string, f: Filter): seq<Check> {
    if serviceId != "" || Selects(f) then Matching(ops, f, checks) else checks
  }

  /** The checks that are asked for, in order. */
  function Asked(ops: TextOps, checks: seq<Check>, serviceId: string, f: Filter): seq<Check> {
    var sorted := Sort(CheckLess, Selected(ops, checks, serviceId, f));
    if |sorted| > MAX_TRANSITION_CHECKS then sorted[..MAX_TRANSITION_CHECKS] else sorted
  }

  /** The asked checks are the first of the selected ones in that order, as many as are allowed. */
  lemma AskedMeaning(ops: TextOps, checks: seq<Check>, serviceId: string, f: Filter)
    ensures var asked := Asked(ops, checks, serviceId, f);
            var all := serviceId == "" && f == Filter("", [], "", "", "");
            var selected := if all then checks else Matching(ops, f, checks);
            && |asked| == (if |selected| <= 32 then |selected| else 32)
            && exists rest ::
                 multiset(selected) == multiset(asked) + multiset(rest) && Ordered(CheckLess, asked + rest)
  {
    var selected, asked := Selected(ops, checks, serviceId, f), Asked(ops, checks, serviceId, f);
    var sorted := Sort(CheckLess, selected);
    assert sorted == asked + sorted[|asked|..];
    CheckLessOrder();
    SortOrdered(CheckLess, selected);
    SortMultiset(CheckLess, selected);
  }

  // ---------------------------------------------------------------- one check

  /** A transition record: its up value and its parsed timestamp, either of which may be unusable. */
  datatype Flip = Flip(up: Option<int>, at: Option<int>)

  datatype Response = NetworkError | Unauthorized | OtherStatus | BadBody | Flips(flips: seq<Flip>)

  datatype Point = Point(at: int, up: int)

  predicate Usable(x: Flip) {
    x.up.Some? && (x.up.value == 0 || x.up.value == 1) && x.at.Some?
  }

  /** The usable records of the window, as they came. */
  function InWindow(flips: seq<Flip>, start: int, end: int): seq<Point> {
    if |flips| == 0 then []
    else
      var x := flips[|flips| - 1];
      InWindow(flips[..|flips| - 1], start, end) +
      if Usable(x) && start <= x.at.value <= end then [Point(x.at.value, x.up.value)] else []
  }

  function Unusable(flips: seq<Flip>): nat {
    if |flips| == 0 then 0 else Unusable(flips[..|flips| - 1]) + if Usable(flips[|flips| - 1]) then 0 else 1
  }

  /** Which record is a transition of the window: a state of 0 or 1 and a time between the ends, both
      included. A record without such a state or without a time is unusable. */
  lemma InWindowOne(x: Flip, start: int, end: int)
    ensures match x
            case Flip(Some(up), Some(at)) =>
              && InWindow([x], start, end) == (if up in {0, 1} && start <= at && at <= end then [Point(at, up)] else [])
              && Unusable([x]) == if up in {0, 1} then 0 else 1
            case _ => InWindow([x], start, end) == [] && Unusable([x]) == 1
  {
    assert [x][..0] == [];
  }

  lemma {:induction false} InWindowConcat(a: seq<Flip>, b: seq<Flip>, start: int, end: int)
    ensures InWindow(a + b, start, end) == InWindow(a, start, end) + InWindow(b, start, end)
    ensures Unusable(a + b) == Unusable(a) + Unusable(b)
  {
    if |b| == 0 {
      assert a + b == a;
    } else {
      InWindowConcat(a, b[..|b| - 1], start, end);
      assert (a + b)[..|a + b| - 1] == a + b[..|b| - 1];
    }
  }

  predicate Earlier(a: Point, b: Point) {
    a.at < b.at
  }

  /** The newest transitions of the window in time order; ties stay in record order. */
  function Newest(flips: seq<Flip>, start: int, end: int): seq<Point> {
    LastK(Sort(Earlier, InWindow(flips, start, end)), MAX_FLIPS_PER_CHECK)
  }

  /** What one response adds: the points kept, whether any were cut, the records discarded. */
  method ReadFlips(flips: seq<Flip>, start: int, end: int) returns (points: seq<Point>, cut: bool, discarded: nat)
    ensures points == Newest(flips, start, end)
    ensures cut <==> |InWindow(flips, start, end)| > MAX_FLIPS_PER_CHECK
    ensures discarded == Unusable(flips)
  {
    var parsed: seq<Point> := [];
    discarded := 0;
    for i := 0 to |flips|
      invariant parsed == InWindow(flips[..i], start, end)
      invariant discarded == Unusable(flips[..i])
    {
      assert flips[..i + 1][..i] == flips[..i];
      var x := flips[i];
      if x.up == None || (x.up.value != 0 && x.up.value != 1) {
        discarded := discarded + 1;
        continue;
      }
      if x.at == None {
        discarded := discarded + 1;
        continue;
      }
      if x.at.value < start || x.at.value > end {
        continue;
      }
      parsed := parsed + [Point(x.at.value, x.up.value)];
    }
    assert flips[..|flips|] == flips;
    points := SortedCopy(parsed, Earlier);
    cut := |points| > MAX_FLIPS_PER_CHECK;
    if cut {
      points := points[|points| - MAX_FLIPS_PER_CHECK..];
    }
  }

  /** The kept points come from the window and are in time order, and no point that was left
      out is later than any of them. */
  lemma NewestMeaning(flips: seq<Flip>, start: int, end: int)
    ensures var all, kept := InWindow(flips, start, end), Newest(flips, start, end);
            && |kept| == (if |all| <= 200 then |all| else 200)
            && exists dropped: seq<Point> ::
                 && multiset(all) == multiset(dropped) + multiset(kept)
                 && forall i, j :: 0 <= i < j < |dropped + kept| ==> (dropped + kept)[i].at <= (dropped + kept)[j].at
  {
    var dropped := LastKOfSort(Earlier, InWindow(flips, start, end), MAX_FLIPS_PER_CHECK);
  }

  // ---------------------------------------------------------------- the collection

  datatype Transition = Transition(check: Check, at: int, up: int)

  datatype Result = Result(
    items: seq<Transition>,
    truncated: bool,
    omitted: nat,
    missingIdentity: nat,
    discarded: nat,
    requests: nat,
    failures: nat)

  datatype Outcome = Collected(result: Result) | NoMatch | AuthenticationFailed | RequestsFailed

  predicate HasIdentity(ops: TextOps, c: Check) {
    ops.keyMatches(ops.trim(c.uniqueKey))
  }

  function Labelled(c: Check, points: seq<Point>): (r: seq<Transition>)
    ensures |r| == |points|
  {
    seq(|points|, i requires 0 <= i < |points| => Transition(c, points[i].at, points[i].up))
  }

  /** The window and the answers of one collection; respond(i) answers the i-th asked check. */
  datatype Query = Query(ops: TextOps, respond: nat -> Response, start: int, end: int)

  /** What the i-th asked check contributes. */
  function ItemsOf(q: Query, asked: seq<Check>, i: nat): seq<Transition> {
    if i < |asked| && HasIdentity(q.ops, asked[i]) && q.respond(i).Flips?
    then Labelled(asked[i], Newest(q.respond(i).flips, q.start, q.end)) else []
  }

  /** n contributions, one behind the other. */
  function Collect(contribution: nat -> seq<Transition>, n: nat): seq<Transition> {
    if n == 0 then [] else Collect(contribution, n - 1) + contribution(n - 1)
  }

  function Items(q: Query, asked: seq<Check>, n: nat): seq<Transition>
    requires n <= |asked|
  {
    Collect((i: nat) => ItemsOf(q, asked, i), n)
  }

  lemma {:induction false} CollectGrow(contribution: nat -> seq<Transition>, m: nat, n: nat)
    requires m <= n
    ensures Collect(contribution, m) <= Collect(contribution, n)
  {
    if m < n {
      CollectGrow(contribution, m, n - 1);
    }
  }

  lemma ItemsOfBound(q: Query, asked: seq<Check>, i: nat)
    requires i < |asked|
    ensures |ItemsOf(q, asked, i)|
         <= if HasIdentity(q.ops, asked[i]) && q.respond(i).Flips? then MAX_FLIPS_PER_CHECK else 0
  {
  }

  function Missing(q: Query, asked: seq<Check>, n: nat): (r: nat)
    requires n <= |asked|
    ensures r <= n
  {
    if n == 0 then 0 else Missing(q, asked, n - 1) + if HasIdentity(q.ops, asked[n - 1]) then 0 else 1
  }

  function Failures(q: Query, asked: seq<Check>, n: nat): (r: nat)
    requires n <= |asked|
    ensures r + Missing(q, asked, n) <= n
  {
    if n == 0 then 0
    else Failures(q, asked, n - 1) + if HasIdentity(q.ops, asked[n - 1]) && !q.respond(n - 1).Flips? then 1 else 0
  }

  function Discarded(q: Query, asked: seq<Check>, n: nat): nat
    requires n <= |asked|
  {
    if n == 0 then 0
    else Discarded(q, asked, n - 1) +
         if HasIdentity(q.ops, asked[n - 1]) && q.respond(n - 1).Flips? then Unusable(q.respond(n - 1).flips) else 0
  }

  /** The answer to the i-th asked check holds more transitions than are kept. */
  predicate Overflows(q: Query, asked: seq<Check>, i: nat)
    requires i < |asked|
  {
    && HasIdentity(q.ops, asked[i]) && q.respond(i).Flips?
    && |InWindow(q.respond(i).flips, q.start, q.end)| > MAX_FLIPS_PER_CHECK
  }

  /** A request that the server refuses ends the collection. */
  predicate Denied(q: Query, asked: seq<Check>, i: nat)
    requires i < |asked|
  {
    HasIdentity(q.ops, asked[i]) && q.respond(i).Unauthorized?
  }

  /** The checks to ask for and the number left out; none when a binding matched no check. */
  method SelectChecks(ops: TextOps, checks: seq<Check>, serviceId: string, f: Filter)
      returns (asked: seq<Check>, omitted: nat, none: bool)
    ensures var selected := Selected(ops, checks, serviceId, f);
            && (none <==> Selects(f) && |selected| == 0)
            && asked == Asked(ops, checks, serviceId, f)
            && omitted == |selected| - |asked|
  {
    asked, omitted, none := checks, 0, false;
    if serviceId != "" || Selects(f) {
      asked := FilterChecks(ops, checks, f);
      none := |asked| == 0 && Selects(f);
    }
    asked := SortedCopy(asked, CheckLess);
    if |asked| > MAX_TRANSITION_CHECKS {
      omitted := |asked| - MAX_TRANSITION_CHECKS;
      asked := asked[..MAX_TRANSITION_CHECKS];
    }
  }

  /** The result of asking all checks, when no request is refused. */
  ghost function Totals(q: Query, asked: seq<Check>, n: nat, omitted: nat): Result
    requires n <= |asked|
  {
    Result(Items(q, asked, n), omitted > 0 || SomeOverflow(q, asked, n), omitted,
           Missing(q, asked, n), Discarded(q, asked, n), n - Missing(q, asked, n), Failures(q, asked, n))
  }

  /** Whether one of the first n asked checks holds more transitions than are kept. */
  ghost predicate SomeOverflow(q: Query, asked: seq<Check>, n: nat)
    requires n <= |asked|
  {
    exists i :: 0 <= i < n && Overflows(q, asked, i)
  }

  lemma SomeOverflowStep(q: Query, asked: seq<Check>, n: nat)
    requires n < |asked|
    ensures SomeOverflow(q, asked, n + 1) <==> SomeOverflow(q, asked, n) || Overflows(q, asked, n)
  {
  }

  /** The totals grow by what the i-th asked check adds. */
  lemma TotalsStep(q: Query, asked: seq<Check>, i: nat, omitted: nat)
    requires i < |asked|
    ensures var was, known := Totals(q, asked, i, omitted), HasIdentity(q.ops, asked[i]);
            var answered := known && q.respond(i).Flips?;
            Totals(q, asked, i + 1, omitted) == Result(
              was.items + ItemsOf(q, asked, i),
              was.truncated || Overflows(q, asked, i),
              omitted,
              was.missingIdentity + (if known then 0 else 1),
              was.discarded + (if answered then Unusable(q.respond(i).flips) else 0),
              was.requests + (if known then 1 else 0),
              was.failures + (if known && !answered then 1 else 0))
  {
    SomeOverflowStep(q, asked, i);
  }

  /** One request and what it adds to the result. */
  method AskOne(q: Query, asked: seq<Check>, i: nat, was: Result) returns (r: Result, denied: bool)
    requires i < |asked| && was == Totals(q, asked, i, was.omitted)
    ensures denied <==> Denied(q, asked, i)
    ensures !denied ==> r == Totals(q, asked, i + 1, was.omitted)
  {
    r, denied := was, false;
    TotalsStep(q, asked, i, was.omitted);
    if !HasIdentity(q.ops, asked[i]) {
      r := r.(missingIdentity := r.missingIdentity + 1);
      return;
    }
    r := r.(requests := r.requests + 1);
    match q.respond(i) {
      case Unauthorized =>
        denied := true;
      case Flips(flips) =>
        var points, cut, dropped := ReadFlips(flips, q.start, q.end);
        r := r.(discarded := r.discarded + dropped, truncated := r.truncated || cut,
                items := r.items + Labelled(asked[i], points));
      case _ =>
        r := r.(failures := r.failures + 1);
    }
  }

  ghost predicate SomeDenied(q: Query, asked: seq<Check>) {
    exists i :: 0 <= i < |asked| && Denied(q, asked, i)
  }

  /** Asks for all checks in turn, unless a request is refused. */
  method AskAll(q: Query, asked: seq<Check>, omitted: nat) returns (r: Result, denied: bool)
    ensures denied <==> SomeDenied(q, asked)
    ensures !denied ==> r == Totals(q, asked, |asked|, omitted)
  {
    r, denied := Result([], omitted > 0, omitted, 0, 0, 0, 0), false;
    for i := 0 to |asked|
      invariant r == Totals(q, asked, i, omitted)
      invariant forall j :: 0 <= j < i ==> !Denied(q, asked, j)
    {
      r, denied := AskOne(q, asked, i, r);
      if denied {
        return;
      }
    }
  }

  lemma DeniedMeaning(q: Query, asked: seq<Check>)
    ensures SomeDenied(q, asked) <==>
            (exists i :: 0 <= i < |asked| && Refused(q, asked[i], q.respond(i)))
  {
    forall i | 0 <= i < |asked|
      ensures Denied(q, asked, i) <==> Refused(q, asked[i], q.respond(i))
    {
    }
  }

  /** The server refuses the request for a check with an identity. */
  predicate Refused(q: Query, c: Check, answer: Response) {
    q.ops.keyMatches(q.ops.trim(c.uniqueKey)) && answer == Unauthorized
  }

  method Transitions(q: Query, checks: seq<Check>, serviceId: string, f: Filter) returns (r: Outcome)
    ensures var selected, asked := Selected(q.ops, checks, serviceId, f), Asked(q.ops, checks, serviceId, f);
            var totals := Totals(q, asked, |asked|, |selected| - |asked|);
            if f != Filter("", [], "", "", "") && |selected| == 0 then r == NoMatch
            else if exists i :: 0 <= i < |asked| && Refused(q, asked[i], q.respond(i)) then r == AuthenticationFailed
            else if totals.requests > 0 && totals.failures == totals.requests then r == RequestsFailed
            else r == Collected(totals)
  {
    var asked, omitted, none := SelectChecks(q.ops, checks, serviceId, f);
    if none {
      return NoMatch;
    }
    DeniedMeaning(q, asked);
    var result, denied := AskAll(q, asked, omitted);
    if denied {
      return AuthenticationFailed;
    }
    ItemsBound(q, asked, |asked|);
    if result.requests > 0 && result.failures == result.requests && |result.items| == 0 {
      return RequestsFailed;
    }
    return Collected(result);
  }

  /** Each answered request contributes at most the per-check bound, a failed one nothing. */
  lemma {:induction false} ItemsBound(q: Query, asked: seq<Check>, n: nat)
    requires n <= |asked|
    ensures |Items(q, asked, n)| <= MAX_FLIPS_PER_CHECK * (n - Missing(q, asked, n) - Failures(q, asked, n))
  {
    if n > 0 {
      ItemsBound(q, asked, n - 1);
      ItemsOfBound(q, asked, n - 1);
    }
  }

  /** The i-th asked check has an identity of the required form. */
  predicate Identified(q: Query, asked: seq<Check>, i: nat)
    requires i < |asked|
  {
    q.ops.keyMatches(q.ops.trim(asked[i].uniqueKey))
  }

  /** It has one, but the answer is no list of transitions. */
  predicate Unanswered(q: Query, asked: seq<Check>, i: nat)
    requires i < |asked|
  {
    q.ops.keyMatches(q.ops.trim(asked[i].uniqueKey)) && !q.respond(i).Flips?
  }

  ghost function WithoutIdentity(q: Query, asked: seq<Check>, n: nat): set<nat>
    requires n <= |asked|
  {
    set i: nat | i < n && !Identified(q, asked, i)
  }

  ghost function WithoutAnswer(q: Query, asked: seq<Check>, n: nat): set<nat>
    requires n <= |asked|
  {
    set i: nat | i < n && Unanswered(q, asked, i)
  }

  lemma SetGrows(a: set<nat>, b: set<nat>, n: nat, more: bool)
    requires n !in a && b == a + if more then {n} else {}
    ensures |b| == |a| + if more then 1 else 0
  {
  }

  lemma WithoutIdentityStep(q: Query, asked: seq<Check>, n: nat)
    requires n < |asked|
    ensures |WithoutIdentity(q, asked, n + 1)|
         == |WithoutIdentity(q, asked, n)| + if Identified(q, asked, n) then 0 else 1
  {
    SetGrows(WithoutIdentity(q, asked, n), WithoutIdentity(q, asked, n + 1), n, !Identified(q, asked, n));
  }

  lemma WithoutAnswerStep(q: Query, asked: seq<Check>, n: nat)
    requires n < |asked|
    ensures |WithoutAnswer(q, asked, n + 1)|
         == |WithoutAnswer(q, asked, n)| + if Unanswered(q, asked, n) then 1 else 0
  {
    SetGrows(WithoutAnswer(q, asked, n), WithoutAnswer(q, asked, n + 1), n, Unanswered(q, asked, n));
  }

  /** Two of the counters count what their names say. */
  lemma {:induction false} CountersCount(q: Query, asked: seq<Check>, n: nat)
    requires n <= |asked|
    ensures Missing(q, asked, n) == |WithoutIdentity(q, asked, n)|
    ensures Failures(q, asked, n) == |WithoutAnswer(q, asked, n)|
  {
    if n > 0 {
      CountersCount(q, asked, n - 1);
      WithoutIdentityStep(q, asked, n - 1);
      WithoutAnswerStep(q, asked, n - 1);
    } else {
      assert WithoutIdentity(q, asked, 0) == {} && WithoutAnswer(q, asked, 0) == {};
    }
  }

  /** All records that the answers hold, one answer behind the other. */
  function Records(q: Query, asked: seq<Check>, n: nat): seq<Flip>
    requires n <= |asked|
  {
    if n == 0 then []
    else if q.ops.keyMatches(q.ops.trim(asked[n - 1].uniqueKey)) && q.respond(n - 1).Flips?
    then Records(q, asked, n - 1) + q.respond(n - 1).flips
    else Records(q, asked, n - 1)
  }

  /** Discarded counts the unusable records of all answers. */
  lemma {:induction false} DiscardedCounts(q: Query, asked: seq<Check>, n: nat)
    requires n <= |asked|
    ensures Discarded(q, asked, n) == Unusable(Records(q, asked, n))
  {
    if n > 0 {
      DiscardedCounts(q, asked, n - 1);
      if q.ops.keyMatches(q.ops.trim(asked[n - 1].uniqueKey)) && q.respond(n - 1).Flips? {
        InWindowConcat(Records(q, asked, n - 1), q.respond(n - 1).flips, q.start, q.end);
      }
    }
  }

  /** x is a transition that the i-th answer holds and that is kept. */
  ghost predicate KeptFrom(q: Query, asked: seq<Check>, i: nat, x: Transition)
    requires i < |asked|
  {
    && q.ops.keyMatches(q.ops.trim(asked[i].uniqueKey)) && q.respond(i).Flips?
    && x.check == asked[i] && Point(x.at, x.up) in Newest(q.respond(i).flips, q.start, q.end)
  }

  lemma LabelledMember(c: Check, points: seq<Point>, x: Transition)
    ensures x in Labelled(c, points) <==> x.check == c && Point(x.at, x.up) in points
  {
    if x.check == c && Point(x.at, x.up) in points {
      var k :| 0 <= k < |points| && points[k] == Point(x.at, x.up);
      assert Labelled(c, points)[k] == x;
    }
  }

  /** The items are the kept transitions of all answers, each under its check. */
  lemma {:induction false} ItemsMembers(q: Query, asked: seq<Check>, n: nat, x: Transition)
    requires n <= |asked|
    ensures x in Items(q, asked, n) <==> exists i :: 0 <= i < n && KeptFrom(q, asked, i, x)
  {
    if n > 0 {
      ItemsMembers(q, asked, n - 1, x);
      ItemsOfMember(q, asked, n - 1, x);
    }
  }

  lemma ItemsOfMember(q: Query, asked: seq<Check>, i: nat, x: Transition)
    requires i < |asked|
    ensures x in ItemsOf(q, asked, i) <==> KeptFrom(q, asked, i, x)
  {
    if q.respond(i).Flips? {
      LabelledMember(asked[i], Newest(q.respond(i).flips, q.start, q.end), x);
    }
  }

  /** What the counters of a successful collection add up to. */
  lemma CoverageAddsUp(q: Query, checks: seq<Check>, serviceId: string, f: Filter)
    ensures var selected, asked := Selected(q.ops, checks, serviceId, f), Asked(q.ops, checks, serviceId, f);
            var r := Totals(q, asked, |asked|, |selected| - |asked|);
            && |selected| == r.omitted + r.missingIdentity + r.requests
            && |asked| <= 32
            && r.failures <= r.requests
            && |r.items| <= 200 * (r.requests - r.failures)
            && (r.requests > 0 && r.failures == r.requests ==> r.items == [])
            && (r.truncated <==>
                  || |selected| > MAX_TRANSITION_CHECKS
                  || exists i :: 0 <= i < |asked|
                       && q.ops.keyMatches(q.ops.trim(asked[i].uniqueKey)) && q.respond(i).Flips?
                       && |InWindow(q.respond(i).flips, q.start, q.end)| > MAX_FLIPS_PER_CHECK)
  {
    var asked := Asked(q.ops, checks, serviceId, f);
    ItemsBound(q, asked, |asked|);
    OverflowMeaning(q, asked);
  }

  lemma OverflowMeaning(q: Query, asked: seq<Check>)
    ensures SomeOverflow(q, asked, |asked|) <==>
            exists i :: 0 <= i < |asked|
              && q.ops.keyMatches(q.ops.trim(asked[i].uniqueKey)) && q.respond(i).Flips?
              && |InWindow(q.respond(i).flips, q.start, q.end)| > MAX_FLIPS_PER_CHECK
  {
    forall i | 0 <= i < |asked|
      ensures Overflows(q, asked, i) <==>
              && q.ops.keyMatches(q.ops.trim(asked[i].uniqueKey)) && q.respond(i).Flips?
              && |InWindow(q.respond(i).flips, q.start, q.end)| > MAX_FLIPS_PER_CHECK
    {
    }
  }

  /** What every field of a collected result is, in words of the checks and the answers. */
  lemma ResultMeaning(q: Query, asked: seq<Check>, omitted: nat)
    ensures var r := Totals(q, asked, |asked|, omitted);
            && r.omitted == omitted
            && r.missingIdentity == |WithoutIdentity(q, asked, |asked|)|
            && r.requests == |asked| - |WithoutIdentity(q, asked, |asked|)|
            && r.failures == |WithoutAnswer(q, asked, |asked|)|
            && r.discarded == Unusable(Records(q, asked, |asked|))
            && forall x :: x in r.items <==> exists i :: 0 <= i < |asked| && KeptFrom(q, asked, i, x)
  {
    CountersCount(q, asked, |asked|);
    DiscardedCounts(q, asked, |asked|);
    forall x
      ensures x in Items(q, asked, |asked|) <==> exists i :: 0 <= i < |asked| && KeptFrom(q, asked, i, x)
    {
      ItemsMembers(q, asked, |asked|, x);
    }
  }

  lemma ItemsGrow(q: Query, asked: seq<Check>, m: nat, n: nat)
    requires m <= n <= |asked|
    ensures Items(q, asked, m) <= Items(q, asked, n)
  {
    CollectGrow((i: nat) => ItemsOf(q, asked, i), m, n);
  }

  /** The items of an answered check are its newest transitions, in one block, in order, behind
      those of the checks before it. */
  lemma {:induction false} ItemsOfCheck(q: Query, asked: seq<Check>, n: nat, i: nat)
    requires i < n <= |asked| && HasIdentity(q.ops, asked[i]) && q.respond(i).Flips?
    ensures Items(q, asked, i) + Labelled(asked[i], Newest(q.respond(i).flips, q.start, q.end)) <= Items(q, asked, n)
  {
    ItemsGrow(q, asked, i + 1, n);
  }
}
