/** The tool budget: a semaphore of call slots and a one-minute admission window. A caller takes
    its slot before it takes the mutex, so calls of acquire and release interleave. */
module ToolBudget {

  /** Nanoseconds in a minute. */
  const MINUTE := 60000000000

  /** The fields that callers share: slots in use, window start, admissions in the window. */
  datatype Shared = Shared(sem: nat, window: int, count: nat)

  datatype Refusal = Admitted | TooManyConcurrent | RateExceeded

  /** The non-blocking send on the slot channel. */
  function TakeSlot(s: Shared, cap: nat): (Shared, bool) {
    if s.sem < cap then (s.(sem := s.sem + 1), true) else (s, false)
  }

  /** The critical section up to its verdict. */
  function CheckRate(s: Shared, perMin: nat, now: int): (Shared, bool) {
    var s' := if now - s.window >= MINUTE then s.(window := now, count := 0) else s;
    if s'.count >= perMin then (s', false) else (s'.(count := s'.count + 1), true)
  }

  /** The non-blocking receive of release; its default branch leaves the channel alone. */
  function ReturnSlot(s: Shared): Shared {
    if s.sem > 0 then s.(sem := s.sem - 1) else s
  }

  class Budget {
    const perMin: nat
    const cap: nat
    var window: int
    var count: nat
    var sem: nat

    function Fields(): Shared
      reads this
    {
      Shared(sem, window, count)
    }

    /** Neither limit is exceeded. */
    predicate Valid()
      reads this
    {
      sem <= cap && count <= perMin && 0 < perMin && 0 < cap
    }

    constructor (perMinute: int, concurrent: int, now: int)
      ensures Valid()
      ensures perMin == (if perMinute <= 0 then 120 else perMinute)
      ensures cap == (if concurrent <= 0 then 8 else concurrent)
      ensures Fields() == Shared(0, now, 0)
    {
      perMin := if perMinute <= 0 then 120 else perMinute;
      cap := if concurrent <= 0 then 8 else concurrent;
      window, count, sem := now, 0, 0;
    }

    method Take() returns (ok: bool)
      requires Valid()
      modifies this`sem
      ensures Valid()
      ensures (Fields(), ok) == TakeSlot(old(Fields()), cap)
    {
      ok := sem < cap;
      if ok {
        sem := sem + 1;
      }
    }

    method Check(now: int) returns (ok: bool)
      requires Valid()
      modifies this`window, this`count
      ensures Valid()
      ensures (Fields(), ok) == CheckRate(old(Fields()), perMin, now)
    {
      if now - window >= MINUTE {
        window, count := now, 0;
      }
      if count >= perMin {
        return false;
      }
      count := count + 1;
      return true;
    }

    /** The receive that gives a refused caller's slot back; on an empty channel it would block. */
    method GiveBack()
      requires Valid() && sem > 0
      modifies this`sem
      ensures Valid()
      ensures Fields() == ReturnSlot(old(Fields()))
    {
      sem := sem - 1;
    }

    method Release()
      requires Valid()
      modifies this`sem
      ensures Valid()
      ensures sem == (if old(sem) > 0 then old(sem) - 1 else 0) && window == old(window) && count == old(count)
      ensures Fields() == ReturnSlot(old(Fields()))
    {
      if sem > 0 {
        sem := sem - 1;
      }
    }

    /** acquire when no other caller runs in between. */
    method Acquire(now: int) returns (verdict: Refusal)
      requires Valid()
      modifies this
      ensures Valid()
      ensures verdict == TooManyConcurrent <==> old(sem) >= cap
      ensures verdict == RateExceeded <==> old(sem) < cap && now - old(window) < MINUTE && old(count) >= perMin
      ensures sem == if verdict == Admitted then old(sem) + 1 else old(sem)
      ensures verdict == Admitted ==> count == if now - old(window) >= MINUTE then 1 else old(count) + 1
      ensures verdict != Admitted ==> count == old(count)
      ensures window == if verdict != TooManyConcurrent && now - old(window) >= MINUTE then now else old(window)
    {
      var ok := Take();
      if !ok {
        return TooManyConcurrent;
      }
      ok := Check(now);
      if !ok {
        GiveBack();
        return RateExceeded;
      }
      return Admitted;
    }
  }

  // ---------------------------------------------------------------- interleaved callers

  /** Where a caller that holds a slot stands. Refused means: inside the mutex, over the rate,
      and about to give its slot back. */
  datatype Phase = Waiting | Refused | Running

  datatype Lock = Free | Held(caller: nat)

  /** An admitted call: when, and in which window, counted from one. */
  datatype Admission = Admission(time: int, win: nat)

  /** holders maps each caller with a slot to its phase; lock is the caller inside the mutex
      between two steps; starts and log record the windows and the admissions so far. */
  datatype State = State(
    shared: Shared,
    holders: map<nat, Phase>,
    lock: Lock,
    clock: int,
    starts: seq<int>,
    log: seq<Admission>)

  datatype Step = Take(caller: nat) | Check(caller: nat, now: int) | GiveBack(caller: nat) | Release(caller: nat)

  ghost predicate Init(s: State, now: int) {
    s == State(Shared(0, now, 0), map[], Free, now, [now], [])
  }

  /** One atomic step of one caller, as withBudget takes it through acquire and release. */
  ghost predicate Next(s: State, t: State, perMin: nat, cap: nat, e: Step) {
    match e
    case Take(c) =>
      && c !in s.holders
      && var (shared, ok) := TakeSlot(s.shared, cap);
         t == if ok then s.(shared := shared, holders := s.holders[c := Waiting]) else s
    case Check(c, now) =>
      && c in s.holders && s.holders[c] == Waiting && s.lock == Free && s.clock <= now
      && var (shared, ok) := CheckRate(s.shared, perMin, now);
         var starts := if now - s.shared.window >= MINUTE then s.starts + [now] else s.starts;
         t == if ok
              then State(shared, s.holders[c := Running], Free, now, starts, s.log + [Admission(now, |starts|)])
              else State(shared, s.holders[c := Refused], Held(c), now, starts, s.log)
    case GiveBack(c) =>
      && c in s.holders && s.holders[c] == Refused
      && s.shared.sem > 0
      && t == s.(shared := ReturnSlot(s.shared), holders := s.holders - {c}, lock := Free)
    case Release(c) =>
      && c in s.holders && s.holders[c] == Running
      && t == s.(shared := ReturnSlot(s.shared), holders := s.holders - {c})
  }

  ghost predicate Run(states: seq<State>, steps: seq<Step>, perMin: nat, cap: nat) {
    && |states| == |steps| + 1
    && forall i :: 0 <= i < |steps| ==> Next(states[i], states[i + 1], perMin, cap, steps[i])
  }

  /** The admissions of one window. */
  function InWindow(log: seq<Admission>, win: nat): nat {
    if |log| == 0 then 0 else InWindow(log[..|log| - 1], win) + if log[|log| - 1].win == win then 1 else 0
  }

  /** The admissions with lo <= time <= hi. */
  function Between(log: seq<Admission>, lo: int, hi: int): nat {
    if |log| == 0 then 0
    else Between(log[..|log| - 1], lo, hi) + if lo <= log[|log| - 1].time <= hi then 1 else 0
  }

  /** The semaphore holds exactly the calls between taking and returning a slot. */
  ghost predicate SlotInv(s: State, cap: nat) {
    && s.shared.sem == |s.holders| <= cap
    && (forall c :: c in s.holders && s.holders[c] == Refused ==> s.lock == Held(c))
  }

  /** Windows start at least a minute apart, and every admission lies in its window's minute. */
  ghost predicate WindowsApart(starts: seq<int>, log: seq<Admission>) {
    && (forall i :: 0 < i < |starts| ==> starts[i - 1] + MINUTE <= starts[i])
    && (forall i :: 0 <= i < |log| ==>
          0 < log[i].win <= |starts| && starts[log[i].win - 1] <= log[i].time < starts[log[i].win - 1] + MINUTE)
    && (forall i, j :: 0 <= i < j < |log| ==> log[i].win <= log[j].win)
  }

  ghost predicate WindowInv(s: State, perMin: nat) {
    && |s.starts| > 0 && s.starts[|s.starts| - 1] == s.shared.window <= s.clock
    && WindowsApart(s.starts, s.log)
    && s.shared.count == InWindow(s.log, |s.starts|)
    && (forall win :: InWindow(s.log, win) <= perMin)
  }

  lemma HolderCount(holders: map<nat, Phase>, c: nat, phase: Phase)
    ensures |holders[c := phase]| == |holders| + if c in holders then 0 else 1
    ensures c in holders ==> |holders - {c}| == |holders| - 1
  {
    var more := holders[c := phase];
    assert |more| == |more.Keys| && |holders| == |holders.Keys|;
    if c in holders {
      assert more.Keys == holders.Keys;
      assert |holders - {c}| == |(holders - {c}).Keys|;
      assert (holders - {c}).Keys == holders.Keys - {c};
    } else {
      assert more.Keys == holders.Keys + {c};
    }
  }

  lemma NextKeepsSlots(s: State, t: State, perMin: nat, cap: nat, e: Step)
    requires SlotInv(s, cap) && Next(s, t, perMin, cap, e)
    ensures SlotInv(t, cap)
  {
    HolderCount(s.holders, e.caller, Waiting);
    if e.Check? {
      HolderCount(s.holders, e.caller, if t.lock == Free then Running else Refused);
    }
  }

  lemma {:induction false} NoAdmissionsYet(log: seq<Admission>, win: nat)
    requires forall i :: 0 <= i < |log| ==> log[i].win < win
    ensures InWindow(log, win) == 0
  {
    if |log| > 0 {
      NoAdmissionsYet(log[..|log| - 1], win);
    }
  }

  lemma AdmissionAdds(log: seq<Admission>, a: Admission, win: nat)
    ensures InWindow(log + [a], win) == InWindow(log, win) + if a.win == win then 1 else 0
  {
    assert (log + [a])[..|log|] == log;
  }

  /** What the log looks like to the window that a check at time now falls into. */
  lemma WindowAtCheck(s: State, perMin: nat, now: int)
    requires WindowInv(s, perMin) && s.clock <= now
    ensures var starts := StartsAt(s, now);
            && WindowsApart(starts, s.log)
            && starts[|starts| - 1] <= now < starts[|starts| - 1] + MINUTE
            && InWindow(s.log, |starts|) == if now - s.shared.window >= MINUTE then 0 else s.shared.count
  {
    if now - s.shared.window >= MINUTE {
      NoAdmissionsYet(s.log, |s.starts| + 1);
    }
  }

  /** The windows after a check at time now. */
  function StartsAt(s: State, now: int): (r: seq<int>)
    ensures |r| > 0 || |s.starts| == 0
  {
    if now - s.shared.window >= MINUTE then s.starts + [now] else s.starts
  }

  /** The state right after the check has moved the window, before it counts anything. */
  function Moved(s: State, now: int): State {
    var expired := now - s.shared.window >= MINUTE;
    s.(shared := s.shared.(window := if expired then now else s.shared.window,
                           count := if expired then 0 else s.shared.count),
       clock := now, starts := StartsAt(s, now))
  }

  lemma MovedKeepsWindows(s: State, perMin: nat, now: int)
    requires WindowInv(s, perMin) && s.clock <= now
    ensures WindowInv(Moved(s, now), perMin) && now < Moved(s, now).shared.window + MINUTE
  {
    WindowAtCheck(s, perMin, now);
  }

  /** The windows see nothing of slots, holders and the lock. */
  lemma SameWindows(s: State, t: State, perMin: nat)
    requires WindowInv(s, perMin)
    requires SameFields(s, t)
    ensures WindowInv(t, perMin)
  {
  }

  lemma {:induction false} NextKeepsWindows(s: State, t: State, perMin: nat, cap: nat, e: Step)
    requires WindowInv(s, perMin) && Next(s, t, perMin, cap, e)
    ensures WindowInv(t, perMin)
  {
    if e.Check? {
      CheckIsMoveAndCount(s, t, perMin, cap, e);
      MovedKeepsWindows(s, perMin, e.now);
      CountKeepsWindows(Moved(s, e.now), t, perMin);
    } else {
      SameWindows(s, t, perMin);
    }
  }

  /** t has the window fields of r. */
  predicate SameFields(r: State, t: State) {
    && t.starts == r.starts && t.log == r.log && t.clock == r.clock
    && t.shared.window == r.shared.window && t.shared.count == r.shared.count
  }

  lemma CountKeepsWindows(m: State, t: State, perMin: nat)
    requires WindowInv(m, perMin) && m.clock < m.shared.window + MINUTE
    requires SameFields(if m.shared.count < perMin then Admitting(m) else m, t)
    ensures WindowInv(t, perMin)
  {
    if m.shared.count < perMin {
      AdmissionKeepsWindows(m, perMin, Admission(m.clock, |m.starts|));
      SameWindows(Admitting(m), t, perMin);
    } else {
      SameWindows(m, t, perMin);
    }
  }

  /** One more admission in the current window. */
  function Admitting(m: State): State {
    m.(log := m.log + [Admission(m.clock, |m.starts|)], shared := m.shared.(count := m.shared.count + 1))
  }

  /** A check moves the window, and then counts and logs an admission if there is room. */
  lemma CheckIsMoveAndCount(s: State, t: State, perMin: nat, cap: nat, e: Step)
    requires Next(s, t, perMin, cap, e) && e.Check?
    ensures s.clock <= e.now
    ensures var m := Moved(s, e.now);
            SameFields(if m.shared.count < perMin then Admitting(m) else m, t)
  {
  }

  lemma AdmissionKeepsWindows(s: State, perMin: nat, a: Admission)
    requires WindowInv(s, perMin) && s.shared.count < perMin
    requires a == Admission(s.clock, |s.starts|) && s.clock < s.shared.window + MINUTE
    ensures WindowInv(s.(log := s.log + [a], shared := s.shared.(count := s.shared.count + 1)), perMin)
  {
    AdmissionKeepsApart(s.starts, s.log, s.clock);
    AdmissionKeepsCounts(s.log, a, perMin);
  }

  lemma AdmissionKeepsApart(starts: seq<int>, log: seq<Admission>, now: int)
    requires WindowsApart(starts, log) && |starts| > 0
    requires starts[|starts| - 1] <= now < starts[|starts| - 1] + MINUTE
    ensures WindowsApart(starts, log + [Admission(now, |starts|)])
  {
  }

  lemma AdmissionKeepsCounts(log: seq<Admission>, a: Admission, perMin: nat)
    requires forall win :: InWindow(log, win) <= perMin
    requires InWindow(log, a.win) < perMin
    ensures InWindow(log + [a], a.win) == InWindow(log, a.win) + 1
    ensures forall win :: InWindow(log + [a], win) <= perMin
  {
    AdmissionAdds(log, a, a.win);
    forall win
      ensures InWindow(log + [a], win) <= perMin
    {
      AdmissionAdds(log, a, win);
      assert InWindow(log, win) <= perMin;
    }
  }

  lemma {:induction false} RunKeepsInv(states: seq<State>, steps: seq<Step>, perMin: nat, cap: nat, start: int)
    requires Run(states, steps, perMin, cap) && Init(states[0], start)
    ensures SlotInv(states[|steps|], cap) && WindowInv(states[|steps|], perMin)
  {
    if |steps| > 0 {
      var n := |steps| - 1;
      RunKeepsInv(states[..n + 1], steps[..n], perMin, cap, start);
      NextKeepsSlots(states[n], states[n + 1], perMin, cap, steps[n]);
      NextKeepsWindows(states[n], states[n + 1], perMin, cap, steps[n]);
    }
  }

  /** In every reachable state, under any interleaving: no more callers hold a slot than the
      channel has room for, the receive that returns a refused caller's slot does not block, and
      a release always finds a slot to take out, so its default branch is dead. */
  lemma SlotsNeverBlock(states: seq<State>, steps: seq<Step>, perMin: nat, cap: nat, start: int)
    requires Run(states, steps, perMin, cap) && Init(states[0], start)
    ensures var s := states[|steps|];
            && s.shared.sem == |s.holders| <= cap
            && forall c :: c in s.holders ==> s.shared.sem > 0
  {
    RunKeepsInv(states, steps, perMin, cap, start);
    var s := states[|steps|];
    forall c | c in s.holders
      ensures |s.holders| > 0
    {
      assert c in s.holders.Keys;
    }
  }

  // ---------------------------------------------------------------- the rate bound

  /** Two windows that are d apart start at least d minutes apart. */
  lemma {:induction false} StartsApart(starts: seq<int>, log: seq<Admission>, i: nat, d: nat)
    requires WindowsApart(starts, log) && i + d < |starts|
    ensures starts[i] + d * MINUTE <= starts[i + d]
  {
    if d > 0 {
      StartsApart(starts, log, i, d - 1);
    }
  }

  /** The least number of minutes that covers a length of time. */
  function Minutes(length: nat): (k: nat)
    ensures length <= k * MINUTE && (k > 0 ==> (k - 1) * MINUTE < length)
  {
    if length % MINUTE == 0 then length / MINUTE else length / MINUTE + 1
  }

  /** Admissions no more than k minutes apart are no more than k windows apart. */
  lemma CloseInTimeCloseInWindow(starts: seq<int>, log: seq<Admission>, i: nat, j: nat, k: nat)
    requires WindowsApart(starts, log) && i <= j < |log|
    requires log[j].time <= log[i].time + k * MINUTE
    ensures log[j].win <= log[i].win + k
  {
    if log[j].win > log[i].win + k {
      StartsApart(starts, log, log[i].win - 1, log[j].win - log[i].win);
    }
  }

  /** The admissions of count windows from first on. */
  function InWindows(log: seq<Admission>, first: nat, count: nat): nat {
    if count == 0 then 0 else InWindows(log, first, count - 1) + InWindow(log, first + count - 1)
  }

  lemma {:induction false} InWindowsBound(log: seq<Admission>, first: nat, count: nat, perMin: nat)
    requires forall win :: InWindow(log, win) <= perMin
    ensures InWindows(log, first, count) <= count * perMin
  {
    if count > 0 {
      InWindowsBound(log, first, count - 1, perMin);
      assert InWindow(log, first + count - 1) <= perMin;
      assert count * perMin == (count - 1) * perMin + perMin;
    }
  }

  lemma {:induction false} InWindowsAdds(log: seq<Admission>, first: nat, count: nat)
    requires |log| > 0
    ensures InWindows(log, first, count) == InWindows(log[..|log| - 1], first, count)
                                            + if first <= log[|log| - 1].win < first + count then 1 else 0
  {
    if count > 0 {
      InWindowsAdds(log, first, count - 1);
    }
  }

  lemma {:induction false} IntervalInWindows(log: seq<Admission>, lo: int, hi: int, first: nat, count: nat)
    requires forall i :: 0 <= i < |log| && lo <= log[i].time <= hi ==> first <= log[i].win < first + count
    ensures Between(log, lo, hi) <= InWindows(log, first, count)
  {
    if |log| > 0 {
      IntervalInWindows(log[..|log| - 1], lo, hi, first, count);
      InWindowsAdds(log, first, count);
    }
  }

  /** The first admission of the interval. */
  lemma {:induction false} FirstBetween(log: seq<Admission>, lo: int, hi: int) returns (i: nat)
    requires Between(log, lo, hi) > 0
    ensures i < |log| && lo <= log[i].time <= hi
    ensures forall j :: 0 <= j < i ==> !(lo <= log[j].time <= hi)
  {
    var front := log[..|log| - 1];
    if Between(front, lo, hi) > 0 {
      i := FirstBetween(front, lo, hi);
      assert forall j :: 0 <= j < i ==> log[j] == front[j];
    } else {
      i := |log| - 1;
      NoneBetween(front, lo, hi);
      assert forall j :: 0 <= j < i ==> log[j] == front[j];
    }
  }

  lemma {:induction false} NoneBetween(log: seq<Admission>, lo: int, hi: int)
    requires Between(log, lo, hi) == 0
    ensures forall j :: 0 <= j < |log| ==> !(lo <= log[j].time <= hi)
  {
    if |log| > 0 {
      var front := log[..|log| - 1];
      NoneBetween(front, lo, hi);
      assert forall j :: 0 <= j < |front| ==> log[j] == front[j];
    }
  }

  /** The admissions of an interval whose windows are at most k apart. */
  lemma IntervalOfWindows(starts: seq<int>, log: seq<Admission>, perMin: nat, lo: int, hi: int, k: nat)
    requires WindowsApart(starts, log) && forall win :: InWindow(log, win) <= perMin
    requires forall i, j :: 0 <= i <= j < |log| && lo <= log[i].time <= hi && lo <= log[j].time <= hi
                       ==> log[j].win <= log[i].win + k
    ensures Between(log, lo, hi) <= (k + 1) * perMin
  {
    if Between(log, lo, hi) > 0 {
      var i := FirstBetween(log, lo, hi);
      FromFirst(starts, log, lo, hi, k, i);
      IntervalInWindows(log, lo, hi, log[i].win, k + 1);
      InWindowsBound(log, log[i].win, k + 1, perMin);
    }
  }

  lemma FromFirst(starts: seq<int>, log: seq<Admission>, lo: int, hi: int, k: nat, i: nat)
    requires WindowsApart(starts, log) && i < |log| && lo <= log[i].time <= hi
    requires forall j :: 0 <= j < i ==> !(lo <= log[j].time <= hi)
    requires forall i, j :: 0 <= i <= j < |log| && lo <= log[i].time <= hi && lo <= log[j].time <= hi
                       ==> log[j].win <= log[i].win + k
    ensures forall j :: 0 <= j < |log| && lo <= log[j].time <= hi ==> log[i].win <= log[j].win < log[i].win + (k + 1)
  {
  }

  /** In every run, under any interleaving of any number of callers, any closed interval contains
      at most one window's worth of admitted calls more than it has begun minutes. */
  lemma RateBound(states: seq<State>, steps: seq<Step>, perMin: nat, cap: nat, start: int, lo: int, hi: int)
    requires Run(states, steps, perMin, cap) && Init(states[0], start) && lo <= hi
    ensures Between(states[|steps|].log, lo, hi) <= (Minutes(hi - lo) + 1) * perMin
  {
    RunKeepsInv(states, steps, perMin, cap, start);
    var s, k := states[|steps|], Minutes(hi - lo);
    forall i, j | 0 <= i <= j < |s.log| && lo <= s.log[i].time <= hi && lo <= s.log[j].time <= hi
      ensures s.log[j].win <= s.log[i].win + k
    {
      CloseInTimeCloseInWindow(s.starts, s.log, i, j, k);
    }
    IntervalOfWindows(s.starts, s.log, perMin, lo, hi, k);
  }

  /** Between admissions of different windows the later window begins. */
  lemma LaterWindowBegins(starts: seq<int>, log: seq<Admission>, i: nat, j: nat)
    requires WindowsApart(starts, log) && i <= j < |log| && log[i].win < log[j].win
    ensures 0 < log[j].win <= |starts| && log[i].time < starts[log[j].win - 1] <= log[j].time
  {
    StartsApart(starts, log, log[i].win - 1, log[j].win - log[i].win);
  }

  /** An interval in which no window begins, its left end aside, holds at most the limit. */
  lemma OneWindowBound(states: seq<State>, steps: seq<Step>, perMin: nat, cap: nat, start: int, lo: int, hi: int)
    requires Run(states, steps, perMin, cap) && Init(states[0], start)
    requires forall i :: 0 <= i < |states[|steps|].starts| ==> !(lo < states[|steps|].starts[i] <= hi)
    ensures Between(states[|steps|].log, lo, hi) <= perMin
  {
    RunKeepsInv(states, steps, perMin, cap, start);
    var s := states[|steps|];
    forall i, j | 0 <= i <= j < |s.log| && lo <= s.log[i].time <= hi && lo <= s.log[j].time <= hi
      ensures s.log[j].win <= s.log[i].win + 0
    {
      if s.log[j].win > s.log[i].win {
        LaterWindowBegins(s.starts, s.log, i, j);
      }
    }
    IntervalOfWindows(s.starts, s.log, perMin, lo, hi, 0);
  }

  // ---------------------------------------------------------------- the bound is reached

  /** No call is under way. */
  ghost predicate Idle(s: State) {
    s.shared.sem == 0 && s.holders == map[] && s.lock == Free
  }

  /** The state after one caller, with nobody else around, was admitted at now and returned. */
  function AfterCall(s: State, now: int): State {
    var expired := now - s.shared.window >= MINUTE;
    var starts := if expired then s.starts + [now] else s.starts;
    State(Shared(0, if expired then now else s.shared.window, if expired then 1 else s.shared.count + 1),
          map[], Free, now, starts, s.log + [Admission(now, |starts|)])
  }

  lemma OneCall(s: State, perMin: nat, cap: nat, now: int) returns (states: seq<State>, steps: seq<Step>)
    requires Idle(s) && cap > 0 && s.clock <= now
    requires if now - s.shared.window >= MINUTE then perMin > 0 else s.shared.count < perMin
    ensures Run(states, steps, perMin, cap) && states[0] == s && states[|steps|] == AfterCall(s, now)
  {
    var after := AfterCall(s, now);
    var taken := s.(shared := s.shared.(sem := 1), holders := map[0 := Waiting]);
    var running := after.(shared := after.shared.(sem := 1), holders := map[0 := Running]);
    states, steps := [s, taken, running, after], [Take(0), Check(0, now), Release(0)];
    assert Next(s, taken, perMin, cap, Take(0));
    assert Next(taken, running, perMin, cap, Check(0, now));
    assert map[0 := Running] - {0} == map[];
    assert Next(running, after, perMin, cap, Release(0));
  }

  /** A run that ends where another begins, and both together. */
  lemma RunConcat(a: seq<State>, ea: seq<Step>, b: seq<State>, eb: seq<Step>, perMin: nat, cap: nat)
    requires Run(a, ea, perMin, cap) && Run(b, eb, perMin, cap) && a[|ea|] == b[0]
    ensures Run(a + b[1..], ea + eb, perMin, cap)
    ensures (a + b[1..])[0] == a[0] && (a + b[1..])[|ea + eb|] == b[|eb|]
  {
    var states, steps := a + b[1..], ea + eb;
    forall i | 0 <= i < |steps|
      ensures Next(states[i], states[i + 1], perMin, cap, steps[i])
    {
      if i < |ea| {
        assert Next(a[i], a[i + 1], perMin, cap, ea[i]);
      } else {
        assert states[i] == b[i - |ea|] && states[i + 1] == b[i - |ea| + 1];
        assert Next(b[i - |ea|], b[i - |ea| + 1], perMin, cap, eb[i - |ea|]);
      }
    }
  }

  /** n calls in a row at one instant of the current window. */
  lemma {:induction false} Burst(s: State, perMin: nat, cap: nat, now: int, n: nat, lo: int, hi: int)
      returns (states: seq<State>, steps: seq<Step>)
    requires Idle(s) && cap > 0 && s.clock <= now < s.shared.window + MINUTE
    requires s.shared.count + n <= perMin && lo <= now <= hi
    ensures Run(states, steps, perMin, cap) && states[0] == s
    ensures var t := states[|steps|];
            && Idle(t) && t.clock <= now && t.shared == s.shared.(count := s.shared.count + n)
            && Between(t.log, lo, hi) == Between(s.log, lo, hi) + n
  {
    if n == 0 {
      states, steps := [s], [];
    } else {
      var a, ea := Burst(s, perMin, cap, now, n - 1, lo, hi);
      var m := a[|ea|];
      var b, eb := OneCall(m, perMin, cap, now);
      RunConcat(a, ea, b, eb, perMin, cap);
      states, steps := a + b[1..], ea + eb;
      assert AfterCall(m, now).log[..|m.log|] == m.log;
    }
  }

  /** A full window that opens at the instant now. */
  lemma FullWindow(s: State, perMin: nat, cap: nat, now: int, lo: int, hi: int)
      returns (states: seq<State>, steps: seq<Step>)
    requires Idle(s) && cap > 0 && perMin > 0 && s.clock <= now && s.shared.window + MINUTE <= now
    requires lo <= now <= hi
    ensures Run(states, steps, perMin, cap) && states[0] == s
    ensures var t := states[|steps|];
            && Idle(t) && t.clock <= now && t.shared.window == now
            && Between(t.log, lo, hi) == Between(s.log, lo, hi) + perMin
  {
    var a, ea := OneCall(s, perMin, cap, now);
    var m := a[|ea|];
    assert m.log[..|s.log|] == s.log;
    var b, eb := Burst(m, perMin, cap, now, perMin - 1, lo, hi);
    RunConcat(a, ea, b, eb, perMin, cap);
    states, steps := a + b[1..], ea + eb;
  }

  /** The last instant of the first minute, from which the crowded intervals are counted. */
  const LAST := MINUTE - 1

  /** One window's worth at the end of the first minute, and k more, each at the start of its
      window: a crowd within k minutes less one nanosecond each way. */
  lemma {:induction false} Crowd(perMin: nat, cap: nat, k: nat, hi: int) returns (states: seq<State>, steps: seq<Step>)
    requires perMin > 0 && cap > 0 && LAST <= hi && k * MINUTE <= hi
    ensures Run(states, steps, perMin, cap) && Init(states[0], 0)
    ensures var t := states[|steps|];
            && Idle(t) && t.clock <= (if k == 0 then LAST else k * MINUTE) && t.shared.window == k * MINUTE
            && Between(t.log, LAST, hi) == (k + 1) * perMin
  {
    if k == 0 {
      var s := State(Shared(0, 0, 0), map[], Free, 0, [0], []);
      states, steps := Burst(s, perMin, cap, LAST, perMin, LAST, hi);
    } else {
      var a, ea := Crowd(perMin, cap, k - 1, hi);
      var b, eb := FullWindow(a[|ea|], perMin, cap, k * MINUTE, LAST, hi);
      RunConcat(a, ea, b, eb, perMin, cap);
      states, steps := a + b[1..], ea + eb;
      assert (k + 1) * perMin == k * perMin + perMin;
    }
  }

  /** The bound is the least one: for every limit and every length there is a run in which some
      closed interval of that length contains so many admitted calls. */
  lemma RateBoundIsTight(perMin: nat, cap: nat, length: nat) returns (states: seq<State>, steps: seq<Step>, lo: int)
    requires perMin > 0 && cap > 0
    ensures Run(states, steps, perMin, cap) && Init(states[0], 0)
    ensures Between(states[|steps|].log, lo, lo + length) == (Minutes(length) + 1) * perMin
  {
    lo := LAST;
    states, steps := Crowd(perMin, cap, Minutes(length), lo + length);
  }

  ghost predicate WithinLimit(log: seq<Admission>, lo: int, length: nat, perMin: nat) {
    Between(log, lo, lo + length) <= perMin
  }

  /** A run from a new budget, made at whatever time. */
  ghost predicate RunFromStart(states: seq<State>, steps: seq<Step>, perMin: nat, cap: nat) {
    Run(states, steps, perMin, cap) && Init(states[0], states[0].clock)
  }

  /** Every run keeps every closed interval of this length within the limit. */
  ghost predicate LimitHolds(perMin: nat, cap: nat, length: nat) {
    forall states: seq<State>, steps: seq<Step>, lo: int ::
      RunFromStart(states, steps, perMin, cap) ==> WithinLimit(states[|steps|].log, lo, length, perMin)
  }

  /** The limit holds for single instants, and for no positive length of time. */
  lemma LimitHoldsIff(perMin: nat, cap: nat, length: nat)
    requires perMin > 0 && cap > 0
    ensures LimitHolds(perMin, cap, length) <==> length == 0
  {
    if length == 0 {
      forall states: seq<State>, steps: seq<Step>, lo: int | RunFromStart(states, steps, perMin, cap)
        ensures WithinLimit(states[|steps|].log, lo, length, perMin)
      {
        RateBound(states, steps, perMin, cap, states[0].clock, lo, lo + length);
      }
    } else {
      var states, steps, lo := RateBoundIsTight(perMin, cap, length);
      assert (Minutes(length) + 1) * perMin >= 2 * perMin by { MoreWindows(Minutes(length), perMin); }
      assert RunFromStart(states, steps, perMin, cap);
      assert !WithinLimit(states[|steps|].log, lo, length, perMin);
    }
  }

  lemma MoreWindows(k: nat, perMin: nat)
    requires k >= 1
    ensures (k + 1) * perMin >= 2 * perMin
  {
  }
}
