// The counter of the API key guard when requests overlap: a request reads the
// counter and, if it is let through, writes one more than it read; other requests
// may read and write in between.
//
// `count` is what one key, or one IP, has in the cache.
module OverlappingRequests {
  import opened Common
  import opened ApiKeyLimiter

  // `held` is what each request in flight has read, `passed` the times at which
  // requests were let through.
  datatype System = System(entry: Option<Counter>, held: map<nat, nat>, passed: seq<int>)

  datatype Step = Read(who: nat, request: Request) | Write(who: nat, at: int)

  const EMPTY := System(None, map[], [])

  function ReadStep(s: System, who: nat, r: Request, max: nat): System {
    if who in s.held || Current(s.entry, r) >= max then s else s.(held := s.held[who := Current(s.entry, r)])
  }

  function WriteStep(s: System, who: nat, now: int): System {
    if who !in s.held then s
    else System(Some(Counter(s.held[who] + 1, now + WINDOW)), s.held - {who}, s.passed + [now])
  }

  function Apply(s: System, step: Step, max: nat): System {
    match step
    case Read(who, r) => ReadStep(s, who, r, max)
    case Write(who, now) => WriteStep(s, who, now)
  }

  function Run(s: System, steps: seq<Step>, max: nat): System {
    if steps == [] then s else Apply(Run(s, steps[..|steps| - 1], max), steps[|steps| - 1], max)
  }

  function TimeAt(step: Step): int {
    match step
    case Read(_, r) => r.now
    case Write(_, now) => now
  }

  // A request that nothing comes between is one step of the guard.
  lemma UndisturbedRequest(s: System, who: nat, r: Request, max: nat)
    requires who !in s.held
    ensures var after := WriteStep(ReadStep(s, who, r, max), who, r.now);
            && after.entry == After(s.entry, r, max) && after.held == s.held
            && after.passed == s.passed + if Accepts(s.entry, r, max) then [r.now] else []
  {}

  // ------------------------------------------------------------------
  // Lattice paths
  // ------------------------------------------------------------------

  // The paths from one corner of a grid of `n` by `m` to the other: the binomial
  // coefficient of n + m over m.
  function Paths(n: nat, m: nat): (p: nat)
    ensures p >= 1
  {
    if n == 0 || m == 0 then 1 else Paths(n - 1, m) + Paths(n, m - 1)
  }

  function PathsAbove(n: nat, m: nat): nat {
    if n == 0 then 0 else Paths(n - 1, m + 1)
  }

  lemma OneMore(n: nat, m: nat)
    ensures PathsAbove(n + 1, m) == PathsAbove(n, m) + Paths(n, m)
    ensures PathsAbove(n, m) + Paths(n, m) == Paths(n, m + 1)
  {}

  lemma {:induction false} MoreIsNoLess(a: nat, b: nat, m: nat)
    requires a <= b
    ensures PathsAbove(a, m) <= PathsAbove(b, m)
  {
    if a < b {
      MoreIsNoLess(a, b - 1, m);
      OneMore(b - 1, m);
    }
  }

  // ------------------------------------------------------------------
  // What has passed, at most
  // ------------------------------------------------------------------

  function HoldsFrom(held: map<nat, nat>, x: nat): set<nat> {
    set w | w in held && held[w] >= x
  }

  // Of `slots` places, those in use by a request that has read `x` or more, and
  // those free while the counter stands at `x` or more.
  function SlotsFrom(count: nat, held: map<nat, nat>, slots: nat, x: nat): nat
    requires |held| <= slots
  {
    |HoldsFrom(held, x)| + if count >= x then slots - |held| else 0
  }

  // How many requests can have passed, by level below the maximum.
  function Ceiling(count: nat, held: map<nat, nat>, slots: nat, max: nat, m: nat): nat
    requires |held| <= slots && m <= max
  {
    if m == 0 then 0
    else Ceiling(count, held, slots, max, m - 1) + PathsAbove(SlotsFrom(count, held, slots, max - (m - 1)), m - 1)
  }

  lemma FewerHold(held: map<nat, nat>, x: nat, y: nat)
    requires x <= y
    ensures |HoldsFrom(held, y)| <= |HoldsFrom(held, x)| <= |held|
  {
    SubsetIsNoLarger(HoldsFrom(held, y), HoldsFrom(held, x));
    SubsetIsNoLarger(HoldsFrom(held, x), held.Keys);
    assert |held.Keys| == |held|;
  }

  lemma {:induction false} CeilingIsBounded(count: nat, held: map<nat, nat>, slots: nat, max: nat, m: nat)
    requires |held| <= slots && m <= max
    ensures Ceiling(count, held, slots, max, m) <= Paths(slots, m) - 1
  {
    if m > 0 {
      CeilingIsBounded(count, held, slots, max, m - 1);
      FewerHold(held, max - (m - 1), max - (m - 1));
      MoreIsNoLess(SlotsFrom(count, held, slots, max - (m - 1)), slots, m - 1);
      OneMore(slots, m - 1);
    }
  }

  lemma Released(held: map<nat, nat>, who: nat, x: nat)
    requires who in held
    ensures |held - {who}| == |held| - 1
    ensures |HoldsFrom(held, x)| == |HoldsFrom(held - {who}, x)| + if held[who] >= x then 1 else 0
  {
    assert (held - {who}).Keys == held.Keys - {who};
    assert |(held - {who}).Keys| == |held - {who}| && |held.Keys| == |held|;
    assert HoldsFrom(held - {who}, x) == HoldsFrom(held, x) - {who};
  }

  // A read takes a free place at the value the counter stands at: the ceiling stays.
  lemma {:induction false} ReadKeepsCeiling(count: nat, held: map<nat, nat>, who: nat, slots: nat, max: nat, m: nat)
    requires who !in held && |held| < slots && m <= max
    ensures |held[who := count]| == |held| + 1
    ensures Ceiling(count, held[who := count], slots, max, m) == Ceiling(count, held, slots, max, m)
  {
    var after := held[who := count];
    assert after - {who} == held;
    if m > 0 {
      ReadKeepsCeiling(count, held, who, slots, max, m - 1);
      Released(after, who, max - (m - 1));
    } else {
      Released(after, who, 0);
    }
  }

  // A write releases its place and moves the free ones to its own value plus one.
  // Below that level the ceiling may fall; at that level it rises by more.
  lemma {:induction false} WriteRaisesCeiling(count: nat, held: map<nat, nat>, who: nat, slots: nat, max: nat, m: nat)
    requires who in held && held[who] < max && |held| <= slots && m <= max
    ensures |held - {who}| <= slots
    ensures var h, free := held[who], slots - |held|;
            var n := |HoldsFrom(held - {who}, h + 1)| + free;
            var before := Ceiling(count, held, slots, max, m);
            var after := Ceiling(h + 1, held - {who}, slots, max, m);
            if max - m > h then before - after <= Paths(n, m) - 1 else after >= before + 1
  {
    var h, free := held[who], slots - |held|;
    Released(held, who, 0);
    if m > 0 {
      WriteRaisesCeiling(count, held, who, slots, max, m - 1);
      var x := max - (m - 1);
      WriteOnLevel(count, held, who, slots, x, m - 1);
      OneMore(|HoldsFrom(held - {who}, h + 1)| + free, m - 1);
    }
  }

  lemma WriteOnLevel(count: nat, held: map<nat, nat>, who: nat, slots: nat, x: nat, m: nat)
    requires who in held && |held| <= slots
    ensures |held - {who}| <= slots
    ensures var h := held[who];
            var n := |HoldsFrom(held - {who}, h + 1)| + slots - |held|;
            var before := PathsAbove(SlotsFrom(count, held, slots, x), m);
            var after := PathsAbove(SlotsFrom(h + 1, held - {who}, slots, x), m);
            if x > h + 1 then before - after <= PathsAbove(n, m)
            else if x == h + 1 then after - before >= Paths(n, m)
            else before <= after
  {
    var h := held[who];
    var n := |HoldsFrom(held - {who}, h + 1)| + slots - |held|;
    Released(held, who, x);
    var before, after := SlotsFrom(count, held, slots, x), SlotsFrom(h + 1, held - {who}, slots, x);
    if x > h + 1 {
      FewerHold(held - {who}, h + 1, x);
      MoreIsNoLess(before, n, m);
    } else if x == h + 1 {
      MoreIsNoLess(before, n, m);
      OneMore(n, m);
    } else {
      MoreIsNoLess(before, after, m);
    }
  }

  // ------------------------------------------------------------------
  // Over all runs
  // ------------------------------------------------------------------

  // How many requests passed in [from, to].
  function PassedIn(passed: seq<int>, from: int, to: int): nat {
    if passed == [] then 0
    else PassedIn(passed[..|passed| - 1], from, to) + if from <= passed[|passed| - 1] <= to then 1 else 0
  }

  ghost predicate AtMostInFlight(steps: seq<Step>, slots: nat, max: nat) {
    forall i | 0 <= i <= |steps| :: |Run(EMPTY, steps[..i], max).held| <= slots
  }

  // While the interval lasts, the ceiling covers what passed in it.
  ghost predicate Covered(s: System, from: int, to: int, slots: nat, max: nat)
    requires |s.held| <= slots
  {
    && (forall w | w in s.held :: s.held[w] < max)
    && (PassedIn(s.passed, from, to) > 0 ==>
          && s.entry.Some? && s.entry.value.expiresAt >= from + WINDOW
          && PassedIn(s.passed, from, to) <= Ceiling(s.entry.value.count, s.held, slots, max, max))
  }

  lemma ReadStaysCovered(s: System, who: nat, r: Request, from: int, to: int, slots: nat, max: nat)
    requires |s.held| <= slots && |ReadStep(s, who, r, max).held| <= slots && Covered(s, from, to, slots, max)
    requires r.now <= to < from + WINDOW
    ensures Covered(ReadStep(s, who, r, max), from, to, slots, max)
  {
    if ReadStep(s, who, r, max) != s {
      var count := Current(s.entry, r);
      assert s.held[who := count] - {who} == s.held;
      Released(s.held[who := count], who, 0);
      ReadKeepsCeiling(count, s.held, who, slots, max, max);
    }
  }

  lemma WriteStaysCovered(s: System, who: nat, now: int, from: int, to: int, slots: nat, max: nat)
    requires |s.held| <= slots && Covered(s, from, to, slots, max)
    requires now < from ==> PassedIn(s.passed, from, to) == 0
    requires now <= to
    ensures |WriteStep(s, who, now).held| <= slots && Covered(WriteStep(s, who, now), from, to, slots, max)
    ensures now < from ==> PassedIn(WriteStep(s, who, now).passed, from, to) == 0
  {
    if who in s.held {
      assert (s.passed + [now])[..|s.passed|] == s.passed;
      WriteRaisesCeiling(if s.entry.Some? then s.entry.value.count else 0, s.held, who, slots, max, max);
    }
  }

  lemma {:induction false} EveryRunIsCovered(steps: seq<Step>, n: nat, from: int, to: int, slots: nat, max: nat)
    requires n <= |steps| && ClockGoesForward(steps, TimeAt) && AtMostInFlight(steps, slots, max)
    requires to - from < WINDOW
    ensures |Run(EMPTY, steps[..n], max).held| <= slots
    ensures n > 0 && TimeAt(steps[n - 1]) < from ==> PassedIn(Run(EMPTY, steps[..n], max).passed, from, to) == 0
    ensures n == 0 || TimeAt(steps[n - 1]) <= to ==> Covered(Run(EMPTY, steps[..n], max), from, to, slots, max)
    ensures PassedIn(Run(EMPTY, steps[..n], max).passed, from, to) <= Paths(slots, max) - 1
  {
    if n > 0 {
      var s := Run(EMPTY, steps[..n - 1], max);
      EveryRunIsCovered(steps, n - 1, from, to, slots, max);
      assert steps[..n][..n - 1] == steps[..n - 1];
      assert Run(EMPTY, steps[..n], max) == Apply(s, steps[n - 1], max);
      match steps[n - 1]
      case Read(who, r) =>
        if r.now <= to {
          ReadStaysCovered(s, who, r, from, to, slots, max);
        }
      case Write(who, now) =>
        if now <= to {
          WriteStaysCovered(s, who, now, from, to, slots, max);
          CoveredIsBounded(WriteStep(s, who, now), from, to, slots, max);
        } else if who in s.held {
          assert (s.passed + [now])[..|s.passed|] == s.passed;
        }
    }
  }

  lemma CoveredIsBounded(s: System, from: int, to: int, slots: nat, max: nat)
    requires |s.held| <= slots && Covered(s, from, to, slots, max)
    ensures PassedIn(s.passed, from, to) <= Paths(slots, max) - 1
  {
    if PassedIn(s.passed, from, to) > 0 {
      CeilingIsBounded(s.entry.value.count, s.held, slots, max, max);
    }
  }

  // In every interleaving with at most `slots` requests between their read and
  // their write: in an interval shorter than the window at most the binomial
  // coefficient of slots + max over max, less one, are let through.
  lemma AtMostPathsInAnyWindow(steps: seq<Step>, from: int, to: int, slots: nat, max: nat)
    requires ClockGoesForward(steps, TimeAt) && AtMostInFlight(steps, slots, max) && to - from < 60
    ensures PassedIn(Run(EMPTY, steps, max).passed, from, to) <= Paths(slots, max) - 1
  {
    EveryRunIsCovered(steps, |steps|, from, to, slots, max);
    assert steps[..|steps|] == steps;
  }

  // One request at a time: the maximum.  Two: quadratic in it.
  lemma {:induction false} SmallGrids(m: nat)
    ensures Paths(1, m) - 1 == m
    ensures 2 * Paths(2, m) == (m + 1) * (m + 2)
  {
    if m > 0 {
      SmallGrids(m - 1);
    }
  }

  // ------------------------------------------------------------------
  // The bound is reached
  // ------------------------------------------------------------------

  const AT_ZERO := Request("", 0, false)

  function Reads(n: nat): seq<Step> {
    if n == 0 then [] else Reads(n - 1) + [Read(n - 1, AT_ZERO)]
  }

  // `n` requests read the counter, `m` below the maximum.  They write one after the
  // other, and after each write the requests that have written start again on the
  // next level.
  function Fill(n: nat, m: nat): seq<Step>
    decreases m, n, 1
  {
    if n == 0 || m == 0 then [] else Reads(n) + Rounds(n, m)
  }

  function Rounds(i: nat, m: nat): seq<Step>
    requires m > 0
    decreases m, i, 0
  {
    if i == 0 then [] else (Rounds(i - 1, m) + [Write(i - 1, 0)]) + Fill(i, m - 1)
  }

  predicate StaysWithin(s: System, steps: seq<Step>, slots: nat, max: nat) {
    && |Run(s, steps, max).held| <= slots
    && (steps != [] ==> StaysWithin(s, steps[..|steps| - 1], slots, max))
  }

  lemma {:induction false} ConcatStaysWithin(s: System, a: seq<Step>, b: seq<Step>, slots: nat, max: nat)
    requires StaysWithin(s, a, slots, max) && StaysWithin(Run(s, a, max), b, slots, max)
    ensures Run(s, a + b, max) == Run(Run(s, a, max), b, max) && StaysWithin(s, a + b, slots, max)
  {
    if b == [] {
      assert a + b == a;
    } else {
      assert (a + b)[..|a + b| - 1] == a + b[..|b| - 1];
      ConcatStaysWithin(s, a, b[..|b| - 1], slots, max);
    }
  }

  lemma {:induction false} WithinAtEveryStep(s: System, steps: seq<Step>, i: nat, slots: nat, max: nat)
    requires StaysWithin(s, steps, slots, max) && i <= |steps|
    ensures |Run(s, steps[..i], max).held| <= slots
  {
    if i == |steps| {
      assert steps[..i] == steps;
    } else {
      assert steps[..|steps| - 1][..i] == steps[..i];
      WithinAtEveryStep(s, steps[..|steps| - 1], i, slots, max);
    }
  }

  lemma OneStepStaysWithin(s: System, step: Step, slots: nat, max: nat)
    requires |s.held| <= slots && |Apply(s, step, max).held| <= slots
    ensures Run(s, [step], max) == Apply(s, step, max) && StaysWithin(s, [step], slots, max)
  {
    assert [step][..0] == [];
    assert Run(s, [], max) == s && StaysWithin(s, [], slots, max);
  }

  // At time 0 the counter stands at `count`.
  predicate Stands(s: System, count: nat) {
    Current(s.entry, AT_ZERO) == count
  }

  predicate SameAt(a: map<nat, nat>, b: map<nat, nat>, w: nat) {
    if w in a then w in b && b[w] == a[w] else w !in b
  }

  ghost predicate AllHold(held: map<nat, nat>, n: nat, count: nat) {
    forall w: nat | w < n :: w in held && held[w] == count
  }

  ghost predicate NoneHold(held: map<nat, nat>, n: nat) {
    forall w: nat | w < n :: w !in held
  }

  // The first `n` requests have read `count`, and the others hold what they held.
  ghost predicate HaveRead(held: map<nat, nat>, after: map<nat, nat>, n: nat, count: nat) {
    && |after| == |held| + n
    && AllHold(after, n, count)
    && (forall w: nat | w >= n :: SameAt(held, after, w))
  }

  lemma OneMoreReads(held: map<nat, nat>, before: map<nat, nat>, n: nat, count: nat)
    requires HaveRead(held, before, n, count) && n !in held
    ensures HaveRead(held, before[n := count], n + 1, count)
  {
    var after := before[n := count];
    assert SameAt(held, before, n);
    forall w: nat | w >= n + 1 ensures SameAt(held, after, w) {
      assert SameAt(held, before, w);
    }
  }

  // The first `n` requests have written, and the others hold what they held.
  ghost predicate HaveWritten(held: map<nat, nat>, after: map<nat, nat>, n: nat) {
    && |after| + n == |held|
    && NoneHold(after, n)
    && (forall w: nat | w >= n :: SameAt(held, after, w))
  }

  lemma OneMoreWrites(held: map<nat, nat>, before: map<nat, nat>, n: nat)
    requires HaveWritten(held, before, n) && n in held
    ensures HaveWritten(held, before - {n}, n + 1)
  {
    assert SameAt(held, before, n);
    Released(before, n, 0);
    var after := before - {n};
    forall w: nat | w >= n + 1 ensures SameAt(held, after, w) {
      assert SameAt(held, before, w);
    }
  }

  lemma AllHaveWritten(held: map<nat, nat>, middle: map<nat, nat>, after: map<nat, nat>, n: nat, count: nat)
    requires HaveRead(held, middle, n, count) && HaveWritten(middle, after, n) && NoneHold(held, n)
    ensures after == held
  {
    forall w: nat ensures SameAt(held, after, w) {
      if w >= n {
        assert SameAt(held, middle, w) && SameAt(middle, after, w);
      }
    }
    assert forall w: nat :: w in after ==> SameAt(held, after, w);
    assert forall w: nat :: w in held ==> SameAt(held, after, w);
  }

  lemma {:induction false} ReadsAreHeld(s: System, n: nat, count: nat, slots: nat, max: nat)
    requires Stands(s, count) && count < max && |s.held| + n <= slots && NoneHold(s.held, n)
    ensures var after := Run(s, Reads(n), max);
            HaveRead(s.held, after.held, n, count) && after == s.(held := after.held)
    ensures StaysWithin(s, Reads(n), slots, max)
  {
    if n > 0 {
      ReadsAreHeld(s, n - 1, count, slots, max);
      var before, last := Run(s, Reads(n - 1), max), Read(n - 1, AT_ZERO);
      OneMoreReads(s.held, before.held, n - 1, count);
      assert Apply(before, last, max) == before.(held := before.held[n - 1 := count]);
      OneStepStaysWithin(before, last, slots, max);
      ConcatStaysWithin(s, Reads(n - 1), [last], slots, max);
    }
  }

  // What the part of the schedule adds to what has passed.
  ghost predicate Adds(s: System, steps: seq<Step>, passed: nat, slots: nat, max: nat) {
    && PassedIn(Run(s, steps, max).passed, 0, 0) == PassedIn(s.passed, 0, 0) + passed
    && StaysWithin(s, steps, slots, max)
  }

  lemma AddsUp(s: System, a: seq<Step>, b: seq<Step>, m: nat, n: nat, slots: nat, max: nat)
    requires Adds(s, a, m, slots, max) && Adds(Run(s, a, max), b, n, slots, max)
    ensures Run(s, a + b, max) == Run(Run(s, a, max), b, max) && Adds(s, a + b, m + n, slots, max)
  {
    ConcatStaysWithin(s, a, b, slots, max);
  }

  lemma {:induction false} FillPasses(s: System, n: nat, m: nat, slots: nat, max: nat)
    requires m <= max && Stands(s, max - m) && |s.held| + n <= slots && NoneHold(s.held, n)
    ensures Run(s, Fill(n, m), max).held == s.held && Adds(s, Fill(n, m), Paths(n, m) - 1, slots, max)
    decreases m, n, 1
  {
    if n > 0 && m > 0 {
      ReadsAreHeld(s, n, max - m, slots, max);
      var middle := Run(s, Reads(n), max);
      RoundsPass(middle, n, m, slots, max);
      AllHaveWritten(s.held, middle.held, Run(middle, Rounds(n, m), max).held, n, max - m);
      AddsUp(s, Reads(n), Rounds(n, m), 0, Paths(n, m) - 1, slots, max);
    }
  }

  lemma {:induction false} RoundsPass(s: System, i: nat, m: nat, slots: nat, max: nat)
    requires 0 < m <= max && |s.held| <= slots
    requires AllHold(s.held, i, max - m)
    ensures HaveWritten(s.held, Run(s, Rounds(i, m), max).held, i)
    ensures Adds(s, Rounds(i, m), Paths(i, m) - 1, slots, max)
    decreases m, i, 0
  {
    if i > 0 {
      RoundsPass(s, i - 1, m, slots, max);
      var s1, write := Run(s, Rounds(i - 1, m), max), Write(i - 1, 0);
      RoundWrites(s.held, s1, i - 1, m, slots, max);
      AddsUp(s, Rounds(i - 1, m), [write], Paths(i - 1, m) - 1, 1, slots, max);
      FillPasses(WriteStep(s1, i - 1, 0), i, m - 1, slots, max);
      AddsUp(s, Rounds(i - 1, m) + [write], Fill(i, m - 1), Paths(i - 1, m), Paths(i, m - 1) - 1, slots, max);
    }
  }

  lemma RoundWrites(held: map<nat, nat>, s: System, i: nat, m: nat, slots: nat, max: nat)
    requires 0 < m <= max && |held| <= slots && HaveWritten(held, s.held, i) && AllHold(held, i + 1, max - m)
    ensures var after := WriteStep(s, i, 0);
            && Run(s, [Write(i, 0)], max) == after && HaveWritten(held, after.held, i + 1)
            && Stands(after, max - (m - 1))
    ensures Adds(s, [Write(i, 0)], 1, slots, max)
  {
    assert held[i] == max - m && SameAt(held, s.held, i);
    WritePasses(s, i, slots, max);
    OneMoreWrites(held, s.held, i);
  }

  lemma WritePasses(s: System, who: nat, slots: nat, max: nat)
    requires who in s.held && |s.held| <= slots
    ensures Run(s, [Write(who, 0)], max) == WriteStep(s, who, 0)
    ensures Stands(WriteStep(s, who, 0), s.held[who] + 1) && |WriteStep(s, who, 0).held| == |s.held| - 1
    ensures Adds(s, [Write(who, 0)], 1, slots, max)
  {
    Released(s.held, who, 0);
    OneStepStaysWithin(s, Write(who, 0), slots, max);
    assert (s.passed + [0])[..|s.passed|] == s.passed;
  }

  lemma {:induction false} AllAtZero(n: nat, m: nat)
    ensures forall step | step in Fill(n, m) :: TimeAt(step) == 0
    decreases m, n, 1
  {
    if n > 0 && m > 0 {
      ReadsAtZero(n);
      RoundsAtZero(n, m);
    }
  }

  lemma {:induction false} ReadsAtZero(n: nat)
    ensures forall step | step in Reads(n) :: TimeAt(step) == 0
  {
    if n > 0 {
      ReadsAtZero(n - 1);
    }
  }

  lemma {:induction false} RoundsAtZero(i: nat, m: nat)
    requires m > 0
    ensures forall step | step in Rounds(i, m) :: TimeAt(step) == 0
    decreases m, i, 0
  {
    if i > 0 {
      RoundsAtZero(i - 1, m);
      AllAtZero(i, m - 1);
    }
  }

  // And so many are let through by some interleaving, at a single moment, whatever
  // the number of requests in flight and the maximum.
  lemma PathsAreReached(slots: nat, max: nat)
    ensures var steps := Fill(slots, max);
            && ClockGoesForward(steps, TimeAt) && AtMostInFlight(steps, slots, max)
            && PassedIn(Run(EMPTY, steps, max).passed, 0, 0) == Paths(slots, max) - 1
  {
    var steps := Fill(slots, max);
    AllAtZero(slots, max);
    FillPasses(EMPTY, slots, max, slots, max);
    forall i | 0 <= i <= |steps| ensures |Run(EMPTY, steps[..i], max).held| <= slots {
      WithinAtEveryStep(EMPTY, steps, i, slots, max);
    }
  }
}
