// Signature challenges: nonces are issued, selected, claimed and judged by
// requests that interleave with one another and with the cleanup job.
module Nonces {
  import opened Common

  const LIFETIME_MS := 300 * 1000
  const GRACE_MS := 60 * 60 * 1000

  datatype Row = Row(wallet: string, expiresAt: int, used: bool)

  datatype Outcome = NotFound | Expired | BadSignature | Accepted

  // A verify request between its database statements.
  datatype Request =
    | Selected(nonce: string, claimant: string, expiresAt: int)
    | Claimed(nonce: string, claimant: string, expiresAt: int)
    | Done(outcome: Outcome)

  datatype Action =
    | Issue(nonce: string, wallet: string)
    | Select(who: nat, wanted: string, claimant: string)
    | Claim(who: nat)
    | Judge(who: nat, signatureHolds: bool)
    | Cleanup

  datatype Step = Step(now: int, action: Action)

  // `issued`, `claims` and `logins` are the history: every nonce ever issued with
  // its expiry and wallet, the nonces claimed and the nonces that logged in.
  datatype System = System(
    rows: map<string, Row>,
    requests: map<nat, Request>,
    issued: map<string, Row>,
    claims: seq<string>,
    logins: seq<string>)

  const EMPTY := System(map[], map[], map[], [], [])

  // ------------------------------------------------------------------
  // The steps
  // ------------------------------------------------------------------

  function Become(s: System, who: nat, request: Request): System {
    s.(requests := s.requests[who := request])
  }

  // Nonces are 32 random bytes: one is never issued twice.
  function IssueStep(s: System, now: int, nonce: string, wallet: string): System {
    if nonce in s.issued then s
    else
      var row := Row(wallet, now + LIFETIME_MS, false);
      s.(rows := s.rows[nonce := row], issued := s.issued[nonce := row])
  }

  function SelectStep(s: System, who: nat, nonce: string, wallet: string): System {
    if who in s.requests then s
    else if nonce in s.rows && s.rows[nonce].wallet == wallet && !s.rows[nonce].used
    then Become(s, who, Selected(nonce, wallet, s.rows[nonce].expiresAt))
    else Become(s, who, Done(NotFound))
  }

  // The update guarded by `used_at IS NULL`, one atomic statement.
  function ClaimStep(s: System, who: nat): System {
    if who !in s.requests || !s.requests[who].Selected? then s
    else
      var nonce := s.requests[who].nonce;
      if nonce in s.rows && !s.rows[nonce].used
      then Become(s, who, Claimed(nonce, s.requests[who].claimant, s.requests[who].expiresAt))
           .(rows := s.rows[nonce := s.rows[nonce].(used := true)], claims := s.claims + [nonce])
      else Become(s, who, Done(NotFound))
  }

  // Expiry is looked at after the claim, then the signature.
  function JudgeStep(s: System, now: int, who: nat, signatureHolds: bool): System {
    if who !in s.requests || !s.requests[who].Claimed? then s
    else if s.requests[who].expiresAt < now then Become(s, who, Done(Expired))
    else if !signatureHolds then Become(s, who, Done(BadSignature))
    else Become(s, who, Done(Accepted)).(logins := s.logins + [s.requests[who].nonce])
  }

  function CleanupStep(s: System, now: int): System {
    s.(rows := map n | n in s.rows && !(s.rows[n].expiresAt < now - GRACE_MS) :: s.rows[n])
  }

  function Apply(s: System, step: Step): System {
    match step.action
    case Issue(nonce, wallet) => IssueStep(s, step.now, nonce, wallet)
    case Select(who, nonce, wallet) => SelectStep(s, who, nonce, wallet)
    case Claim(who) => ClaimStep(s, who)
    case Judge(who, holds) => JudgeStep(s, step.now, who, holds)
    case Cleanup => CleanupStep(s, step.now)
  }

  ghost function Run(steps: seq<Step>): System {
    if steps == [] then EMPTY else Apply(Run(steps[..|steps| - 1]), steps[|steps| - 1])
  }

  // ------------------------------------------------------------------
  // Once per nonce
  // ------------------------------------------------------------------

  // Rows keep the wallet and expiry they were issued with, and requests carry it.
  ghost predicate RowsAreIssued(s: System) {
    && (forall n | n in s.rows :: n in s.issued && s.rows[n] == s.issued[n].(used := s.rows[n].used))
    && (forall w | w in s.requests && !s.requests[w].Done? ::
          && s.requests[w].nonce in s.issued && s.requests[w].expiresAt == s.issued[s.requests[w].nonce].expiresAt
          && s.requests[w].claimant == s.issued[s.requests[w].nonce].wallet)
  }

  // A claimed nonce is used up, whatever the verdict.
  ghost predicate ClaimedOnce(s: System) {
    && Distinct(s.claims)
    && (forall n | n in s.rows && n in s.claims :: s.rows[n].used)
    && (forall n | n in s.claims :: n in s.issued)
  }

  ghost predicate Holds(s: System, who: nat) {
    who in s.requests && s.requests[who].Claimed?
  }

  // Each claim belongs to one request, which logs in at most once.
  ghost predicate LoggedInOnce(s: System) {
    && Distinct(s.logins)
    && (forall n | n in s.logins :: n in s.claims)
    && (forall w | Holds(s, w) :: s.requests[w].nonce in s.claims && s.requests[w].nonce !in s.logins)
    && (forall v, w | Holds(s, v) && Holds(s, w) && v != w :: s.requests[v].nonce != s.requests[w].nonce)
  }

  ghost predicate Inv(s: System) {
    RowsAreIssued(s) && ClaimedOnce(s) && LoggedInOnce(s)
  }

  lemma RequestsKeepRowsIssued(s: System, step: Step)
    requires RowsAreIssued(s) && !step.action.Issue? && !step.action.Cleanup?
    ensures RowsAreIssued(Apply(s, step))
  {}

  lemma RowsStayIssued(s: System, step: Step)
    requires RowsAreIssued(s)
    ensures RowsAreIssued(Apply(s, step))
  {
    if !step.action.Issue? && !step.action.Cleanup? {
      RequestsKeepRowsIssued(s, step);
    }
  }

  // What a step does to the history.
  lemma StepMakesHistory(s: System, step: Step)
    ensures var after := Apply(s, step);
            && (after.claims != s.claims ==>
                  && step.action.Claim? && step.action.who in s.requests && s.requests[step.action.who].Selected?
                  && var nonce := s.requests[step.action.who].nonce;
                     && nonce in s.rows && !s.rows[nonce].used && after.claims == s.claims + [nonce]
                     && after.requests[step.action.who].Claimed? && after.requests[step.action.who].nonce == nonce)
            && (after.logins != s.logins ==>
                  && step.action.Judge? && Holds(s, step.action.who)
                  && step.now <= s.requests[step.action.who].expiresAt && step.action.signatureHolds
                  && after.logins == s.logins + [s.requests[step.action.who].nonce]
                  && after.requests[step.action.who] == Done(Accepted))
  {}

  lemma ClaimsStayOnce(s: System, step: Step)
    requires RowsAreIssued(s) && ClaimedOnce(s)
    ensures ClaimedOnce(Apply(s, step))
  {
    match step.action
    case Claim(who) =>
      var after := ClaimStep(s, who);
      if after.claims != s.claims {
        var nonce := s.requests[who].nonce;
        assert after.claims == s.claims + [nonce] && nonce !in s.claims;
      }
    case _ =>
  }

  // A claim is new when it is made, and a request holds its claim until judged.
  lemma HoldersStay(s: System, step: Step, who: nat)
    requires Holds(Apply(s, step), who)
    ensures || (Holds(s, who) && Apply(s, step).requests[who] == s.requests[who] && !(step.action == Judge(who, true)
                && Apply(s, step).logins != s.logins))
            || (step.action == Claim(who) && Apply(s, step).claims == s.claims + [Apply(s, step).requests[who].nonce])
  {}

  lemma LoginsStayOnce(s: System, step: Step)
    requires RowsAreIssued(s) && ClaimedOnce(s) && LoggedInOnce(s)
    ensures LoggedInOnce(Apply(s, step))
  {
    var after := Apply(s, step);
    StepMakesHistory(s, step);
    forall w | Holds(after, w)
      ensures after.requests[w].nonce in after.claims && after.requests[w].nonce !in after.logins
    {
      HoldersStay(s, step, w);
    }
    forall v, w | Holds(after, v) && Holds(after, w) && v != w
      ensures after.requests[v].nonce != after.requests[w].nonce
    {
      HoldersStay(s, step, v);
      HoldersStay(s, step, w);
    }
  }

  // In every interleaving, cleanups included: a nonce is claimed at most once
  // and yields at most one login, of the request that claimed it.
  lemma {:induction false} EveryRunKeepsInv(steps: seq<Step>)
    ensures Inv(Run(steps))
  {
    if steps != [] {
      var before, last := Run(steps[..|steps| - 1]), steps[|steps| - 1];
      EveryRunKeepsInv(steps[..|steps| - 1]);
      RowsStayIssued(before, last);
      ClaimsStayOnce(before, last);
      LoginsStayOnce(before, last);
    }
  }

  ghost predicate IssuedAt(steps: seq<Step>, i: int, nonce: string, row: Row) {
    0 <= i < |steps| && steps[i].action == Issue(nonce, row.wallet) && row.expiresAt == steps[i].now + 300_000
  }

  lemma {:induction false} IssuedByStep(steps: seq<Step>, nonce: string) returns (i: nat)
    requires nonce in Run(steps).issued
    ensures IssuedAt(steps, i, nonce, Run(steps).issued[nonce])
  {
    var n := |steps| - 1;
    var front := steps[..n];
    if nonce in Run(front).issued {
      i := IssuedByStep(front, nonce);
    } else {
      i := n;
    }
  }

  // A login is accepted only within five minutes of the issue of its nonce, for
  // the wallet it was issued to, with a valid signature and by the request that
  // claimed it.
  lemma LoginsAreInTime(steps: seq<Step>, step: Step) returns (i: nat)
    requires Apply(Run(steps), step).logins != Run(steps).logins
    ensures step.action.Judge? && step.action.signatureHolds && Holds(Run(steps), step.action.who)
    ensures var s := Run(steps);
            var request := s.requests[step.action.who];
            && Apply(s, step).logins == s.logins + [request.nonce] && request.nonce in s.claims
            && i < |steps| && steps[i].action == Issue(request.nonce, request.claimant)
            && step.now <= steps[i].now + 300_000
  {
    StepMakesHistory(Run(steps), step);
    EveryRunKeepsInv(steps);
    i := IssuedByStep(steps, Run(steps).requests[step.action.who].nonce);
  }

  // A judgement lets a request log in exactly when it holds a claim, the signature is
  // valid and five minutes have not passed since the issue.
  lemma LogsInExactlyWhen(steps: seq<Step>, now: int, who: nat, signatureHolds: bool)
    ensures Holds(Run(steps), who) ==> Run(steps).requests[who].nonce in Run(steps).issued
    ensures var s, after := Run(steps), JudgeStep(Run(steps), now, who, signatureHolds);
            && (after.logins != s.logins
                <==> Holds(s, who) && signatureHolds && now <= s.issued[s.requests[who].nonce].expiresAt)
            && (after.logins != s.logins ==> after.logins == s.logins + [s.requests[who].nonce])
            && (Holds(s, who) && now > s.issued[s.requests[who].nonce].expiresAt
                ==> after.requests[who] == Done(Expired))
  {
    EveryRunKeepsInv(steps);
  }

  function TimeOf(step: Step): int {
    step.now
  }

  // A nonce that nobody has claimed is still there to be selected for an hour after
  // its expiry.
  ghost predicate UnclaimedStays(s: System, now: int) {
    forall n | n in s.issued && n !in s.claims && s.issued[n].expiresAt >= now - 3_600_000 ::
      n in s.rows && s.rows[n] == s.issued[n] && !s.rows[n].used
  }

  lemma {:induction false} EveryRunKeepsUnclaimed(steps: seq<Step>, now: int)
    requires ClockGoesForward(steps, TimeOf) && forall i | 0 <= i < |steps| :: steps[i].now <= now
    ensures UnclaimedStays(Run(steps), now)
  {
    if steps != [] {
      var front, last := steps[..|steps| - 1], steps[|steps| - 1];
      EveryRunKeepsUnclaimed(front, last.now);
      EveryRunKeepsInv(front);
      StepKeepsUnclaimed(Run(front), last);
    }
  }

  lemma StepKeepsUnclaimed(s: System, step: Step)
    requires RowsAreIssued(s) && UnclaimedStays(s, step.now)
    ensures UnclaimedStays(Apply(s, step), step.now)
  {
    StepMakesHistory(s, step);
  }

  lemma ThreeStepsLogIn(s: System, nonce: string, who: nat, now: int)
    requires nonce in s.rows && !s.rows[nonce].used && who !in s.requests && now <= s.rows[nonce].expiresAt
    ensures Present(s, nonce, s.rows[nonce].wallet, who, now).logins == s.logins + [nonce]
  {
    var one := Apply(s, Step(now, Select(who, nonce, s.rows[nonce].wallet)));
    assert one.requests[who] == Selected(nonce, s.rows[nonce].wallet, s.rows[nonce].expiresAt);
  }

  // A request that presents a nonce for a wallet with a valid signature, undisturbed.
  function Present(s: System, nonce: string, wallet: string, who: nat, now: int): System {
    Apply(Apply(Apply(s, Step(now, Select(who, nonce, wallet))), Step(now, Claim(who))), Step(now, Judge(who, true)))
  }

  lemma RunAppends(steps: seq<Step>, step: Step)
    ensures Run(steps + [step]) == Apply(Run(steps), step)
  {
    assert (steps + [step])[..|steps|] == steps;
  }

  lemma PresentIsARun(steps: seq<Step>, nonce: string, wallet: string, who: nat, now: int)
    ensures Present(Run(steps), nonce, wallet, who, now)
            == Run(steps + [Step(now, Select(who, nonce, wallet))] + [Step(now, Claim(who))]
                   + [Step(now, Judge(who, true))])
  {
    var one, two := Step(now, Select(who, nonce, wallet)), Step(now, Claim(who));
    RunAppends(steps, one);
    RunAppends(steps + [one], two);
    RunAppends(steps + [one] + [two], Step(now, Judge(who, true)));
  }

  // From issue to login: whatever has happened, a request that presents an unclaimed
  // nonce for its wallet with a valid signature within its lifetime logs in.
  lemma UnclaimedNonceLogsIn(steps: seq<Step>, nonce: string, who: nat, now: int)
    requires ClockGoesForward(steps, TimeOf) && forall i | 0 <= i < |steps| :: steps[i].now <= now
    requires nonce in Run(steps).issued && nonce !in Run(steps).claims && who !in Run(steps).requests
    requires now <= Run(steps).issued[nonce].expiresAt
    ensures var s := Run(steps);
            Present(s, nonce, s.issued[nonce].wallet, who, now).logins == s.logins + [nonce]
  {
    EveryRunKeepsUnclaimed(steps, now);
    ThreeStepsLogIn(Run(steps), nonce, who, now);
  }

  ghost predicate CleansUp(steps: seq<Step>, i: nat, nonce: string) {
    && i < |steps| && steps[i].action.Cleanup? && nonce in Run(steps[..i]).issued
    && Run(steps[..i]).issued[nonce].expiresAt < steps[i].now - 3_600_000
  }

  lemma StepDropsRow(s: System, step: Step, nonce: string)
    requires RowsAreIssued(s)
    ensures var after := Apply(s, step);
            if nonce in s.issued
            then && nonce in after.issued && after.issued[nonce] == s.issued[nonce]
                 && (nonce !in after.rows <==>
                       nonce !in s.rows
                       || (step.action.Cleanup? && s.issued[nonce].expiresAt < step.now - 3_600_000))
            else nonce in after.issued ==> nonce in after.rows
  {}

  // An issued nonce has lost its row exactly when a cleanup since its issue came
  // more than an hour after its expiry.
  lemma {:induction false} RowIsGoneExactlyWhen(steps: seq<Step>, nonce: string)
    requires nonce in Run(steps).issued
    ensures nonce !in Run(steps).rows <==> exists i: nat :: CleansUp(steps, i, nonce)
  {
    var n := |steps| - 1;
    EveryRunKeepsInv(steps[..n]);
    StepDropsRow(Run(steps[..n]), steps[n], nonce);
    if nonce in Run(steps[..n]).issued {
      RowIsGoneExactlyWhen(steps[..n], nonce);
      EarlierCleanups(steps, n, nonce);
      assert CleansUp(steps, n, nonce)
             <==> steps[n].action.Cleanup? && Run(steps[..n]).issued[nonce].expiresAt < steps[n].now - 3_600_000;
    } else {
      forall i: nat | i < n ensures !CleansUp(steps, i, nonce) {
        assert steps[..n][..i] == steps[..i];
        if nonce in Run(steps[..i]).issued {
          IssuedStays(steps[..n], i, nonce);
        }
      }
    }
  }

  lemma EarlierCleanups(steps: seq<Step>, n: nat, nonce: string)
    requires n <= |steps|
    ensures forall i: nat | i < n :: CleansUp(steps, i, nonce) <==> CleansUp(steps[..n], i, nonce)
  {
    forall i: nat | i < n ensures CleansUp(steps, i, nonce) <==> CleansUp(steps[..n], i, nonce) {
      assert steps[..n][..i] == steps[..i];
    }
  }

  lemma {:induction false} IssuedStays(steps: seq<Step>, i: nat, nonce: string)
    requires i <= |steps| && nonce in Run(steps[..i]).issued
    ensures nonce in Run(steps).issued
  {
    if i == |steps| {
      assert steps[..i] == steps;
    } else {
      var front := steps[..|steps| - 1];
      assert front[..i] == steps[..i];
      IssuedStays(front, i, nonce);
      EveryRunKeepsInv(front);
      StepDropsRow(Run(front), steps[|steps| - 1], nonce);
    }
  }

  // A nonce lives for five minutes from its issue, for the wallet it was issued to.
  lemma IssueMakesNonce(steps: seq<Step>, now: int, nonce: string, wallet: string)
    requires nonce !in Run(steps).issued
    ensures var after := Run(steps + [Step(now, Issue(nonce, wallet))]);
            && nonce in after.issued && after.issued[nonce].wallet == wallet
            && after.issued[nonce].expiresAt == now + 300_000 && nonce !in after.claims
  {
    RunAppends(steps, Step(now, Issue(nonce, wallet)));
    EveryRunKeepsInv(steps);
  }

  // Once claimed, a nonce is burned: whatever happens next, nobody selects it
  // and nobody claims it.
  lemma ClaimedIsBurned(steps: seq<Step>, step: Step, who: nat)
    ensures var before, after := Run(steps), Apply(Run(steps), step);
            && (who in after.requests && who !in before.requests && after.requests[who].Selected? ==>
                  after.requests[who].nonce !in before.claims)
            && (Holds(after, who) && !Holds(before, who) ==> after.requests[who].nonce !in before.claims)
  {
    EveryRunKeepsInv(steps);
    if Holds(Apply(Run(steps), step), who) {
      HoldersStay(Run(steps), step, who);
      StepMakesHistory(Run(steps), step);
    }
  }

  // ------------------------------------------------------------------
  // The cleanup is not noticed
  // ------------------------------------------------------------------

  function WithoutCleanups(steps: seq<Step>): seq<Step> {
    if steps == [] then []
    else
      var front, last := WithoutCleanups(steps[..|steps| - 1]), steps[|steps| - 1];
      if last.action.Cleanup? then front else front + [last]
  }

  // A request that cannot succeed any more, because its nonce has expired.
  ghost predicate Doomed(request: Request, clean: System, now: int) {
    match request
    case Done(outcome) => outcome != Accepted
    case _ => request.expiresAt < now && request.nonce in clean.issued && request.nonce !in clean.rows
  }

  ghost predicate SameRows(clean: System, full: System, now: int) {
    && clean.issued == full.issued && clean.logins == full.logins
    && (forall n | n in clean.rows :: n in full.rows && full.rows[n] == clean.rows[n])
    && (forall n | n in full.rows && n !in clean.rows :: n in full.issued && full.rows[n].expiresAt < now - 3_600_000)
  }

  ghost predicate SameRequest(clean: System, full: System, now: int, who: nat) {
    && (who in clean.requests <==> who in full.requests)
    && (who in full.requests && clean.requests[who] != full.requests[who] ==>
          clean.requests[who] == Done(NotFound) && Doomed(full.requests[who], clean, now))
  }

  // `clean` is the run with cleanups, `full` the same one without: rows differ by
  // ones long expired, requests by ones that end in "not found" with cleanups and
  // fail as well without.
  ghost predicate Matches(clean: System, full: System, now: int) {
    SameRows(clean, full, now) && forall w: nat :: SameRequest(clean, full, now, w)
  }

  lemma CleanupMatches(clean: System, full: System, now: int)
    requires Matches(clean, full, now) && RowsAreIssued(clean)
    ensures Matches(CleanupStep(clean, now), full, now)
  {
    var after := CleanupStep(clean, now);
    forall w: nat ensures SameRequest(after, full, now, w) {
      assert SameRequest(clean, full, now, w);
    }
  }

  lemma ClaimKeepsRowsTheSame(clean: System, full: System, now: int, who: nat)
    requires Matches(clean, full, now) && RowsAreIssued(full)
    ensures SameRows(ClaimStep(clean, who), ClaimStep(full, who), now)
  {
    assert SameRequest(clean, full, now, who);
  }

  lemma JudgeKeepsRowsTheSame(clean: System, full: System, now: int, who: nat, holds: bool)
    requires Matches(clean, full, now)
    ensures SameRows(JudgeStep(clean, now, who, holds), JudgeStep(full, now, who, holds), now)
  {
    assert SameRequest(clean, full, now, who);
  }

  lemma RowsStayTheSame(clean: System, full: System, step: Step)
    requires Matches(clean, full, step.now) && !step.action.Cleanup? && RowsAreIssued(full)
    ensures SameRows(Apply(clean, step), Apply(full, step), step.now)
  {
    match step.action
    case Claim(who) => ClaimKeepsRowsTheSame(clean, full, step.now, who);
    case Judge(who, holds) => JudgeKeepsRowsTheSame(clean, full, step.now, who, holds);
    case _ =>
  }

  // The step of one request leaves the others alone, and removes no row.
  lemma OthersWait(s: System, step: Step, other: nat)
    requires !step.action.Cleanup? && (step.action.Issue? || step.action.who != other)
    ensures var after := Apply(s, step);
            && (other in after.requests <==> other in s.requests)
            && (other in s.requests ==> after.requests[other] == s.requests[other])
            && s.issued.Keys <= after.issued.Keys
            && (forall n | n in s.issued && n !in s.rows :: n !in after.rows)
  {}

  lemma OwnRequestMatches(clean: System, full: System, step: Step)
    requires Matches(clean, full, step.now) && RowsAreIssued(full)
    requires step.action.Select? || step.action.Claim? || step.action.Judge?
    ensures SameRequest(Apply(clean, step), Apply(full, step), step.now, step.action.who)
  {
    assert SameRequest(clean, full, step.now, step.action.who);
  }

  lemma StepMatches(clean: System, full: System, step: Step)
    requires Matches(clean, full, step.now) && !step.action.Cleanup? && RowsAreIssued(full)
    ensures Matches(Apply(clean, step), Apply(full, step), step.now)
  {
    RowsStayTheSame(clean, full, step);
    forall w: nat ensures SameRequest(Apply(clean, step), Apply(full, step), step.now, w) {
      assert SameRequest(clean, full, step.now, w);
      if step.action.Issue? || step.action.who != w {
        OthersWait(clean, step, w);
        OthersWait(full, step, w);
      } else {
        OwnRequestMatches(clean, full, step);
      }
    }
  }

  lemma MatchesLater(clean: System, full: System, before: int, now: int)
    requires Matches(clean, full, before) && before <= now
    ensures Matches(clean, full, now)
  {
    forall w: nat ensures SameRequest(clean, full, now, w) {
      assert SameRequest(clean, full, before, w);
    }
  }

  // A run accepts exactly the logins, in the same order, that it accepts with its
  // cleanups left out.
  lemma {:induction false} CleanupIsNotNoticed(steps: seq<Step>, now: int)
    requires ClockGoesForward(steps, TimeOf) && forall i | 0 <= i < |steps| :: steps[i].now <= now
    ensures Matches(Run(steps), Run(WithoutCleanups(steps)), now)
    ensures Run(steps).logins == Run(WithoutCleanups(steps)).logins
  {
    if steps != [] {
      var front, last := steps[..|steps| - 1], steps[|steps| - 1];
      CleanupIsNotNoticed(front, last.now);
      EveryRunKeepsInv(front);
      EveryRunKeepsInv(WithoutCleanups(front));
      if last.action.Cleanup? {
        CleanupMatches(Run(front), Run(WithoutCleanups(front)), last.now);
      } else {
        StepMatches(Run(front), Run(WithoutCleanups(front)), last);
        KeepsStep(front, last);
        assert steps == front + [last];
      }
      MatchesLater(Run(steps), Run(WithoutCleanups(steps)), last.now, now);
    }
  }

  lemma KeepsStep(front: seq<Step>, last: Step)
    requires !last.action.Cleanup?
    ensures WithoutCleanups(front + [last]) == WithoutCleanups(front) + [last]
    ensures Run(WithoutCleanups(front + [last])) == Apply(Run(WithoutCleanups(front)), last)
  {
    var all, kept := front + [last], WithoutCleanups(front) + [last];
    assert all[..|all| - 1] == front && kept[..|kept| - 1] == WithoutCleanups(front);
  }
}
