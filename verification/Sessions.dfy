// Refresh tokens: sessions of one login form a family, every refresh rotates
// the token, and a token that comes back after its rotation revokes the family.
//
// A refresh verifies the token, selects its session, checks that it has not
// expired, deletes it and inserts the next one; between any two of these steps
// other requests and the cleanup may come.  Tokens are numbered in the order of
// signing, which makes every signed token a new one; times are in milliseconds.
module Sessions {
  import opened Common

  const REFRESH_MS := 7 * 24 * 60 * 60 * 1000
  const REFRESH_SECONDS := 7 * 24 * 60 * 60
  const GRACE_MS := 60 * 60 * 1000

  datatype Session = Session(family: nat, expiresAt: nat)

  datatype Token = Token(family: nat, signedAt: nat)

  datatype Outcome = Refreshed | Invalid | SessionExpired | Reused

  datatype Request =
    | Verified(token: nat, verifiedAt: nat)
    | Selected(token: nat, family: nat, expiresAt: nat)
    | Deleting(token: nat, family: nat)
    | Inserting(family: nat)
    | Revoking(family: nat)
    | Done(outcome: Outcome)

  datatype Action =
    | Login(loginSignedAt: nat)
    | Verify(who: nat, token: nat)
    | Select(who: nat)
    | Check(who: nat)
    | Delete(who: nat)
    | Insert(who: nat, signedAt: nat)
    | Revoke(who: nat)
    | Cleanup

  datatype Step = Step(now: nat, action: Action)

  // `spent` are the tokens whose row a refresh or a revocation removed, `lost`
  // counts by family the deletes that found no row to remove.
  datatype System = System(
    rows: map<nat, Session>,
    tokens: map<nat, Token>,
    nextToken: nat,
    nextFamily: nat,
    requests: map<nat, Request>,
    spent: set<nat>,
    lost: multiset<nat>)

  const EMPTY := System(map[], map[], 0, 0, map[], {}, multiset{})

  // ------------------------------------------------------------------
  // The steps
  // ------------------------------------------------------------------

  // A JWT counts in seconds.
  predicate JwtValid(token: Token, now: nat) {
    now / 1000 < token.signedAt / 1000 + REFRESH_SECONDS
  }

  function Become(s: System, who: nat, request: Request): System {
    s.(requests := s.requests[who := request])
  }

  // A token is signed, then its session row is written.
  function AddSession(s: System, family: nat, signedAt: nat, now: nat): System {
    s.(rows := s.rows[s.nextToken := Session(family, now + REFRESH_MS)],
       tokens := s.tokens[s.nextToken := Token(family, signedAt)],
       nextToken := s.nextToken + 1)
  }

  function LoginStep(s: System, now: nat, signedAt: nat): System {
    if signedAt > now then s
    else AddSession(s, s.nextFamily, signedAt, now).(nextFamily := s.nextFamily + 1)
  }

  function VerifyStep(s: System, now: nat, who: nat, token: nat): System {
    if who in s.requests then s
    else if token in s.tokens && JwtValid(s.tokens[token], now) then Become(s, who, Verified(token, now))
    else Become(s, who, Done(Invalid))
  }

  function SelectStep(s: System, who: nat): System {
    if who !in s.requests || !s.requests[who].Verified? || s.requests[who].token !in s.tokens then s
    else
      var token := s.requests[who].token;
      Become(s, who,
             if token in s.rows then Selected(token, s.rows[token].family, s.rows[token].expiresAt)
             else Revoking(s.tokens[token].family))
  }

  function CheckStep(s: System, now: nat, who: nat): System {
    if who !in s.requests || !s.requests[who].Selected? then s
    else
      var Selected(token, family, expiresAt) := s.requests[who];
      Become(s, who, if expiresAt < now then Done(SessionExpired) else Deleting(token, family))
  }

  // The number of deleted rows is not looked at.
  function DeleteStep(s: System, who: nat): System {
    if who !in s.requests || !s.requests[who].Deleting? then s
    else
      var Deleting(token, family) := s.requests[who];
      Become(s, who, Inserting(family))
      .(rows := s.rows - {token},
        spent := s.spent + {token},
        lost := if token in s.rows then s.lost else s.lost + multiset{family})
  }

  function InsertStep(s: System, now: nat, who: nat, signedAt: nat): System {
    if who !in s.requests || !s.requests[who].Inserting? || signedAt > now then s
    else AddSession(Become(s, who, Done(Refreshed)), s.requests[who].family, signedAt, now)
  }

  function RevokeStep(s: System, who: nat): System {
    if who !in s.requests || !s.requests[who].Revoking? then s
    else
      var family := s.requests[who].family;
      Become(s, who, Done(Reused))
      .(rows := s.rows - SessionsIn(s.rows, family), spent := s.spent + SessionsIn(s.rows, family))
  }

  function CleanupStep(s: System, now: nat): System {
    s.(rows := map t | t in s.rows && !(s.rows[t].expiresAt < now - GRACE_MS) :: s.rows[t])
  }

  function Apply(s: System, step: Step): System {
    match step.action
    case Login(signedAt) => LoginStep(s, step.now, signedAt)
    case Verify(who, token) => VerifyStep(s, step.now, who, token)
    case Select(who) => SelectStep(s, who)
    case Check(who) => CheckStep(s, step.now, who)
    case Delete(who) => DeleteStep(s, who)
    case Insert(who, signedAt) => InsertStep(s, step.now, who, signedAt)
    case Revoke(who) => RevokeStep(s, who)
    case Cleanup => CleanupStep(s, step.now)
  }

  ghost function RunFrom(s: System, steps: seq<Step>): System {
    if steps == [] then s else Apply(RunFrom(s, steps[..|steps| - 1]), steps[|steps| - 1])
  }

  lemma RunTakes(s: System, steps: seq<Step>, i: nat)
    requires i < |steps|
    ensures RunFrom(s, steps[..i + 1]) == Apply(RunFrom(s, steps[..i]), steps[i])
  {
    assert steps[..i + 1][..i] == steps[..i];
  }

  lemma RunTakesTwo(s: System, steps: seq<Step>, i: nat)
    requires i + 1 < |steps|
    ensures RunFrom(s, steps[..i + 2]) == Apply(Apply(RunFrom(s, steps[..i]), steps[i]), steps[i + 1])
  {
    RunTakes(s, steps, i);
    RunTakes(s, steps, i + 1);
  }

  // ------------------------------------------------------------------
  // How many live sessions a family has
  // ------------------------------------------------------------------

  function SessionsIn(rows: map<nat, Session>, family: nat): set<nat> {
    set t | t in rows && rows[t].family == family
  }

  function WritersIn(requests: map<nat, Request>, family: nat): set<nat> {
    set w | w in requests && requests[w] == Inserting(family)
  }

  // Sessions that are there or about to be written.
  function Count(s: System, family: nat): nat {
    |SessionsIn(s.rows, family)| + |WritersIn(s.requests, family)|
  }

  function One(holds: bool): nat {
    if holds then 1 else 0
  }

  lemma AddedSession(rows: map<nat, Session>, token: nat, session: Session, family: nat)
    requires token !in rows
    ensures |SessionsIn(rows[token := session], family)| == |SessionsIn(rows, family)| + One(session.family == family)
  {
    assert SessionsIn(rows[token := session], family)
           == SessionsIn(rows, family) + if session.family == family then {token} else {};
  }

  lemma RemovedSession(rows: map<nat, Session>, token: nat, family: nat)
    ensures |SessionsIn(rows - {token}, family)|
            == |SessionsIn(rows, family)| - One(token in rows && rows[token].family == family)
  {
    assert SessionsIn(rows - {token}, family) == SessionsIn(rows, family) - {token};
  }

  lemma ChangedRequest(requests: map<nat, Request>, who: nat, request: Request, family: nat)
    ensures |WritersIn(requests[who := request], family)|
            == |WritersIn(requests, family)| + One(request == Inserting(family))
               - One(who in requests && requests[who] == Inserting(family))
  {
    var before, after := WritersIn(requests, family), WritersIn(requests[who := request], family);
    forall w: nat | w != who ensures w in after <==> w in before {}
    assert after - {who} == before - {who};
    assert |before| == |before - {who}| + One(who in before);
    assert |after| == |after - {who}| + One(who in after);
  }

  ghost predicate Known(s: System) {
    && (forall t | t in s.tokens :: t < s.nextToken)
    && (forall t | t in s.rows :: t in s.tokens && s.rows[t].family == s.tokens[t].family)
    && (forall t | t in s.tokens :: s.tokens[t].family < s.nextFamily)
    && (forall w | w in s.requests :: KnownRequest(s, s.requests[w]))
  }

  ghost predicate KnownRequest(s: System, request: Request) {
    match request
    case Verified(token, _) => token in s.tokens
    case Selected(token, family, _) => token in s.tokens && s.tokens[token].family == family < s.nextFamily
    case Deleting(token, family) => token in s.tokens && s.tokens[token].family == family < s.nextFamily
    case Done(_) => true
    case _ => request.family < s.nextFamily
  }

  lemma AddSessionStaysKnown(s: System, family: nat, signedAt: nat, now: nat)
    requires Known(s) && family < s.nextFamily
    ensures Known(AddSession(s, family, signedAt, now))
  {}

  lemma BecomeStaysKnown(s: System, who: nat, request: Request)
    requires Known(s) && KnownRequest(s, request)
    ensures Known(Become(s, who, request))
  {}

  lemma FewerRowsStayKnown(s: System, rows: map<nat, Session>, spent: set<nat>, lost: multiset<nat>)
    requires Known(s) && forall t | t in rows :: t in s.rows && rows[t] == s.rows[t]
    ensures Known(s.(rows := rows, spent := spent, lost := lost))
  {}

  lemma AdmitStaysKnown(s: System, step: Step)
    requires Known(s) && (step.action.Verify? || step.action.Select? || step.action.Check?)
    ensures Known(Apply(s, step))
  {
    var who, after := step.action.who, Apply(s, step);
    if after != s {
      if who in s.requests {
        assert KnownRequest(s, s.requests[who]);
      }
      BecomeStaysKnown(s, who, after.requests[who]);
    }
  }

  lemma InsertStaysKnown(s: System, now: nat, who: nat, signedAt: nat)
    requires Known(s)
    ensures Known(InsertStep(s, now, who, signedAt))
  {
    if InsertStep(s, now, who, signedAt) != s {
      assert KnownRequest(s, s.requests[who]);
      BecomeStaysKnown(s, who, Done(Refreshed));
      AddSessionStaysKnown(Become(s, who, Done(Refreshed)), s.requests[who].family, signedAt, now);
    }
  }

  lemma RemovalStaysKnown(s: System, step: Step)
    requires Known(s) && (step.action.Delete? || step.action.Revoke?)
    ensures Known(Apply(s, step))
  {
    var who, after := step.action.who, Apply(s, step);
    if after != s {
      assert KnownRequest(s, s.requests[who]);
      BecomeStaysKnown(s, who, after.requests[who]);
      FewerRowsStayKnown(Become(s, who, after.requests[who]), after.rows, after.spent, after.lost);
    }
  }

  lemma StaysKnown(s: System, step: Step)
    requires Known(s)
    ensures Known(Apply(s, step))
  {
    match step.action
    case Login(signedAt) =>
      AddSessionStaysKnown(s.(nextFamily := s.nextFamily + 1), s.nextFamily, signedAt, step.now);
    case Insert(who, signedAt) => InsertStaysKnown(s, step.now, who, signedAt);
    case Cleanup => FewerRowsStayKnown(s, CleanupStep(s, step.now).rows, s.spent, s.lost);
    case Delete(_) => RemovalStaysKnown(s, step);
    case Revoke(_) => RemovalStaysKnown(s, step);
    case _ => AdmitStaysKnown(s, step);
  }

  lemma NewFamilyIsEmpty(s: System)
    requires Known(s)
    ensures Count(s, s.nextFamily) == 0
  {
    assert SessionsIn(s.rows, s.nextFamily) == {} && WritersIn(s.requests, s.nextFamily) == {};
  }

  lemma LoginCount(s: System, now: nat, signedAt: nat, family: nat)
    requires Known(s)
    ensures Count(LoginStep(s, now, signedAt), family)
            == Count(s, family) + One(family == s.nextFamily && signedAt <= now)
  {
    AddedSession(s.rows, s.nextToken, Session(s.nextFamily, now + REFRESH_MS), family);
  }

  lemma DeleteCount(s: System, who: nat, family: nat)
    requires Known(s)
    ensures var after := DeleteStep(s, who);
            Count(after, family) == Count(s, family) + (after.lost[family] - s.lost[family])
  {
    if who in s.requests && s.requests[who].Deleting? {
      RemovedSession(s.rows, s.requests[who].token, family);
      ChangedRequest(s.requests, who, Inserting(s.requests[who].family), family);
    }
  }

  lemma InsertCount(s: System, now: nat, who: nat, signedAt: nat, family: nat)
    requires Known(s)
    ensures Count(InsertStep(s, now, who, signedAt), family) == Count(s, family)
  {
    if who in s.requests && s.requests[who].Inserting? && signedAt <= now {
      AddedSession(s.rows, s.nextToken, Session(s.requests[who].family, now + REFRESH_MS), family);
      ChangedRequest(s.requests, who, Done(Refreshed), family);
    }
  }

  lemma AdmitCount(s: System, step: Step, family: nat)
    requires step.action.Verify? || step.action.Select? || step.action.Check?
    ensures Count(Apply(s, step), family) == Count(s, family)
  {
    var who := step.action.who;
    if Apply(s, step) != s {
      ChangedRequest(s.requests, who, Apply(s, step).requests[who], family);
    }
  }

  lemma RevokeCount(s: System, who: nat, family: nat)
    ensures Count(RevokeStep(s, who), family) <= Count(s, family)
  {
    if who in s.requests && s.requests[who].Revoking? {
      ChangedRequest(s.requests, who, Done(Reused), family);
      SubsetIsNoLarger(SessionsIn(RevokeStep(s, who).rows, family), SessionsIn(s.rows, family));
    }
  }

  lemma CleanupCount(s: System, now: nat, family: nat)
    ensures Count(CleanupStep(s, now), family) <= Count(s, family)
  {
    SubsetIsNoLarger(SessionsIn(CleanupStep(s, now).rows, family), SessionsIn(s.rows, family));
  }

  // No step makes an existing family bigger, but for a delete that finds no row.
  lemma FamilyGrowsOnlyByLostDelete(s: System, step: Step, family: nat)
    requires Known(s)
    ensures var after := Apply(s, step);
            && s.lost[family] <= after.lost[family]
            && Count(after, family)
               <= Count(s, family) + (after.lost[family] - s.lost[family]) + One(family == s.nextFamily)
    ensures var after := Apply(s, step);
            family < s.nextFamily && Count(after, family) > Count(s, family) ==> LostDelete(s, step, family)
  {
    match step.action
    case Login(signedAt) => LoginCount(s, step.now, signedAt, family);
    case Delete(who) => DeleteCount(s, who, family);
    case Insert(who, signedAt) => InsertCount(s, step.now, who, signedAt, family);
    case Revoke(who) => RevokeCount(s, who, family);
    case Cleanup => CleanupCount(s, step.now, family);
    case _ => AdmitCount(s, step, family);
  }

  // A delete whose session is gone already.
  ghost predicate LostDelete(s: System, step: Step, family: nat) {
    && step.action.Delete? && step.action.who in s.requests && s.requests[step.action.who].Deleting?
    && s.requests[step.action.who].family == family && s.requests[step.action.who].token !in s.rows
  }

  // An existing family grows exactly by a delete that finds no row.
  lemma FamilyGrowsExactlyWhen(s: System, step: Step, family: nat)
    requires Known(s) && family < s.nextFamily
    ensures Count(Apply(s, step), family) > Count(s, family) <==> LostDelete(s, step, family)
  {
    FamilyGrowsOnlyByLostDelete(s, step, family);
    if LostDelete(s, step, family) {
      DeleteCount(s, step.action.who, family);
    }
  }

  // A family gets a second session exactly by a lost delete made while it has one.
  lemma SecondSessionExactlyWhen(s: System, step: Step, family: nat)
    requires Known(s) && Count(s, family) <= 1
    ensures Count(Apply(s, step), family) > 1 <==> Count(s, family) == 1 && LostDelete(s, step, family)
  {
    FamilyGrowsOnlyByLostDelete(s, step, family);
    if family < s.nextFamily {
      FamilyGrowsExactlyWhen(s, step, family);
    } else {
      UnknownFamilyIsEmpty(s, family);
    }
  }

  lemma UnknownFamilyIsEmpty(s: System, family: nat)
    requires Known(s) && family >= s.nextFamily
    ensures Count(s, family) == 0 && forall step :: !LostDelete(s, step, family)
  {
    assert SessionsIn(s.rows, family) == {} && WritersIn(s.requests, family) == {};
  }

  ghost predicate EverTwo(steps: seq<Step>, family: nat) {
    exists i :: 0 <= i <= |steps| && Count(RunFrom(EMPTY, steps[..i]), family) > 1
  }

  ghost predicate LostWhileOne(steps: seq<Step>, i: int, family: nat) {
    && 0 <= i < |steps|
    && Count(RunFrom(EMPTY, steps[..i]), family) == 1 && LostDelete(RunFrom(EMPTY, steps[..i]), steps[i], family)
  }

  // Over every run: a family ever has more than one session exactly when some
  // delete of it is lost while it has one.
  lemma {:induction false} EverTwoExactlyWhen(steps: seq<Step>, family: nat)
    ensures EverTwo(steps, family) <==> exists i :: LostWhileOne(steps, i, family)
  {
    if i :| LostWhileOne(steps, i, family) {
      LostDeleteMakesTwo(steps, i, family);
    }
    if EverTwo(steps, family) {
      var i :| 0 <= i <= |steps| && Count(RunFrom(EMPTY, steps[..i]), family) > 1;
      var first := FirstSecondSession(steps, i, family);
    }
  }

  lemma LostDeleteMakesTwo(steps: seq<Step>, i: nat, family: nat)
    requires LostWhileOne(steps, i, family)
    ensures Count(RunFrom(EMPTY, steps[..i + 1]), family) > 1
  {
    AtMostOneSession(steps[..i], family);
    assert steps[..i + 1][..i] == steps[..i];
    SecondSessionExactlyWhen(RunFrom(EMPTY, steps[..i]), steps[i], family);
  }

  lemma {:induction false} FirstSecondSession(steps: seq<Step>, i: nat, family: nat) returns (k: nat)
    requires i <= |steps| && Count(RunFrom(EMPTY, steps[..i]), family) > 1
    ensures k < i && LostWhileOne(steps, k, family)
  {
    assert steps[..0] == [];
    AtMostOneSession([], family);
    AtMostOneSession(steps[..i - 1], family);
    assert steps[..i][..i - 1] == steps[..i - 1];
    if Count(RunFrom(EMPTY, steps[..i - 1]), family) > 1 {
      k := FirstSecondSession(steps, i - 1, family);
    } else {
      k := i - 1;
      SecondSessionExactlyWhen(RunFrom(EMPTY, steps[..i - 1]), steps[i - 1], family);
    }
  }

  // In every interleaving: a family has at most one session more than deletes
  // of it found no row.  With checked deletes it would have at most one.
  lemma {:induction false} AtMostOneSession(steps: seq<Step>, family: nat)
    ensures Known(RunFrom(EMPTY, steps))
    ensures Count(RunFrom(EMPTY, steps), family) <= 1 + RunFrom(EMPTY, steps).lost[family]
  {
    if steps == [] {
      assert SessionsIn(EMPTY.rows, family) == {} && WritersIn(EMPTY.requests, family) == {};
    } else {
      var before, last := RunFrom(EMPTY, steps[..|steps| - 1]), steps[|steps| - 1];
      AtMostOneSession(steps[..|steps| - 1], family);
      StaysKnown(before, last);
      FamilyGrowsOnlyByLostDelete(before, last, family);
      if family == before.nextFamily {
        NewFamilyIsEmpty(before);
      }
    }
  }

  // ------------------------------------------------------------------
  // Atomic refreshes
  // ------------------------------------------------------------------

  function Admit(s: System, now: nat, who: nat, token: nat): System {
    CheckStep(SelectStep(VerifyStep(s, now, who, token), who), now, who)
  }

  // All steps of one refresh without anything in between.
  function Refresh(s: System, now: nat, who: nat, token: nat, signedAt: nat): System {
    RevokeStep(InsertStep(DeleteStep(Admit(s, now, who, token), who), now, who, signedAt), who)
  }

  datatype Whole =
    | WholeLogin(loginAt: nat)
    | WholeRefresh(at: nat, who: nat, token: nat)
    | WholeCleanup(time: nat)

  function ApplyWhole(s: System, action: Whole): System {
    match action
    case WholeLogin(now) => LoginStep(s, now, now)
    case WholeRefresh(now, who, token) => Refresh(s, now, who, token, now)
    case WholeCleanup(now) => CleanupStep(s, now)
  }

  ghost function RunWhole(actions: seq<Whole>): System {
    if actions == [] then EMPTY else ApplyWhole(RunWhole(actions[..|actions| - 1]), actions[|actions| - 1])
  }

  ghost predicate Quiet(s: System) {
    Known(s) && s.lost == multiset{} && forall w | w in s.requests :: s.requests[w].Done?
  }

  ghost predicate Within(s: System, after: System, family: nat) {
    Known(after) && Count(after, family) - after.lost[family] <= Count(s, family) - s.lost[family]
  }

  lemma StepStaysWithin(s: System, step: Step, family: nat)
    requires Known(s) && !step.action.Login?
    ensures Within(s, Apply(s, step), family)
  {
    StaysKnown(s, step);
    match step.action
    case Delete(who) => DeleteCount(s, who, family);
    case Insert(who, signedAt) => InsertCount(s, step.now, who, signedAt, family);
    case Revoke(who) => RevokeCount(s, who, family);
    case Cleanup => CleanupCount(s, step.now, family);
    case _ => AdmitCount(s, step, family);
  }

  lemma AdmitStaysWithin(s: System, now: nat, who: nat, token: nat, family: nat)
    requires Known(s)
    ensures Within(s, Admit(s, now, who, token), family)
  {
    var one := VerifyStep(s, now, who, token);
    StepStaysWithin(s, Step(now, Verify(who, token)), family);
    SelectStaysWithin(one, now, who, family);
  }

  lemma SelectStaysWithin(s: System, now: nat, who: nat, family: nat)
    requires Known(s)
    ensures Within(s, CheckStep(SelectStep(s, who), now, who), family)
  {
    StepStaysWithin(s, Step(now, Select(who)), family);
    StepStaysWithin(SelectStep(s, who), Step(now, Check(who)), family);
  }

  lemma RotateStaysWithin(s: System, now: nat, who: nat, family: nat)
    requires Known(s)
    ensures Within(s, RevokeStep(InsertStep(DeleteStep(s, who), now, who, now), who), family)
  {
    StepStaysWithin(s, Step(now, Delete(who)), family);
    InsertStaysWithin(DeleteStep(s, who), now, who, family);
  }

  lemma InsertStaysWithin(s: System, now: nat, who: nat, family: nat)
    requires Known(s)
    ensures Within(s, RevokeStep(InsertStep(s, now, who, now), who), family)
  {
    StepStaysWithin(s, Step(now, Insert(who, now)), family);
    StepStaysWithin(InsertStep(s, now, who, now), Step(now, Revoke(who)), family);
  }

  lemma RefreshCount(s: System, now: nat, who: nat, token: nat, family: nat)
    requires Known(s)
    ensures Within(s, Refresh(s, now, who, token, now), family)
  {
    AdmitStaysWithin(s, now, who, token, family);
    RotateStaysWithin(Admit(s, now, who, token), now, who, family);
  }

  // A refresh with a live token rotates it: the old one is spent, a new one of
  // the same family takes its place.
  lemma RefreshRotates(s: System, now: nat, who: nat, token: nat)
    requires Known(s) && who !in s.requests && token in s.rows
    requires JwtValid(s.tokens[token], now) && s.rows[token].expiresAt >= now
    ensures var after := Refresh(s, now, who, token, now);
            && after.requests == s.requests[who := Done(Refreshed)] && after.lost == s.lost
            && after.rows == (s.rows - {token})[s.nextToken := Session(s.rows[token].family, now + 604_800_000)]
            && after.spent == s.spent + {token}
  {
    var one := Admit(s, now, who, token);
    assert one.requests[who] == Deleting(token, s.rows[token].family);
    var two := DeleteStep(one, who);
    assert two.requests[who] == Inserting(s.rows[token].family);
    var three := InsertStep(two, now, who, now);
    assert three.requests == s.requests[who := Done(Refreshed)];
  }

  // A token whose session is gone revokes its whole family.
  lemma ReuseRevokes(s: System, now: nat, who: nat, token: nat)
    requires Known(s) && who !in s.requests && token in s.tokens && token !in s.rows && JwtValid(s.tokens[token], now)
    ensures var after := Refresh(s, now, who, token, now);
            && after.requests == s.requests[who := Done(Reused)] && after.lost == s.lost
            && SessionsIn(after.rows, s.tokens[token].family) == {}
            && forall t | t in s.rows && s.rows[t].family != s.tokens[token].family ::
                 t in after.rows && after.rows[t] == s.rows[t]
  {
    var one := Admit(s, now, who, token);
    assert one.requests[who] == Revoking(s.tokens[token].family);
    assert DeleteStep(one, who) == one && InsertStep(one, now, who, now) == one;
    assert RevokeStep(one, who).requests == s.requests[who := Done(Reused)];
  }

  // Any other refresh is turned down and changes no session.
  lemma RefreshIsTurnedDown(s: System, now: nat, who: nat, token: nat)
    requires Known(s) && who !in s.requests
    requires token !in s.tokens || !JwtValid(s.tokens[token], now) || (token in s.rows && s.rows[token].expiresAt < now)
    ensures var after := Refresh(s, now, who, token, now);
            && after.rows == s.rows && after.lost == s.lost
            && who in after.requests && after.requests[who].Done?
            && after.requests == s.requests[who := after.requests[who]]
  {
    var one := Admit(s, now, who, token);
    assert one.requests[who].Done?;
    assert DeleteStep(one, who) == one && InsertStep(one, now, who, now) == one && RevokeStep(one, who) == one;
  }

  lemma RefreshStaysQuiet(s: System, now: nat, who: nat, token: nat)
    requires Quiet(s)
    ensures Quiet(Refresh(s, now, who, token, now))
  {
    RefreshCount(s, now, who, token, 0);
    if who in s.requests {
      assert Refresh(s, now, who, token, now) == s;
    } else if token in s.rows && JwtValid(s.tokens[token], now) && s.rows[token].expiresAt >= now {
      RefreshRotates(s, now, who, token);
    } else if token in s.tokens && token !in s.rows && JwtValid(s.tokens[token], now) {
      ReuseRevokes(s, now, who, token);
    } else {
      RefreshIsTurnedDown(s, now, who, token);
    }
  }

  lemma WholeStaysQuiet(s: System, action: Whole)
    requires Quiet(s)
    ensures Quiet(ApplyWhole(s, action))
  {
    match action
    case WholeLogin(now) => StaysKnown(s, Step(now, Login(now)));
    case WholeRefresh(now, who, token) => RefreshStaysQuiet(s, now, who, token);
    case WholeCleanup(now) => StaysKnown(s, Step(now, Cleanup));
  }

  lemma WholeCount(s: System, action: Whole, family: nat)
    requires Quiet(s) && Count(s, family) <= 1
    ensures Count(ApplyWhole(s, action), family) <= 1
  {
    match action
    case WholeLogin(now) =>
      LoginCount(s, now, now, family);
      if family == s.nextFamily {
        NewFamilyIsEmpty(s);
      }
    case WholeRefresh(now, who, token) =>
      RefreshCount(s, now, who, token, family);
      RefreshStaysQuiet(s, now, who, token);
    case WholeCleanup(now) => CleanupCount(s, now, family);
  }

  // When refreshes do not overlap, a family never has a second live session.
  lemma {:induction false} OneSessionWhenAtomic(actions: seq<Whole>, family: nat)
    ensures Quiet(RunWhole(actions)) && Count(RunWhole(actions), family) <= 1
  {
    if actions == [] {
      assert SessionsIn(EMPTY.rows, family) == {} && WritersIn(EMPTY.requests, family) == {};
    } else {
      var front := actions[..|actions| - 1];
      OneSessionWhenAtomic(front, family);
      WholeStaysQuiet(RunWhole(front), actions[|actions| - 1]);
      WholeCount(RunWhole(front), actions[|actions| - 1], family);
    }
  }

  // When they do, it can: two requests present the same token, both delete, the
  // second in vain, and both insert.
  const FORK: seq<Step> := [
    Step(0, Login(0)), Step(1, Verify(0, 0)), Step(1, Verify(1, 0)), Step(1, Select(0)), Step(1, Select(1)),
    Step(1, Check(0)), Step(1, Check(1)), Step(1, Delete(0)), Step(1, Delete(1)), Step(1, Insert(0, 1)),
    Step(1, Insert(1, 1))]

  // After the login, with what the two requests have come to.
  function LoggedIn(requests: map<nat, Request>): System {
    System(map[0 := Session(0, REFRESH_MS)], map[0 := Token(0, 0)], 1, 1, requests, {}, multiset{})
  }

  lemma BothVerify(s: System)
    requires s == LoggedIn(map[])
    ensures Apply(Apply(s, FORK[1]), FORK[2]) == LoggedIn(map[0 := Verified(0, 1), 1 := Verified(0, 1)])
  {}

  lemma BothSelect(s: System)
    requires s == LoggedIn(map[0 := Verified(0, 1), 1 := Verified(0, 1)])
    ensures Apply(Apply(s, FORK[3]), FORK[4])
            == LoggedIn(map[0 := Selected(0, 0, REFRESH_MS), 1 := Selected(0, 0, REFRESH_MS)])
  {}

  lemma BothCheck(s: System)
    requires s == LoggedIn(map[0 := Selected(0, 0, REFRESH_MS), 1 := Selected(0, 0, REFRESH_MS)])
    ensures Apply(Apply(s, FORK[5]), FORK[6]) == LoggedIn(map[0 := Deleting(0, 0), 1 := Deleting(0, 0)])
  {}

  lemma BothDelete(s: System)
    requires s == LoggedIn(map[0 := Deleting(0, 0), 1 := Deleting(0, 0)])
    ensures var after := Apply(Apply(s, FORK[7]), FORK[8]);
            after.requests == map[0 := Inserting(0), 1 := Inserting(0)] && after.rows == map[] && after.nextToken == 1
  {}

  lemma BothInsert(s: System)
    requires s.rows == map[] && s.nextToken == 1 && s.requests == map[0 := Inserting(0), 1 := Inserting(0)]
    ensures SessionsIn(Apply(Apply(s, FORK[9]), FORK[10]).rows, 0) == {1, 2}
  {
    assert Apply(Apply(s, FORK[9]), FORK[10]).rows
           == map[1 := Session(0, 1 + REFRESH_MS), 2 := Session(0, 1 + REFRESH_MS)];
  }

  lemma BothAreAdmitted()
    ensures RunFrom(EMPTY, FORK[..7]) == LoggedIn(map[0 := Deleting(0, 0), 1 := Deleting(0, 0)])
  {
    RunTakes(EMPTY, FORK, 0);
    assert FORK[..0] == [] && LoginStep(EMPTY, 0, 0) == LoggedIn(map[]);
    RunTakesTwo(EMPTY, FORK, 1);
    BothVerify(RunFrom(EMPTY, FORK[..1]));
    RunTakesTwo(EMPTY, FORK, 3);
    BothSelect(RunFrom(EMPTY, FORK[..3]));
    RunTakesTwo(EMPTY, FORK, 5);
    BothCheck(RunFrom(EMPTY, FORK[..5]));
  }

  lemma OverlappingRefreshesForkFamily()
    ensures SessionsIn(RunFrom(EMPTY, FORK).rows, 0) == {1, 2}
  {
    BothAreAdmitted();
    RunTakesTwo(EMPTY, FORK, 7);
    BothDelete(RunFrom(EMPTY, FORK[..7]));
    RunTakesTwo(EMPTY, FORK, 9);
    BothInsert(RunFrom(EMPTY, FORK[..9]));
    assert FORK[..11] == FORK;
  }

  // ------------------------------------------------------------------
  // After a revocation
  // ------------------------------------------------------------------

  // The request is on its way to a new session of the family.
  predicate InFlight(request: Request, now: nat, family: nat) {
    match request
    case Selected(_, f, expiresAt) => f == family && expiresAt >= now
    case Deleting(_, f) => f == family
    case Inserting(f) => f == family
    case _ => false
  }

  ghost predicate NoneInFlight(s: System, now: nat, family: nat) {
    forall w | w in s.requests :: !InFlight(s.requests[w], now, family)
  }

  ghost predicate Extinct(s: System, now: nat, family: nat) {
    NoneInFlight(s, now, family) && forall t | t in s.rows :: s.rows[t].family != family
  }

  lemma StaysExtinct(s: System, step: Step, now: nat, family: nat)
    requires Known(s) && family < s.nextFamily && Extinct(s, now, family) && now <= step.now
    ensures Extinct(Apply(s, step), now, family) && family < Apply(s, step).nextFamily
  {}

  ghost predicate From(steps: seq<Step>, now: nat) {
    forall i | 0 <= i < |steps| :: steps[i].now >= now
  }

  ghost predicate StaysEmpty(s: System, now: nat, family: nat) {
    forall steps: seq<Step> | From(steps, now) :: SessionsIn(RunFrom(s, steps).rows, family) == {}
  }

  lemma {:induction false} ExtinctStaysEmpty(s: System, now: nat, family: nat, steps: seq<Step>)
    requires Known(s) && family < s.nextFamily && Extinct(s, now, family) && From(steps, now)
    ensures var after := RunFrom(s, steps);
            && Known(after) && family < after.nextFamily && Extinct(after, now, family)
            && SessionsIn(after.rows, family) == {}
  {
    if steps != [] {
      var front := steps[..|steps| - 1];
      ExtinctStaysEmpty(s, now, family, front);
      StaysKnown(RunFrom(s, front), steps[|steps| - 1]);
      StaysExtinct(RunFrom(s, front), steps[|steps| - 1], now, family);
    }
  }

  lemma InFlightReachesInsert(s: System, now: nat, family: nat, who: nat)
    requires Known(s) && who in s.requests && InFlight(s.requests[who], now, family)
    ensures var deleted := DeleteStep(CheckStep(s, now, who), who);
            who in deleted.requests && deleted.requests[who] == Inserting(family)
  {}

  // A request in flight writes a session in spite of the revocation.
  lemma InFlightRevives(s: System, now: nat, family: nat, who: nat) returns (steps: seq<Step>)
    requires Known(s) && who in s.requests && InFlight(s.requests[who], now, family)
    ensures From(steps, now) && SessionsIn(RunFrom(s, steps).rows, family) != {}
  {
    steps := [Step(now, Check(who)), Step(now, Delete(who)), Step(now, Insert(who, now))];
    var deleted := DeleteStep(CheckStep(s, now, who), who);
    InFlightReachesInsert(s, now, family, who);
    RunTakes(s, steps, 0);
    RunTakes(s, steps, 1);
    assert steps[..0] == [] && RunFrom(s, steps[..2]) == deleted;
    InsertRevives(deleted, now, family, who);
    RunTakes(s, steps, 2);
    assert steps[..3] == steps;
  }

  lemma InsertRevives(s: System, now: nat, family: nat, who: nat)
    requires who in s.requests && s.requests[who] == Inserting(family)
    ensures SessionsIn(Apply(s, Step(now, Insert(who, now))).rows, family) != {}
  {
    assert s.nextToken in SessionsIn(InsertStep(s, now, who, now).rows, family);
  }

  // From any moment on, an emptied family stays empty for ever, in every
  // interleaving, exactly when no request of it is in flight then.
  lemma StaysEmptyExactlyWhen(s: System, now: nat, family: nat)
    requires Known(s) && family < s.nextFamily && SessionsIn(s.rows, family) == {}
    ensures StaysEmpty(s, now, family) <==> NoneInFlight(s, now, family)
  {
    if NoneInFlight(s, now, family) {
      forall t | t in s.rows ensures s.rows[t].family != family {
        assert t !in SessionsIn(s.rows, family);
      }
      forall steps: seq<Step> | From(steps, now) ensures SessionsIn(RunFrom(s, steps).rows, family) == {} {
        ExtinctStaysEmpty(s, now, family, steps);
      }
    } else {
      var who :| who in s.requests && InFlight(s.requests[who], now, family);
      var steps := InFlightRevives(s, now, family, who);
    }
  }

  // ------------------------------------------------------------------
  // The cleanup
  // ------------------------------------------------------------------

  // A session row outlives its token, and a token whose row is gone was spent or
  // has been invalid for longer than the cleanup waits.
  ghost predicate RowsOutliveTokens(s: System, now: nat) {
    && (forall t | t in s.rows :: t in s.tokens && s.rows[t].expiresAt >= s.tokens[t].signedAt + REFRESH_MS)
    && (forall t | t in s.tokens && t !in s.rows :: t in s.spent || s.tokens[t].signedAt + REFRESH_MS < now - GRACE_MS)
  }

  // What a request has read was so when it read it.
  ghost predicate ReadsWereTrue(s: System) {
    forall w | w in s.requests :: ReadWasTrue(s.tokens, s.requests[w])
  }

  ghost predicate ReadWasTrue(tokens: map<nat, Token>, request: Request) {
    match request
    case Verified(token, at) => token in tokens && JwtValid(tokens[token], at)
    case Selected(token, _, expiresAt) => token in tokens && expiresAt >= tokens[token].signedAt + REFRESH_MS
    case _ => true
  }

  lemma ValidMeansNotExpired(token: Token, now: nat)
    ensures JwtValid(token, now) ==> now < token.signedAt + 604_800_000
    ensures now <= token.signedAt + 604_799_000 ==> JwtValid(token, now)
  {}

  lemma MoreRowsOutlive(s: System, family: nat, signedAt: nat, before: nat, now: nat)
    requires Known(s) && RowsOutliveTokens(s, before) && before <= now && signedAt <= now
    ensures RowsOutliveTokens(AddSession(s, family, signedAt, now), now)
  {}

  lemma SpentRowsOutlive(s: System, after: System, before: nat, now: nat)
    requires RowsOutliveTokens(s, before) && before <= now && after.tokens == s.tokens
    requires forall t | t in after.rows :: t in s.rows && after.rows[t] == s.rows[t]
    requires s.spent <= after.spent && forall t | t in s.rows && t !in after.rows :: t in after.spent
    ensures RowsOutliveTokens(after, now)
  {}

  lemma CleanedRowsOutlive(s: System, before: nat, now: nat)
    requires RowsOutliveTokens(s, before) && before <= now
    ensures RowsOutliveTokens(CleanupStep(s, now), now)
  {}

  lemma RowsStillOutlive(s: System, step: Step, before: nat)
    requires Known(s) && RowsOutliveTokens(s, before) && before <= step.now
    ensures RowsOutliveTokens(Apply(s, step), step.now)
  {
    match step.action
    case Login(signedAt) =>
      if signedAt <= step.now {
        MoreRowsOutlive(s, s.nextFamily, signedAt, before, step.now);
      }
    case Insert(who, signedAt) =>
      if Apply(s, step) != s {
        BecomeStaysKnown(s, who, Done(Refreshed));
        MoreRowsOutlive(Become(s, who, Done(Refreshed)), s.requests[who].family, signedAt, before, step.now);
      }
    case Cleanup => CleanedRowsOutlive(s, before, step.now);
    case _ => SpentRowsOutlive(s, Apply(s, step), before, step.now);
  }

  lemma ReadsStayTrue(s: System, step: Step, before: nat)
    requires Known(s) && RowsOutliveTokens(s, before) && ReadsWereTrue(s)
    ensures ReadsWereTrue(Apply(s, step))
  {
    var after := Apply(s, step);
    forall w | w in after.requests ensures ReadWasTrue(after.tokens, after.requests[w]) {
      if w in s.requests && after.requests[w] == s.requests[w] {
        assert ReadWasTrue(s.tokens, s.requests[w]);
        TokensAreKept(s, step);
      } else {
        OwnReadIsTrue(s, step, before, w);
      }
    }
  }

  lemma TokensAreKept(s: System, step: Step)
    requires Known(s)
    ensures forall t | t in s.tokens :: t in Apply(s, step).tokens && Apply(s, step).tokens[t] == s.tokens[t]
  {}

  lemma OwnReadIsTrue(s: System, step: Step, before: nat, who: nat)
    requires RowsOutliveTokens(s, before)
    requires who in Apply(s, step).requests && (who in s.requests ==> Apply(s, step).requests[who] != s.requests[who])
    ensures ReadWasTrue(Apply(s, step).tokens, Apply(s, step).requests[who])
  {}

  function TimeOf(step: Step): int {
    step.now
  }

  lemma {:induction false} EveryRunOutlives(steps: seq<Step>, now: nat)
    requires ClockGoesForward(steps, TimeOf) && forall i | 0 <= i < |steps| :: steps[i].now <= now
    ensures var s := RunFrom(EMPTY, steps); Known(s) && RowsOutliveTokens(s, now) && ReadsWereTrue(s)
  {
    if steps != [] {
      var front, last := steps[..|steps| - 1], steps[|steps| - 1];
      EveryRunOutlives(front, last.now);
      StaysKnown(RunFrom(EMPTY, front), last);
      RowsStillOutlive(RunFrom(EMPTY, front), last, last.now);
      ReadsStayTrue(RunFrom(EMPTY, front), last, last.now);
    }
  }

  // In every interleaving: a request is taken for a replay only when a refresh or
  // a revocation removed its token, or when its select came more than an hour
  // after its verification.
  lemma ReplaysAreSpentTokens(steps: seq<Step>, now: nat, who: nat)
    requires ClockGoesForward(steps, TimeOf) && forall i | 0 <= i < |steps| :: steps[i].now <= now
    requires who in RunFrom(EMPTY, steps).requests && RunFrom(EMPTY, steps).requests[who].Verified?
    ensures var s := RunFrom(EMPTY, steps);
            SelectStep(s, who).requests[who].Revoking?
            ==> s.requests[who].token in s.spent || now - s.requests[who].verifiedAt > 3_600_000
  {
    EveryRunOutlives(steps, now);
    var request := RunFrom(EMPTY, steps).requests[who];
    assert ReadWasTrue(RunFrom(EMPTY, steps).tokens, request);
    ValidMeansNotExpired(RunFrom(EMPTY, steps).tokens[request.token], request.verifiedAt);
  }

  // And "session expired" is answered only when the token, valid when it was
  // verified, has run out since.
  lemma SessionExpiredMeansTokenRanOut(steps: seq<Step>, now: nat, who: nat)
    requires ClockGoesForward(steps, TimeOf) && forall i | 0 <= i < |steps| :: steps[i].now <= now
    requires who in RunFrom(EMPTY, steps).requests && RunFrom(EMPTY, steps).requests[who].Selected?
    ensures var s := RunFrom(EMPTY, steps);
            var token := s.requests[who].token;
            && token in s.tokens
            && (CheckStep(s, now, who).requests[who] == Done(SessionExpired)
                ==> s.tokens[token].signedAt + 604_800_000 < now && !JwtValid(s.tokens[token], now))
  {
    EveryRunOutlives(steps, now);
    var request := RunFrom(EMPTY, steps).requests[who];
    assert ReadWasTrue(RunFrom(EMPTY, steps).tokens, request);
    ValidMeansNotExpired(RunFrom(EMPTY, steps).tokens[request.token], now);
  }

  // A refresh that deletes the session, a revocation of its family, or a cleanup more
  // than an hour after its expiry.
  ghost predicate Drops(s: System, step: Step, token: nat) {
    && token in s.rows
    && match step.action
       case Delete(who) => who in s.requests && s.requests[who].Deleting? && s.requests[who].token == token
       case Revoke(who) => who in s.requests && s.requests[who] == Revoking(s.rows[token].family)
       case Cleanup => s.rows[token].expiresAt + 3_600_000 < step.now
       case _ => false
  }

  lemma StepDropsSession(s: System, step: Step, token: nat)
    requires Known(s)
    ensures token in s.tokens ==>
              token in Apply(s, step).tokens
              && (token in Apply(s, step).rows <==> token in s.rows && !Drops(s, step, token))
    ensures token !in s.tokens && token in Apply(s, step).tokens ==> token in Apply(s, step).rows
  {}

  ghost predicate DropsAt(steps: seq<Step>, i: nat, token: nat) {
    i < |steps| && Drops(RunFrom(EMPTY, steps[..i]), steps[i], token)
  }

  lemma {:induction false} TokensStay(steps: seq<Step>, i: nat, token: nat)
    requires i <= |steps| && token in RunFrom(EMPTY, steps[..i]).tokens
    ensures token in RunFrom(EMPTY, steps).tokens
  {
    var n := |steps| - 1;
    if i == |steps| {
      assert steps[..i] == steps;
    } else {
      assert steps[..n][..i] == steps[..i];
      TokensStay(steps[..n], i, token);
      AtMostOneSession(steps[..n], 0);
      TokensAreKept(RunFrom(EMPTY, steps[..n]), steps[n]);
    }
  }

  // Over every run: the session of an issued token is gone exactly when one of the
  // three dropped it, and it never comes back.
  lemma {:induction false} SessionIsGoneExactlyWhen(steps: seq<Step>, token: nat)
    requires token in RunFrom(EMPTY, steps).tokens
    ensures token !in RunFrom(EMPTY, steps).rows <==> exists i: nat :: DropsAt(steps, i, token)
  {
    var n := |steps| - 1;
    var before := RunFrom(EMPTY, steps[..n]);
    AtMostOneSession(steps[..n], 0);
    StepDropsSession(before, steps[n], token);
    EarlierDrops(steps, n, token);
    if token in before.tokens {
      SessionIsGoneExactlyWhen(steps[..n], token);
      assert DropsAt(steps, n, token) <==> Drops(before, steps[n], token);
    } else {
      forall i: nat | i < n ensures !DropsAt(steps, i, token) {
        assert steps[..n][..i] == steps[..i];
        if DropsAt(steps, i, token) {
          AtMostOneSession(steps[..i], 0);
          TokensStay(steps[..n], i, token);
        }
      }
    }
  }

  lemma EarlierDrops(steps: seq<Step>, n: nat, token: nat)
    requires n <= |steps|
    ensures forall i: nat | i < n :: DropsAt(steps, i, token) <==> DropsAt(steps[..n], i, token)
  {
    forall i: nat | i < n ensures DropsAt(steps, i, token) <==> DropsAt(steps[..n], i, token) {
      assert steps[..n][..i] == steps[..i];
    }
  }
}
