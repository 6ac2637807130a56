// Runs of the transaction protocol: who finalises a row, who follows it up, and
// who may still change it afterwards.
module TransactionRuns {
  import opened Common
  import opened TransactionProtocol

  // ------------------------------------------------------------------
  // Finalisation
  // ------------------------------------------------------------------

  // A row passes the guarded update at most once, and is not pending afterwards.
  ghost predicate FinalOnce(s: System) {
    && Distinct(s.finals)
    && (forall i | 0 <= i < |s.finals| :: s.finals[i] < s.table.nextId)
    && (forall h | h in s.table.rows && s.table.rows[h].id in s.finals :: s.table.rows[h].status != Pending)
  }

  // Only a worker changes the finals, and only by passing the guard.
  lemma FinalsGrow(s: System, step: Step)
    ensures var after := Apply(s, step);
            || after.finals == s.finals
            || (&& step.ByWorker? && step.who in s.workers && Passes(s.table, s.workers[step.who], step.working)
                && var hash := s.workers[step.who].hash;
                   && after.finals == s.finals + [s.table.rows[hash].id]
                   && after.table == WithStatus(s.table, hash, Final(step.working.successful))
                   && after.workers == s.workers[step.who := Worker.Following(s.table.rows[hash].id)]
                   && after.followUps == s.followUps)
  {}

  lemma FinalsStayOnce(s: System, step: Step)
    requires IdsOwned(s.table) && FinalOnce(s)
    ensures FinalOnce(Apply(s, step))
  {
    StepEvolvesTable(s, step);
    FinalsGrow(s, step);
    var after := Apply(s, step);
    if after.finals != s.finals {
      var id := s.table.rows[s.workers[step.who].hash].id;
      assert after.finals == s.finals + [id] && id !in s.finals;
    }
  }

  // ------------------------------------------------------------------
  // Follow-up
  // ------------------------------------------------------------------

  ghost predicate Following(s: System, who: nat, id: nat) {
    who in s.workers && s.workers[who] == Worker.Following(id)
  }

  // The rows that passed are those that were followed up and those a worker is
  // about to follow up; each was or is with one worker only.
  ghost predicate FollowedOnce(s: System) {
    && Distinct(s.followUps)
    && (forall id: nat :: id in s.finals <==> id in s.followUps || exists w :: Following(s, w, id))
    && (forall id: nat, w | Following(s, w, id) :: id !in s.followUps)
    && (forall id: nat, v, w | Following(s, v, id) && Following(s, w, id) :: v == w)
  }

  // A worker that follows a row either did before or has just finalised it.
  lemma FollowersStay(s: System, step: Step, w: nat, id: nat)
    ensures var after := Apply(s, step);
            Following(after, w, id) <==>
            || (Following(s, w, id) && step != ByWorker(w, FollowUp))
            || (&& step.ByWorker? && step.who == w && w in s.workers && Passes(s.table, s.workers[w], step.working)
                && id == s.table.rows[s.workers[w].hash].id)
  {}

  // Only the worker that follows a row follows it up.
  lemma FollowUpsGrow(s: System, step: Step)
    ensures var after := Apply(s, step);
            if step.ByWorker? && step.working.FollowUp? && step.who in s.workers && s.workers[step.who].Following?
            then after.followUps == s.followUps + [s.workers[step.who].row] && after.finals == s.finals
            else after.followUps == s.followUps
  {}

  lemma FollowUpKeepsFollowedOnce(s: System, who: nat, id: nat)
    requires FollowedOnce(s) && Following(s, who, id)
    ensures FollowedOnce(Apply(s, ByWorker(who, FollowUp)))
  {
    var step := ByWorker(who, FollowUp);
    var after := Apply(s, step);
    FollowUpsGrow(s, step);
    forall other: nat, w ensures Following(after, w, other) <==> Following(s, w, other) && w != who {
      FollowersStay(s, step, w, other);
    }
    assert after.followUps == s.followUps + [id] && id !in s.followUps;
    forall other: nat
      ensures other in after.finals <==> other in after.followUps || exists w :: Following(after, w, other)
    {
      if w :| Following(s, w, other) {
        assert w == who ==> other == id;
        assert w != who ==> Following(after, w, other);
      }
    }
  }

  lemma PassKeepsFollowedOnce(s: System, step: Step)
    requires FinalOnce(s) && FollowedOnce(s) && FinalOnce(Apply(s, step)) && Apply(s, step).finals != s.finals
    ensures FollowedOnce(Apply(s, step))
  {
    var after := Apply(s, step);
    FinalsGrow(s, step);
    var id := s.table.rows[s.workers[step.who].hash].id;
    assert after.finals == s.finals + [id] && id !in s.finals;
    forall other: nat, w
      ensures Following(after, w, other) <==> if w == step.who then other == id else Following(s, w, other)
    {
      FollowersStay(s, step, w, other);
    }
    assert Following(after, step.who, id);
    forall other: nat
      ensures other in after.finals <==> other in after.followUps || exists w :: Following(after, w, other)
    {
      if w :| Following(s, w, other) {
        assert Following(after, w, other);
      }
    }
  }

  lemma FollowUpsStayOnce(s: System, step: Step)
    requires IdsOwned(s.table) && FinalOnce(s) && FollowedOnce(s)
    ensures FollowedOnce(Apply(s, step))
  {
    var after := Apply(s, step);
    FinalsStayOnce(s, step);
    FollowUpsGrow(s, step);
    if after.finals != s.finals {
      PassKeepsFollowedOnce(s, step);
    } else if after.followUps != s.followUps {
      FollowUpKeepsFollowedOnce(s, step.who, s.workers[step.who].row);
    } else {
      FinalsGrow(s, step);
      forall id: nat, w ensures Following(after, w, id) <==> Following(s, w, id) {
        FollowersStay(s, step, w, id);
      }
    }
  }

  // ------------------------------------------------------------------
  // Over every interleaving
  // ------------------------------------------------------------------

  ghost predicate Inv(s: System) {
    IdsOwned(s.table) && SentByOwner(s) && FinalOnce(s) && FollowedOnce(s)
  }

  lemma StepKeepsInv(s: System, step: Step)
    requires Inv(s)
    ensures Inv(Apply(s, step))
  {
    StepEvolvesTable(s, step);
    IdsStayOwned(s.table, Apply(s, step).table);
    SendsStayOwned(s, step);
    FinalsStayOnce(s, step);
    FollowUpsStayOnce(s, step);
  }

  lemma {:induction false} RunsKeepInv(s: System, steps: seq<Step>)
    requires Inv(s)
    ensures Inv(RunFrom(s, steps))
  {
    if steps != [] {
      RunsKeepInv(s, steps[..|steps| - 1]);
      StepKeepsInv(RunFrom(s, steps[..|steps| - 1]), steps[|steps| - 1]);
    }
  }

  // In every interleaving: a row is sent to Horizon at most once, only after its
  // insert and only by the submitter that inserted it; it passes the guarded
  // update at most once; and the rows that passed are exactly those that were
  // followed up, once, or that some worker still has to follow up.
  lemma EveryRunKeepsInv(steps: seq<Step>)
    ensures Inv(Run(steps))
  {
    RunsKeepInv(EMPTY, steps);
  }

  // ------------------------------------------------------------------
  // When is a row followed up?
  // ------------------------------------------------------------------

  // The checker can still pass the row, or has passed it.
  ghost predicate InReach(s: System, id: nat) {
    id in s.finals || exists h :: h in s.table.rows && s.table.rows[h].id == id && s.table.rows[h].status == Pending
  }

  lemma StaysOutOfReach(s: System, step: Step, id: nat)
    requires IdsOwned(s.table) && id < s.table.nextId && !InReach(s, id)
    ensures id < Apply(s, step).table.nextId && !InReach(Apply(s, step), id)
  {
    var after := Apply(s, step);
    StepEvolvesTable(s, step);
    FinalsGrow(s, step);
    if after.finals != s.finals {
      assert s.table.rows[s.workers[step.who].hash].id != id;
    }
  }

  lemma {:induction false} NeverComesIntoReach(s: System, steps: seq<Step>, id: nat)
    requires Inv(s) && id < s.table.nextId && !InReach(s, id)
    ensures var after := RunFrom(s, steps);
            Inv(after) && id < after.table.nextId && !InReach(after, id) && id !in after.followUps
  {
    RunsKeepInv(s, steps);
    if steps != [] {
      NeverComesIntoReach(s, steps[..|steps| - 1], id);
      StaysOutOfReach(RunFrom(s, steps[..|steps| - 1]), steps[|steps| - 1], id);
    }
  }

  lemma {:induction false} FreshName<T>(names: map<nat, T>) returns (name: nat)
    ensures forall n | n in names :: n < name
    decreases |names|
  {
    if names == map[] {
      name := 0;
    } else {
      var n :| n in names;
      var rest := FreshName(names - {n});
      name := Max(rest, n + 1);
      assert forall m | m in names && m != n :: m in names - {n};
    }
  }

  lemma {:induction false} RunStartsWith(s: System, first: Step, rest: seq<Step>)
    ensures RunFrom(s, [first] + rest) == RunFrom(Apply(s, first), rest)
  {
    var steps := [first] + rest;
    if rest == [] {
      assert steps[..0] == [] && steps[0] == first;
    } else {
      RunStartsWith(s, first, rest[..|rest| - 1]);
      assert steps[..|steps| - 1] == [first] + rest[..|rest| - 1];
    }
  }

  lemma ReachLeadsToFollowUp(s: System, id: nat) returns (steps: seq<Step>)
    requires Inv(s) && InReach(s, id)
    ensures id in RunFrom(s, steps).followUps
  {
    if id in s.followUps {
      steps := [];
    } else if id in s.finals {
      var w :| Following(s, w, id);
      steps := [ByWorker(w, FollowUp)] + [];
      RunStartsWith(s, ByWorker(w, FollowUp), []);
    } else {
      var h :| h in s.table.rows && s.table.rows[h].id == id && s.table.rows[h].status == Pending;
      var w := FreshName(s.workers);
      var fetch, pass, follow := ByWorker(w, Fetch(h)), ByWorker(w, Finalize(true)), ByWorker(w, FollowUp);
      steps := [fetch] + ([pass] + ([follow] + []));
      RunStartsWith(s, fetch, [pass] + ([follow] + []));
      RunStartsWith(Apply(s, fetch), pass, [follow] + []);
      RunStartsWith(Apply(Apply(s, fetch), pass), follow, []);
      assert Following(Apply(Apply(s, fetch), pass), w, id);
    }
  }

  ghost predicate MayBeFollowedUp(s: System, id: nat) {
    exists steps: seq<Step> :: id in RunFrom(s, steps).followUps
  }

  // From any state of a run, a row is followed up in some continuation exactly
  // when it passed the guarded update or is still pending.  Whoever else
  // finalises it first leaves it without follow-up in every continuation.
  lemma FollowedUpExactlyWhen(s: System, id: nat)
    requires Inv(s) && id < s.table.nextId
    ensures MayBeFollowedUp(s, id) <==> InReach(s, id)
  {
    if InReach(s, id) {
      var steps := ReachLeadsToFollowUp(s, id);
    } else {
      forall steps: seq<Step> ensures id !in RunFrom(s, steps).followUps {
        NeverComesIntoReach(s, steps, id);
      }
    }
  }

  // ------------------------------------------------------------------
  // When does a final status change?
  // ------------------------------------------------------------------

  ghost predicate Flips(s: System, after: System, hash: string) {
    hash in s.table.rows && hash in after.table.rows && s.table.rows[hash].status != Pending
    && after.table.rows[hash].status != s.table.rows[hash].status
  }

  // The step writes `status` to the row of `hash` without looking at what it is.
  ghost predicate Overwrites(s: System, step: Step, hash: string, status: TxStatus)
    requires hash in s.table.rows
  {
    match step
    case BySubmitter(who, action) =>
      who in s.submitters && s.submitters[who].Marking? && action == MarkFailed && s.submitters[who].hash == hash
      && status == Failed
    case ByPoller(who, action) =>
      who in s.pollers && s.pollers[who] == hash && action.PollWrite?
      && status == if action.confirmed then Success else Failed
    case ByReconciler(who, action) =>
      && who in s.reconcilers && (action.MarkSucceeded? || action.MarkOrphaned?) && action.hash == hash
      && var job := s.reconcilers[who];
         && hash in job.rows && job.rows[hash].id == s.table.rows[hash].id
         && job.rows[hash].status == Pending && hash !in job.handled
         && if hash in job.chain then action.MarkSucceeded? && status == Success
            else
              && action.MarkOrphaned? && status == Failed && job.rows[hash].submittedAt < action.now - 1_800_000
              && forall h | h in job.chain :: h in job.handled || (h in job.rows && job.rows[h].status != Pending)
    case _ => false
  }

  // A final status changes exactly when a poller, a refused submitter or a
  // reconciliation job with an old snapshot writes the other one.  Neither the
  // checker nor the cleanup ever changes one.
  lemma FinalStatusFlipsExactlyWhen(s: System, step: Step, hash: string)
    requires IdsOwned(s.table)
    ensures Flips(s, Apply(s, step), hash)
            <==> && hash in s.table.rows && s.table.rows[hash].status != Pending
                 && Overwrites(s, step, hash, if s.table.rows[hash].status == Success then Failed else Success)
  {}

  // ------------------------------------------------------------------
  // Runs in which that happens
  // ------------------------------------------------------------------

  // Submission up to the insert.
  function Begin(hash: string): System {
    Apply(Apply(Apply(EMPTY, BySubmitter(0, Submit(hash))), BySubmitter(0, Find)), BySubmitter(0, Insert(true, 0)))
  }

  lemma BeginRuns(hash: string, rest: seq<Step>)
    ensures RunFrom(Begin(hash), rest)
            == Run([BySubmitter(0, Submit(hash))]
                   + ([BySubmitter(0, Find)] + ([BySubmitter(0, Insert(true, 0))] + rest)))
    ensures Begin(hash).table.rows == map[hash := Row(0, Pending, 0)] && Begin(hash).table.nextId == 1
    ensures Begin(hash).submitters == map[0 := Sending(hash, 0)] && Begin(hash).workers == map[]
    ensures Begin(hash).pollers == map[] && Begin(hash).reconcilers == map[]
    ensures Begin(hash).finals == [] && Begin(hash).sends == []
  {
    var one, two, three := BySubmitter(0, Submit(hash)), BySubmitter(0, Find), BySubmitter(0, Insert(true, 0));
    var s1 := Apply(EMPTY, one);
    var s2 := Apply(s1, two);
    assert s1.submitters == map[0 := Looking(hash)] && s2.submitters == map[0 := Submitter.Inserting(hash)];
    RunStartsWith(EMPTY, one, [two] + ([three] + rest));
    RunStartsWith(s1, two, [three] + rest);
    RunStartsWith(s2, three, rest);
  }

  // A status request that sees the transaction confirmed first: the success is
  // never followed up, whatever happens then.
  lemma PollerTakesFollowUpAway(hash: string) returns (steps: seq<Step>)
    ensures var s := Run(steps);
            && hash in s.table.rows && s.table.rows[hash] == Row(0, Success, 0)
            && !MayBeFollowedUp(s, 0)
  {
    var find, write := ByPoller(0, PollFind(hash)), ByPoller(0, PollWrite(true));
    var rest := [find] + ([write] + []);
    BeginRuns(hash, rest);
    steps := [BySubmitter(0, Submit(hash))] + ([BySubmitter(0, Find)] + ([BySubmitter(0, Insert(true, 0))] + rest));
    var s4 := Apply(Begin(hash), find);
    RunStartsWith(Begin(hash), find, [write] + []);
    RunStartsWith(s4, write, []);
    EveryRunKeepsInv(steps);
    FollowedUpExactlyWhen(Run(steps), 0);
  }

  // Horizon answers with an error to a transaction that a status request sees
  // confirmed before the error is recorded: the success is overwritten.
  lemma RefusalOverwritesSuccess(hash: string, error: HorizonError) returns (steps: seq<Step>, last: Step)
    requires error.resultCodes || !error.mentionsOutage
    ensures Run(steps).table.rows == map[hash := Row(0, Success, 0)]
    ensures Flips(Run(steps), Apply(Run(steps), last), hash)
  {
    var send := BySubmitter(0, Send(Raised(error)));
    var find, write := ByPoller(0, PollFind(hash)), ByPoller(0, PollWrite(true));
    var rest := [send] + ([find] + ([write] + []));
    BeginRuns(hash, rest);
    steps := [BySubmitter(0, Submit(hash))] + ([BySubmitter(0, Find)] + ([BySubmitter(0, Insert(true, 0))] + rest));
    var s4 := Apply(Begin(hash), send);
    var s5 := Apply(s4, find);
    RunStartsWith(Begin(hash), send, [find] + ([write] + []));
    RunStartsWith(s4, find, [write] + []);
    RunStartsWith(s5, write, []);
    last := BySubmitter(0, MarkFailed);
    assert Run(steps) == Apply(s5, write);
  }

  // An HTTP 503 whose message mentions neither word: the outcome is unknown, yet
  // the row is marked failed, and a transaction that went through is never
  // followed up.
  lemma UnknownOutcomeIsMarkedFailed(hash: string) returns (steps: seq<Step>)
    ensures Run(steps).table.rows == map[hash := Row(0, Failed, 0)] && !MayBeFollowedUp(Run(steps), 0)
    ensures Run(steps).sends == [Sent(0, 0)]
    ensures Run(steps).submitters == map[0 := Ended(Rejected(HorizonError(false, Some(503), false)))]
  {
    var send, mark := BySubmitter(0, Send(Raised(HorizonError(false, Some(503), false)))), BySubmitter(0, MarkFailed);
    var rest := [send] + ([mark] + []);
    BeginRuns(hash, rest);
    steps := [BySubmitter(0, Submit(hash))] + ([BySubmitter(0, Find)] + ([BySubmitter(0, Insert(true, 0))] + rest));
    RunStartsWith(Begin(hash), send, [mark] + []);
    RunStartsWith(Apply(Begin(hash), send), mark, []);
    MarkedOutright(hash, send, mark);
    EveryRunKeepsInv(steps);
    FollowedUpExactlyWhen(Run(steps), 0);
  }

  lemma MarkedOutright(hash: string, send: Step, mark: Step)
    requires send == BySubmitter(0, Send(Raised(HorizonError(false, Some(503), false))))
    requires mark == BySubmitter(0, MarkFailed)
    ensures var s := Apply(Apply(Begin(hash), send), mark);
            && s.table.rows == map[hash := Row(0, Failed, 0)] && s.table.nextId == 1 && s.finals == []
            && s.sends == [Sent(0, 0)]
            && s.submitters == map[0 := Ended(Rejected(HorizonError(false, Some(503), false)))]
  {
    BeginRuns(hash, []);
    var s := Apply(Begin(hash), send);
    assert s.submitters == map[0 := Marking(hash, 0, HorizonError(false, Some(503), false))];
  }

  // In every run a submitter is about to mark its row failed only after an error
  // with result codes or one that mentions no outage.
  ghost predicate MarksNoOutage(s: System) {
    forall w | w in s.submitters && s.submitters[w].Marking? ::
      s.submitters[w].error.resultCodes || !s.submitters[w].error.mentionsOutage
  }

  lemma {:induction false} OutagesAreNotMarked(steps: seq<Step>)
    ensures MarksNoOutage(Run(steps))
  {
    if steps != [] {
      var before, last := Run(steps[..|steps| - 1]), steps[|steps| - 1];
      OutagesAreNotMarked(steps[..|steps| - 1]);
      if last.BySubmitter? && last.who in before.submitters && before.submitters[last.who].Sending?
         && last.submitting.Send? && last.submitting.reply.Raised? {
        var actor := before.submitters[last.who];
        MarksExactlyWhen(before.table, actor.hash, actor.row, last.submitting.reply.error);
      }
    }
  }

  // A reconciliation job reads the pending row, the checker finalises it as
  // successful, and the job then fails it as an orphan.
  lemma ReconcilerOverwritesSuccess(hash: string) returns (steps: seq<Step>, last: Step)
    ensures Run(steps).table.rows == map[hash := Row(0, Success, 0)] && Run(steps).finals == [0]
    ensures Flips(Run(steps), Apply(Run(steps), last), hash)
  {
    var read, fetch, pass := ByReconciler(0, ReadAll({})), ByWorker(0, Fetch(hash)), ByWorker(0, Finalize(true));
    var rest := [read] + ([fetch] + ([pass] + []));
    BeginRuns(hash, rest);
    steps := [BySubmitter(0, Submit(hash))] + ([BySubmitter(0, Find)] + ([BySubmitter(0, Insert(true, 0))] + rest));
    var s4 := Apply(Begin(hash), read);
    var s5 := Apply(s4, fetch);
    RunStartsWith(Begin(hash), read, [fetch] + ([pass] + []));
    RunStartsWith(s4, fetch, [pass] + []);
    RunStartsWith(s5, pass, []);
    last := ByReconciler(0, MarkOrphaned(hash, ORPHAN_AGE_MS + 1));
    assert Run(steps) == Apply(s5, pass);
  }
}
