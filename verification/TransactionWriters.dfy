// Who brings a row about, who writes its status, and by what each of them decides.
module TransactionWriters {
  import opened Common
  import opened TransactionProtocol
  import opened TransactionRuns

  // ------------------------------------------------------------------
  // Rows
  // ------------------------------------------------------------------

  // A worker that holds the hash learns the outcome while the row is pending.
  ghost predicate Confirms(s: System, step: Step, hash: string, status: TxStatus)
    requires hash in s.table.rows
  {
    && step.ByWorker? && step.who in s.workers && s.workers[step.who] == Holding(hash)
    && step.working.Finalize? && s.table.rows[hash].status == Pending
    && status == if step.working.successful then Success else Failed
  }

  ghost predicate GetsStatus(s: System, step: Step, hash: string, status: TxStatus) {
    hash in Apply(s, step).table.rows && Apply(s, step).table.rows[hash].status == status
  }

  lemma SubmitterOverwrites(s: System, step: Step, hash: string, status: TxStatus)
    requires step.BySubmitter? && hash in s.table.rows && s.table.rows[hash].status != status
    ensures GetsStatus(s, step, hash, status) <==> Overwrites(s, step, hash, status)
  {}

  lemma PollerOverwrites(s: System, step: Step, hash: string, status: TxStatus)
    requires step.ByPoller? && hash in s.table.rows && s.table.rows[hash].status != status
    ensures GetsStatus(s, step, hash, status) <==> Overwrites(s, step, hash, status)
  {}

  lemma ReconcilerOverwrites(s: System, step: Step, hash: string, status: TxStatus)
    requires step.ByReconciler? && hash in s.table.rows && s.table.rows[hash].status != status
    ensures GetsStatus(s, step, hash, status) <==> Overwrites(s, step, hash, status)
  {}

  // The status of a row changes exactly when a worker confirms the pending row or one
  // of the three others writes without looking.
  lemma StatusChangesExactlyWhen(s: System, step: Step, hash: string, status: TxStatus)
    requires hash in s.table.rows && s.table.rows[hash].status != status
    ensures var after := Apply(s, step).table.rows;
            hash in after && after[hash].status == status
            <==> Confirms(s, step, hash, status) || Overwrites(s, step, hash, status)
  {
    match step
    case BySubmitter(_, _) => SubmitterOverwrites(s, step, hash, status);
    case ByPoller(_, _) => PollerOverwrites(s, step, hash, status);
    case ByReconciler(_, _) => ReconcilerOverwrites(s, step, hash, status);
    case _ =>
  }

  // A row appears exactly when the submitter that is about to insert it succeeds, or
  // when a job that saw its hash on the chain and had no row for it backfills it.
  lemma RowAppearsExactlyWhen(s: System, step: Step, hash: string, row: Row)
    requires hash !in s.table.rows
    ensures var after := Apply(s, step).table.rows;
            hash in after && after[hash] == row
            <==> || (&& step.BySubmitter? && step.who in s.submitters
                     && s.submitters[step.who] == Submitter.Inserting(hash)
                     && step.submitting == Insert(true, row.submittedAt)
                     && row.status == Pending && row.id == s.table.nextId)
                 || (&& step.ByReconciler? && step.who in s.reconcilers
                     && step.reconciling == Backfill(hash, true, row.submittedAt)
                     && hash in s.reconcilers[step.who].chain && hash !in s.reconcilers[step.who].rows
                     && hash !in s.reconcilers[step.who].handled
                     && row.status == Success && row.id == s.table.nextId)
  {}

  ghost predicate FoundAt(steps: seq<Step>, i: nat, who: nat, hash: string) {
    && i < |steps| && steps[i] == ByPoller(who, PollFind(hash)) && hash in Run(steps[..i]).table.rows
    && forall j | i < j <= |steps| :: who in Run(steps[..j]).pollers && Run(steps[..j]).pollers[who] == hash
  }

  lemma PollerMovesOn(s: System, step: Step, who: nat)
    requires who in Apply(s, step).pollers
    ensures var hash := Apply(s, step).pollers[who];
            if who in s.pollers then hash == s.pollers[who]
            else step == ByPoller(who, PollFind(hash)) && hash in s.table.rows
  {}

  // In every interleaving, a poller about to write found a row of its hash, and has
  // waited for Horizon since.
  lemma {:induction false} PollersFoundTheirRow(steps: seq<Step>, who: nat) returns (i: nat)
    requires who in Run(steps).pollers
    ensures FoundAt(steps, i, who, Run(steps).pollers[who]) && who !in Run(steps[..i]).pollers
  {
    var n := |steps| - 1;
    PollerMovesOn(Run(steps[..n]), steps[n], who);
    assert steps[..n + 1] == steps;
    if who in Run(steps[..n]).pollers {
      i := PollersFoundTheirRow(steps[..n], who);
      FoundStays(steps, steps[..n], i, who);
    } else {
      i := n;
    }
  }

  lemma FoundStays(steps: seq<Step>, front: seq<Step>, i: nat, who: nat)
    requires 0 < |steps| && front == steps[..|steps| - 1]
    requires who in Run(steps).pollers && FoundAt(front, i, who, Run(steps).pollers[who])
    ensures FoundAt(steps, i, who, Run(steps).pollers[who]) && steps[..i] == front[..i]
  {
    assert steps[..|steps|] == steps;
    forall j | 0 <= j <= |front| ensures front[..j] == steps[..j] {}
  }

  // ------------------------------------------------------------------
  // Submission without disturbance
  // ------------------------------------------------------------------

  function Alone(s: System, who: nat, hash: string, works: bool, now: int, reply: HorizonReply): System {
    Apply(Apply(Apply(Apply(s, BySubmitter(who, Submit(hash))), BySubmitter(who, Find)),
                BySubmitter(who, Insert(works, now))), BySubmitter(who, Send(reply)))
  }

  // A transaction reaches Horizon exactly when its hash has no row and the insert
  // works; a known hash is answered with the status of its row.
  lemma SentExactlyWhen(s: System, who: nat, hash: string, works: bool, now: int, reply: HorizonReply)
    requires who !in s.submitters
    ensures var after := Alone(s, who, hash, works, now, reply);
            && who in after.submitters
            && if hash in s.table.rows then
                 after.submitters[who] == Ended(Duplicate(s.table.rows[hash].status)) && after.table == s.table
                 && after.sends == s.sends
               else if !works then
                 after.submitters[who] == Ended(NotRecorded) && after.table == s.table && after.sends == s.sends
               else
                 && after.table.rows == s.table.rows[hash := Row(s.table.nextId, Pending, now)]
                 && after.sends == s.sends + [Sent(who, s.table.nextId)]
                 && (after.submitters[who] == Ended(Submitted) <==> reply == Taken)
  {
    var one := Apply(s, BySubmitter(who, Submit(hash)));
    assert one.submitters[who] == Looking(hash);
    var two := Apply(one, BySubmitter(who, Find));
    assert hash !in s.table.rows ==> two.submitters[who] == Submitter.Inserting(hash);
    var three := Apply(two, BySubmitter(who, Insert(works, now)));
    assert hash !in s.table.rows && works ==> three.submitters[who] == Submitter.Sending(hash, s.table.nextId);
  }

  // ------------------------------------------------------------------
  // Reconciliation jobs
  // ------------------------------------------------------------------

  // What a job still has to do to `hash`, by what it read at its start.
  ghost predicate Due(job: Reconciler, action: ReconcilerAction, hash: string) {
    && hash !in job.handled
    && match action
       case MarkSucceeded(h) => h == hash && hash in job.chain && hash in job.rows && job.rows[hash].status == Pending
       case MarkOrphaned(h, now) =>
         && h == hash && hash !in job.chain && hash in job.rows && job.rows[hash].status == Pending
         && job.rows[hash].submittedAt < now - 1_800_000
         && forall g | g in job.chain :: g in job.handled || (g in job.rows && job.rows[g].status != Pending)
       case Backfill(h, _, _) => h == hash && hash in job.chain && hash !in job.rows
       case _ => false
  }

  ghost predicate Refused(action: ReconcilerAction) {
    action.Backfill? && !action.works
  }

  // A job ends exactly when it is through or a backfill that was due is refused.
  lemma JobEndsExactlyWhen(s: System, step: Step, who: nat)
    requires who in s.reconcilers
    ensures who !in Apply(s, step).reconcilers
            <==> && step.ByReconciler? && step.who == who
                 && (step.reconciling.Finish?
                     || (Refused(step.reconciling) && Due(s.reconcilers[who], step.reconciling, step.reconciling.hash)))
  {}

  ghost predicate HandledAt(steps: seq<Step>, j: nat, who: nat, hash: string) {
    && j < |steps| && steps[j].ByReconciler? && steps[j].who == who && !Refused(steps[j].reconciling)
    && who in Run(steps[..j]).reconcilers && Due(Run(steps[..j]).reconcilers[who], steps[j].reconciling, hash)
  }

  ghost predicate HandledAfter(steps: seq<Step>, i: nat, who: nat, hash: string) {
    exists j: nat :: i < j && HandledAt(steps, j, who, hash)
  }

  // Job `who` started with step `i` of the run and has not ended since.
  ghost predicate Started(steps: seq<Step>, i: nat, who: nat) {
    && i < |steps| && steps[i].ByReconciler? && steps[i].who == who && steps[i].reconciling.ReadAll?
    && who !in Run(steps[..i]).reconcilers
    && forall j | i < j <= |steps| :: who in Run(steps[..j]).reconcilers
  }

  lemma JobMovesOn(s: System, step: Step, who: nat)
    requires who in Apply(s, step).reconcilers
    ensures var job := Apply(s, step).reconcilers[who];
            if who in s.reconcilers
            then && job.rows == s.reconcilers[who].rows && job.chain == s.reconcilers[who].chain
                 && forall h :: h in job.handled
                      <==> || h in s.reconcilers[who].handled
                           || (&& step.ByReconciler? && step.who == who && !Refused(step.reconciling)
                               && Due(s.reconcilers[who], step.reconciling, h))
            else step.ByReconciler? && step.who == who && step.reconciling.ReadAll?
                 && job == Reconciler(s.table.rows, step.reconciling.chain, {})
  {}

  // In every interleaving, a job decides by the rows that were there when it started,
  // the chain hashes it was given then and the hashes it has dealt with since.
  lemma {:induction false} JobKeepsItsSnapshot(steps: seq<Step>, who: nat) returns (i: nat)
    requires who in Run(steps).reconcilers
    ensures Started(steps, i, who)
    ensures var job := Run(steps).reconcilers[who];
            && job.rows == Run(steps[..i]).table.rows && job.chain == steps[i].reconciling.chain
            && forall h :: h in job.handled <==> HandledAfter(steps, i, who, h)
  {
    var n := |steps| - 1;
    var front := steps[..n];
    JobMovesOn(Run(front), steps[n], who);
    assert steps[..n + 1] == steps;
    if who in Run(front).reconcilers {
      i := JobKeepsItsSnapshot(front, who);
      forall j | i < j <= |steps| ensures who in Run(steps[..j]).reconcilers {
        if j <= n {
          assert front[..j] == steps[..j];
        }
      }
      assert front[..i] == steps[..i];
      forall h
        ensures HandledAfter(steps, i, who, h) <==> HandledAfter(front, i, who, h) || HandledAt(steps, n, who, h)
      {
        HandledSince(steps, front, i, who, h);
      }
    } else {
      i := n;
    }
  }

  lemma HandledSince(steps: seq<Step>, front: seq<Step>, i: nat, who: nat, hash: string)
    requires 0 < |steps| && i < |front| && front == steps[..|steps| - 1]
    ensures HandledAfter(steps, i, who, hash)
            <==> HandledAfter(front, i, who, hash) || HandledAt(steps, |front|, who, hash)
  {
    forall j: nat | j < |front| ensures HandledAt(steps, j, who, hash) <==> HandledAt(front, j, who, hash) {
      assert front[..j] == steps[..j];
    }
  }
}
