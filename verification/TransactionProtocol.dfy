// Everything that touches a row of the `transactions` table, as interleaved
// steps: submitters, status checker workers, status pollers, reconciliation
// jobs and the cleanup.
//
// A step is one database statement or one Horizon request; steps of different
// actors interleave freely.
module TransactionProtocol {
  import opened Common

  datatype TxStatus = Pending | Success | Failed

  // `id` names one lifetime of the row: a hash whose row was cleaned up may be
  // inserted again, as a row with a new id.
  datatype Row = Row(id: nat, status: TxStatus, submittedAt: int)

  type Rows = map<string, Row>

  // `owner` is history: which submitter inserted a row.
  datatype Table = Table(rows: Rows, nextId: nat, owner: map<nat, nat>)

  // What is known of an error of a submission: whether Horizon answered with
  // result codes, the HTTP status if there was an answer, and whether the message
  // mentions "timeout" or "network".
  datatype HorizonError = HorizonError(resultCodes: bool, httpStatus: Option<nat>, mentionsOutage: bool)

  datatype HorizonReply = Taken | Raised(error: HorizonError)

  datatype Verdict = Duplicate(status: TxStatus) | NotRecorded | Submitted | Rejected(error: HorizonError)

  datatype Submitter =
    | Looking(hash: string)
    | Inserting(hash: string)
    | LookingAgain(hash: string)
    | Sending(hash: string, row: nat)
    | Marking(hash: string, row: nat, error: HorizonError)
    | Ended(verdict: Verdict)

  // A worker that holds several rows of its snapshot is several workers here.
  datatype Worker = Holding(hash: string) | Following(row: nat)

  // What a reconciliation job read at its start, and the hashes it is done with.
  // Several jobs may run, one in each process.
  datatype Reconciler = Reconciler(rows: Rows, chain: set<string>, handled: set<string>)

  datatype SubmitterAction =
    | Submit(hash: string)
    | Find
    | Insert(works: bool, now: int)
    | FindAgain
    | Send(reply: HorizonReply)
    | MarkFailed

  datatype WorkerAction = Fetch(wanted: string) | Finalize(successful: bool) | FollowUp

  datatype PollerAction = PollFind(polled: string) | PollWrite(confirmed: bool)

  datatype ReconcilerAction =
    | ReadAll(chain: set<string>)
    | MarkSucceeded(hash: string)
    | MarkOrphaned(hash: string, now: int)
    | Backfill(hash: string, works: bool, now: int)
    | Finish

  datatype Step =
    | BySubmitter(who: nat, submitting: SubmitterAction)
    | ByWorker(who: nat, working: WorkerAction)
    | ByPoller(who: nat, polling: PollerAction)
    | ByReconciler(who: nat, reconciling: ReconcilerAction)
    | Cleanup(time: int)

  datatype Sent = Sent(sender: nat, row: nat)

  // `sends`, `finals` and `followUps` are the history of a run: what was sent to
  // Horizon, which rows passed the update guarded by `status = 'pending'`, and
  // for which the follow-up ran.
  datatype System = System(
    table: Table,
    submitters: map<nat, Submitter>,
    workers: map<nat, Worker>,
    pollers: map<nat, string>,
    reconcilers: map<nat, Reconciler>,
    sends: seq<Sent>,
    finals: seq<nat>,
    followUps: seq<nat>)

  const EMPTY := System(Table(map[], 0, map[]), map[], map[], map[], map[], [], [], [])

  const RETENTION_MS := 7 * 24 * 60 * 60 * 1000
  const ORPHAN_AGE_MS := 30 * 60 * 1000

  // ------------------------------------------------------------------
  // Submitters
  // ------------------------------------------------------------------

  // The status the error is reported with.  The HTTP status of the answer takes no
  // part in it.
  function DescribedStatus(error: HorizonError): nat {
    if error.resultCodes then 400 else if error.mentionsOutage then 503 else 500
  }

  function WithStatus(t: Table, hash: string, status: TxStatus): Table {
    if hash in t.rows then t.(rows := t.rows[hash := t.rows[hash].(status := status)]) else t
  }

  function Final(successful: bool): TxStatus {
    if successful then Success else Failed
  }

  predicate Inserts(t: Table, actor: Submitter, action: SubmitterAction) {
    actor.Inserting? && action.Insert? && action.works && actor.hash !in t.rows
  }

  predicate Sends(actor: Submitter, action: SubmitterAction) {
    actor.Sending? && action.Send?
  }

  predicate Marks(actor: Submitter, action: SubmitterAction) {
    actor.Marking? && action == MarkFailed
  }

  function Recorded(t: Table, who: nat, actor: Submitter, action: SubmitterAction): Table {
    if Inserts(t, actor, action) then
      Table(t.rows[actor.hash := Row(t.nextId, Pending, action.now)], t.nextId + 1, t.owner[t.nextId := who])
    else if Marks(actor, action) then WithStatus(t, actor.hash, Failed)
    else t
  }

  // An action that is not enabled does nothing.
  function NextSubmitter(t: Table, actor: Submitter, action: SubmitterAction): Submitter {
    match (actor, action)
    case (Looking(hash), Find) =>
      if hash in t.rows then Ended(Duplicate(t.rows[hash].status)) else Submitter.Inserting(hash)
    case (Inserting(hash), Insert(works, _)) =>
      if !works then Ended(NotRecorded) else if hash in t.rows then LookingAgain(hash) else Sending(hash, t.nextId)
    case (LookingAgain(hash), FindAgain) =>
      Ended(if hash in t.rows then Duplicate(t.rows[hash].status) else NotRecorded)
    case (Sending(hash, row), Send(reply)) =>
      (match reply
       case Taken => Ended(Submitted)
       case Raised(error) =>
         if DescribedStatus(error) == 503 then Ended(Rejected(error)) else Marking(hash, row, error))
    case (Marking(_, _, error), MarkFailed) => Ended(Rejected(error))
    case _ => actor
  }

  function SubmitterStep(s: System, who: nat, action: SubmitterAction): System {
    if who in s.submitters then
      var actor := s.submitters[who];
      s.(table := Recorded(s.table, who, actor, action),
         submitters := s.submitters[who := NextSubmitter(s.table, actor, action)],
         sends := if Sends(actor, action) then s.sends + [Sent(who, actor.row)] else s.sends)
    else if action.Submit? then s.(submitters := s.submitters[who := Looking(action.hash)])
    else s
  }

  // ------------------------------------------------------------------
  // Workers and pollers
  // ------------------------------------------------------------------

  // The worker passes the update guarded by `status = 'pending'`.
  predicate Passes(t: Table, worker: Worker, action: WorkerAction) {
    worker.Holding? && action.Finalize? && worker.hash in t.rows && t.rows[worker.hash].status == Pending
  }

  predicate Follows(worker: Worker, action: WorkerAction) {
    worker.Following? && action.FollowUp?
  }

  function NextWorkers(s: System, who: nat, action: WorkerAction): map<nat, Worker>
    requires who in s.workers
  {
    var worker := s.workers[who];
    if Passes(s.table, worker, action) then s.workers[who := Following(s.table.rows[worker.hash].id)]
    else if (worker.Holding? && action.Finalize?) || Follows(worker, action) then s.workers - {who}
    else s.workers
  }

  function WorkerStep(s: System, who: nat, action: WorkerAction): System {
    if who in s.workers then
      var worker := s.workers[who];
      var passes := Passes(s.table, worker, action);
      s.(table := if passes then WithStatus(s.table, worker.hash, Final(action.successful)) else s.table,
         workers := NextWorkers(s, who, action),
         finals := if passes then s.finals + [s.table.rows[worker.hash].id] else s.finals,
         followUps := if Follows(worker, action) then s.followUps + [worker.row] else s.followUps)
    else if action.Fetch? && action.wanted in s.table.rows && s.table.rows[action.wanted].status == Pending
    then s.(workers := s.workers[who := Holding(action.wanted)])
    else s
  }

  function PollerStep(s: System, who: nat, action: PollerAction): System {
    match action
    case PollFind(hash) =>
      if who !in s.pollers && hash in s.table.rows then s.(pollers := s.pollers[who := hash]) else s
    case PollWrite(successful) =>
      if who !in s.pollers then s
      else s.(table := WithStatus(s.table, s.pollers[who], Final(successful)), pollers := s.pollers - {who})
  }

  // ------------------------------------------------------------------
  // Reconciliation jobs and the cleanup
  // ------------------------------------------------------------------

  // `update ... where id = ?`, whatever the status of the row by now.
  function UpdateById(t: Table, hash: string, id: nat, status: TxStatus): Table {
    if hash in t.rows && t.rows[hash].id == id then WithStatus(t, hash, status) else t
  }

  predicate Pends(job: Reconciler, hash: string) {
    hash !in job.handled && hash in job.rows && job.rows[hash].status == Pending
  }

  predicate Succeeds(job: Reconciler, hash: string) {
    Pends(job, hash) && hash in job.chain
  }

  // The first loop, over the chain hashes, is through.
  predicate ChainIsHandled(job: Reconciler) {
    forall h | h in job.chain :: h in job.handled || (h in job.rows && job.rows[h].status != Pending)
  }

  predicate Orphans(job: Reconciler, hash: string, now: int) {
    ChainIsHandled(job) && Pends(job, hash) && hash !in job.chain && job.rows[hash].submittedAt < now - ORPHAN_AGE_MS
  }

  predicate Backfills(job: Reconciler, hash: string) {
    hash !in job.handled && hash in job.chain && hash !in job.rows
  }

  // A backfill that is refused raises an error, which ends the job.
  predicate Ends(job: Reconciler, action: ReconcilerAction) {
    action.Finish? || (action.Backfill? && Backfills(job, action.hash) && !action.works)
  }

  // The job decides by its snapshot and writes to the table of the moment.
  function Reconciled(t: Table, job: Reconciler, action: ReconcilerAction): Table {
    match action
    case MarkSucceeded(hash) => if Succeeds(job, hash) then UpdateById(t, hash, job.rows[hash].id, Success) else t
    case MarkOrphaned(hash, now) =>
      if Orphans(job, hash, now) then UpdateById(t, hash, job.rows[hash].id, Failed) else t
    case Backfill(hash, works, now) =>
      if works && Backfills(job, hash) && hash !in t.rows
      then t.(rows := t.rows[hash := Row(t.nextId, Success, now)], nextId := t.nextId + 1) else t
    case _ => t
  }

  predicate Handles(job: Reconciler, action: ReconcilerAction) {
    match action
    case MarkSucceeded(hash) => Succeeds(job, hash)
    case MarkOrphaned(hash, now) => Orphans(job, hash, now)
    case Backfill(hash, works, _) => works && Backfills(job, hash)
    case _ => false
  }

  function ReconcilerStep(s: System, who: nat, action: ReconcilerAction): System {
    if who in s.reconcilers then
      var job := s.reconcilers[who];
      s.(table := Reconciled(s.table, job, action),
         reconcilers := if Handles(job, action)
                        then s.reconcilers[who := job.(handled := job.handled + {action.hash})]
                        else if Ends(job, action) then s.reconcilers - {who}
                        else s.reconcilers)
    else if action.ReadAll? then s.(reconcilers := s.reconcilers[who := Reconciler(s.table.rows, action.chain, {})])
    else s
  }

  predicate Expired(row: Row, now: int) {
    row.submittedAt < now - RETENTION_MS && row.status != Pending
  }

  function CleanupStep(s: System, now: int): System {
    s.(table := s.table.(rows := map h | h in s.table.rows && !Expired(s.table.rows[h], now) :: s.table.rows[h]))
  }

  function Apply(s: System, step: Step): System {
    match step
    case BySubmitter(who, action) => SubmitterStep(s, who, action)
    case ByWorker(who, action) => WorkerStep(s, who, action)
    case ByPoller(who, action) => PollerStep(s, who, action)
    case ByReconciler(who, action) => ReconcilerStep(s, who, action)
    case Cleanup(now) => CleanupStep(s, now)
  }

  ghost function RunFrom(s: System, steps: seq<Step>): System {
    if steps == [] then s else Apply(RunFrom(s, steps[..|steps| - 1]), steps[|steps| - 1])
  }

  ghost function Run(steps: seq<Step>): System {
    RunFrom(EMPTY, steps)
  }

  // ------------------------------------------------------------------
  // The rows
  // ------------------------------------------------------------------

  // Every row id was handed out once; the submitted ones have an owner.
  ghost predicate IdsOwned(t: Table) {
    && (forall id | id in t.owner :: id < t.nextId)
    && (forall h | h in t.rows :: t.rows[h].id < t.nextId)
    && (forall a, b | a in t.rows && b in t.rows && a != b :: t.rows[a].id != t.rows[b].id)
  }

  // What a step may do to the table: every row that is there afterwards was there
  // before under the same id, possibly with another status that is not pending,
  // or it is the one new row: a pending one of a submitter, or a successful one
  // that a reconciliation job backfilled.
  ghost predicate Evolves(t: Table, after: Table) {
    && t.nextId <= after.nextId <= t.nextId + 1
    && (forall id | id in t.owner && id < t.nextId :: id in after.owner && after.owner[id] == t.owner[id])
    && (forall id | id in after.owner :: id in t.owner || id == t.nextId < after.nextId)
    && (forall h | h in after.rows ::
          if h in t.rows then
            && t.rows[h].id == after.rows[h].id
            && (after.rows[h].status == t.rows[h].status || after.rows[h].status != Pending)
          else
            && after.rows[h].id == t.nextId < after.nextId
            && after.rows[h].status == if t.nextId in after.owner then Pending else Success)
    && (forall g, h | g in after.rows && h in after.rows && g !in t.rows && h !in t.rows :: g == h)
  }

  lemma RecordingEvolves(t: Table, who: nat, actor: Submitter, action: SubmitterAction)
    requires IdsOwned(t)
    ensures Evolves(t, Recorded(t, who, actor, action))
  {}

  lemma ReconcilingEvolves(t: Table, job: Reconciler, action: ReconcilerAction)
    requires IdsOwned(t)
    ensures Evolves(t, Reconciled(t, job, action)) && Reconciled(t, job, action).owner == t.owner
  {}

  lemma StatusEvolves(t: Table, hash: string, status: TxStatus)
    requires status != Pending
    ensures Evolves(t, WithStatus(t, hash, status)) && WithStatus(t, hash, status).owner == t.owner
  {}

  lemma NothingEvolves(t: Table)
    ensures Evolves(t, t)
  {}

  // In every step: ids stay, no row becomes pending again, and a new row is the
  // pending one of its submitter or a backfilled success.
  lemma StepEvolvesTable(s: System, step: Step)
    requires IdsOwned(s.table)
    ensures Evolves(s.table, Apply(s, step).table)
    ensures !step.BySubmitter? ==> Apply(s, step).table.owner == s.table.owner
  {
    NothingEvolves(s.table);
    match step
    case BySubmitter(who, action) =>
      if who in s.submitters {
        RecordingEvolves(s.table, who, s.submitters[who], action);
      }
    case ByWorker(who, action) =>
      if who in s.workers && Passes(s.table, s.workers[who], action) {
        StatusEvolves(s.table, s.workers[who].hash, Final(action.successful));
      }
    case ByPoller(who, action) =>
      if who in s.pollers && action.PollWrite? {
        StatusEvolves(s.table, s.pollers[who], Final(action.confirmed));
      }
    case ByReconciler(who, action) =>
      if who in s.reconcilers {
        ReconcilingEvolves(s.table, s.reconcilers[who], action);
      }
    case Cleanup(_) =>
  }

  // A row disappears exactly when the cleanup meets it final and older than the
  // retention; a pending row stays whatever happens.
  lemma RowDisappearsExactlyWhen(s: System, step: Step, hash: string)
    requires hash in s.table.rows
    ensures hash !in Apply(s, step).table.rows
            <==> && step.Cleanup? && s.table.rows[hash].status != Pending
                 && s.table.rows[hash].submittedAt < step.time - 604_800_000
  {}

  lemma IdsStayOwned(t: Table, after: Table)
    requires IdsOwned(t) && Evolves(t, after)
    ensures IdsOwned(after)
  {}

  // ------------------------------------------------------------------
  // Submission
  // ------------------------------------------------------------------

  ghost predicate WasSent(s: System, row: nat) {
    exists i :: 0 <= i < |s.sends| && s.sends[i].row == row
  }

  ghost predicate Past(s: System, who: nat) {
    who in s.submitters && (s.submitters[who].Marking? || s.submitters[who].Ended?)
  }

  ghost predicate MaySend(s: System, who: nat) {
    who in s.submitters && s.submitters[who].Sending?
  }

  ghost predicate Owns(s: System, who: nat, row: nat) {
    row in s.table.owner && s.table.owner[row] == who
  }

  // Only the owner of a row sends its transaction, and it does so once; the row
  // was inserted before.
  ghost predicate SentByOwner(s: System) {
    && (forall i | 0 <= i < |s.sends| ::
          Owns(s, s.sends[i].sender, s.sends[i].row) && Past(s, s.sends[i].sender))
    && (forall i, j | 0 <= i < j < |s.sends| :: s.sends[i].row != s.sends[j].row)
    && (forall who | MaySend(s, who) ::
          Owns(s, who, s.submitters[who].row) && !WasSent(s, s.submitters[who].row))
  }

  lemma SendKeepsSentByOwner(s: System, who: nat, reply: HorizonReply)
    requires SentByOwner(s) && MaySend(s, who)
    ensures SentByOwner(SubmitterStep(s, who, Send(reply)))
  {
    var after := SubmitterStep(s, who, Send(reply));
    var row := s.submitters[who].row;
    assert after.sends == s.sends + [Sent(who, row)] && after.table == s.table;
    forall other | MaySend(after, other)
      ensures Owns(after, other, after.submitters[other].row) && !WasSent(after, after.submitters[other].row)
    {
      assert MaySend(s, other);
    }
    forall i | 0 <= i < |after.sends|
      ensures Past(after, after.sends[i].sender)
    {
      assert i < |s.sends| ==> Past(s, s.sends[i].sender);
    }
  }

  // A step that sends nothing: submitters that are past sending stay so, and a
  // submitter that may send now could before or owns the row just inserted.
  lemma QuietStepKeepsSentByOwner(s: System, after: System)
    requires IdsOwned(s.table) && SentByOwner(s) && Evolves(s.table, after.table) && after.sends == s.sends
    requires forall who | Past(s, who) :: Past(after, who)
    requires forall who | MaySend(after, who) ::
               || (MaySend(s, who) && after.submitters[who].row == s.submitters[who].row)
               || (after.submitters[who].row == s.table.nextId && Owns(after, who, s.table.nextId))
    ensures SentByOwner(after)
  {
    forall who | MaySend(after, who)
      ensures Owns(after, who, after.submitters[who].row) && !WasSent(after, after.submitters[who].row)
    {
      assert MaySend(s, who) ==> Owns(s, who, s.submitters[who].row) && !WasSent(s, s.submitters[who].row);
    }
    forall i | 0 <= i < |after.sends|
      ensures Owns(after, after.sends[i].sender, after.sends[i].row) && Past(after, after.sends[i].sender)
    {
      assert Owns(s, s.sends[i].sender, s.sends[i].row) && Past(s, s.sends[i].sender);
    }
  }

  lemma SubmitterMovesOn(t: Table, who: nat, actor: Submitter, action: SubmitterAction)
    requires !Sends(actor, action)
    ensures var next := NextSubmitter(t, actor, action);
            && (actor.Marking? || actor.Ended? ==> next.Marking? || next.Ended?)
            && (next.Sending? ==> next == actor || (Inserts(t, actor, action) && next.row == t.nextId))
  {}

  lemma SubmitterKeepsSentByOwner(s: System, who: nat, action: SubmitterAction)
    requires IdsOwned(s.table) && SentByOwner(s)
    ensures SentByOwner(SubmitterStep(s, who, action))
  {
    StepEvolvesTable(s, BySubmitter(who, action));
    if who in s.submitters {
      if Sends(s.submitters[who], action) {
        SendKeepsSentByOwner(s, who, action.reply);
      } else {
        SubmitterMovesOn(s.table, who, s.submitters[who], action);
        QuietStepKeepsSentByOwner(s, SubmitterStep(s, who, action));
      }
    } else {
      QuietStepKeepsSentByOwner(s, SubmitterStep(s, who, action));
    }
  }

  lemma SendsStayOwned(s: System, step: Step)
    requires IdsOwned(s.table) && SentByOwner(s)
    ensures SentByOwner(Apply(s, step))
  {
    if step.BySubmitter? {
      SubmitterKeepsSentByOwner(s, step.who, step.submitting);
    } else {
      StepEvolvesTable(s, step);
      QuietStepKeepsSentByOwner(s, Apply(s, step));
    }
  }

  // A submitter changes rows in two ways only: it inserts its own pending row,
  // and it marks its hash failed after an error that is not reported as an
  // outage.
  lemma SubmitterTouchesRows(s: System, who: nat, action: SubmitterAction)
    ensures var rows, after := s.table.rows, SubmitterStep(s, who, action);
            || after.table.rows == rows
            || (&& who in s.submitters && s.submitters[who].Inserting? && action.Insert?
                && var hash := s.submitters[who].hash;
                   && hash !in rows && after.table.rows == rows[hash := Row(s.table.nextId, Pending, action.now)]
                   && after.submitters[who] == Sending(hash, s.table.nextId))
            || (&& who in s.submitters && s.submitters[who].Marking? && action == MarkFailed
                && var hash := s.submitters[who].hash;
                   && hash in rows && after.table.rows == rows[hash := rows[hash].(status := Failed)]
                   && after.submitters[who] == Ended(Rejected(s.submitters[who].error)))
  {}

  // Which errors lead to the mark: those with result codes, and all others whose
  // message mentions neither word, whatever the HTTP status.
  lemma MarksExactlyWhen(t: Table, hash: string, row: nat, error: HorizonError)
    ensures NextSubmitter(t, Sending(hash, row), Send(Raised(error)))
            == if error.resultCodes || !error.mentionsOutage then Marking(hash, row, error) else Ended(Rejected(error))
    ensures DescribedStatus(error) == 400 <==> error.resultCodes
    ensures DescribedStatus(error) == 500 <==> !error.resultCodes && !error.mentionsOutage
  {}

  // What a submitter is told: a duplicate is answered with the status its row
  // has at that moment, "submitted" means Horizon took it just now, and nobody
  // whose insert failed or who lost the insert sends anything.
  lemma VerdictsAreRecorded(s: System, who: nat, action: SubmitterAction)
    requires who in s.submitters && !s.submitters[who].Ended?
    requires SubmitterStep(s, who, action).submitters[who].Ended?
    ensures var actor, after := s.submitters[who], SubmitterStep(s, who, action);
            match after.submitters[who].verdict
            case Duplicate(status) =>
              && (actor.Looking? || actor.LookingAgain?) && after.sends == s.sends
              && actor.hash in s.table.rows && s.table.rows[actor.hash].status == status
            case NotRecorded =>
              && after.sends == s.sends && after.table == s.table
              && (actor.Inserting? || (actor.LookingAgain? && actor.hash !in s.table.rows))
            case Submitted => actor.Sending? && action == Send(Taken) && after.table == s.table
            case Rejected(error) =>
              || (&& actor.Marking? && actor.error == error
                  && (actor.hash in s.table.rows ==> after.table.rows[actor.hash].status == Failed))
              || (&& actor.Sending? && action == Send(Raised(error)) && !error.resultCodes && error.mentionsOutage
                  && after.table == s.table)
  {}
}
