// The writers of `loans.status`: the status checker, which calls a repaid loan
// completed, the reconciliation job, which copies the status that the indexer gave
// the loan, and the assessment of a loan that awaits approval.
module LoanStatuses {
  import opened Common
  import opened LoanReconciliation
  import C = StatusChecker
  import E = EventTables
  import M = LoanMoney

  const COMPLETED := "completed"

  function NameOf(status: E.Status): (name: string)
    ensures name != COMPLETED
  {
    match status
    case Active => "active"
    case Paid => "paid"
    case Defaulted => "defaulted"
  }

  ghost predicate Named(name: string, status: E.Status) {
    (name == "active" && status.Active?) || (name == "paid" && status.Paid?)
    || (name == "defaulted" && status.Defaulted?)
  }

  // The chain loans are the rows of the loan index.
  ghost predicate IndexOf(chain: seq<ChainLoan>, index: E.Tables) {
    && (forall i | 0 <= i < |chain| ::
          chain[i].loanId in index.loans && chain[i].status == NameOf(index.loans[chain[i].loanId].status))
    && (forall l | l in index.loans :: exists i :: 0 <= i < |chain| && chain[i].loanId == l)
  }

  // ------------------------------------------------------------------
  // One pass of the reconciliation job
  // ------------------------------------------------------------------

  // A pass leaves a row completed exactly when it was and its loan is not indexed:
  // whatever the read orders, no indexed loan is completed after it.
  lemma CompletedAfterPassExactlyWhen(index: E.Tables, chain: seq<ChainLoan>, ds: seq<Decision>, t: LoanTable,
                                      id: RowId)
    requires AllFit(t, chain, ds) && UniqueLoanIds(t) && IndexOf(chain, index) && id in t
    ensures id in Pass(chain, ds, t)
    ensures var after := Pass(chain, ds, t)[id];
            after.status == COMPLETED <==> t[id].status == COMPLETED && after.loanId !in index.loans
  {
    RowSettles(chain, ds, t, |chain|, id);
    if k :| 0 <= k < |ds| && Claims(ds, k, id) {
      var claim := SomeClaimIsLast(ds, |ds|, k, id);
      var write := SomeWriteIsLast(ds, |ds|, k, id);
    } else if k :| 0 <= k < |ds| && Writes(ds, k, id) {
      var write := SomeWriteIsLast(ds, |ds|, k, id);
      assert Fits(t, chain[write], ds[write]);
    } else if t[id].loanId in index.loans {
      var i :| 0 <= i < |chain| && chain[i].loanId == t[id].loanId;
      assert Fits(t, chain[i], ds[i]);
      StatusIsDecided(t, chain[i], ds[i]);
    }
  }

  // The row of an indexed loan under its final id gets the status of the index.
  lemma PassWritesIndexStatus(index: E.Tables, chain: seq<ChainLoan>, ds: seq<Decision>, t: LoanTable, id: RowId)
    requires AllFit(t, chain, ds) && UniqueLoanIds(t) && UniqueChainIds(chain) && IndexOf(chain, index)
    requires id in t && !Provisional(t[id].loanId)
    ensures id in Pass(chain, ds, t)
    ensures Pass(chain, ds, t)[id] == AfterReconciliation(t[id], index)
    ensures t[id].loanId in index.loans ==> Named(Pass(chain, ds, t)[id].status, index.loans[t[id].loanId].status)
  {
    RowSettles(chain, ds, t, |chain|, id);
    RowAfter(chain, ds, t, |chain|, id);
    FinalIdIsKept(chain, ds, t, id);
    if k :| 0 <= k < |ds| && Writes(ds, k, id) {
      var write := SomeWriteIsLast(ds, |ds|, k, id);
      assert Claims(ds, write, id) || chain[write].loanId == t[id].loanId;
    } else if t[id].loanId in index.loans {
      var i :| 0 <= i < |chain| && chain[i].loanId == t[id].loanId;
      StatusIsDecided(t, chain[i], ds[i]);
    }
  }

  lemma FinalIdIsKept(chain: seq<ChainLoan>, ds: seq<Decision>, t: LoanTable, id: RowId)
    requires AllFit(t, chain, ds) && id in t && !Provisional(t[id].loanId)
    ensures forall k | 0 <= k < |ds| :: !Claims(ds, k, id)
    ensures forall k | 0 <= k < |ds| && ds[k] == StaleStatus(id) :: chain[k].loanId == t[id].loanId
  {
    forall k | 0 <= k < |ds|
      ensures !Claims(ds, k, id) && (ds[k] == StaleStatus(id) ==> chain[k].loanId == t[id].loanId)
    {
      assert Fits(t, chain[k], ds[k]);
    }
  }

  function AfterReconciliation(row: LoanRow, index: E.Tables): LoanRow {
    if row.loanId in index.loans then row.(status := NameOf(index.loans[row.loanId].status)) else row
  }

  // ------------------------------------------------------------------
  // One loan between its writers
  // ------------------------------------------------------------------

  // The row of a loan under its final id, its balance in stroops, the index, and
  // how many assessments have read the row and not yet written it.
  datatype Books = Books(row: LoanRow, remaining: int, index: E.Tables, assessing: nat)

  datatype Assessment = Approved | Rejected | ForReview

  datatype Step =
    | Activated
    | RepaymentApplied(amount: int)
    | Indexed(event: E.Event)
    | Reconciled
    | AssessmentBegun
    | Assessed(assessment: Assessment)

  // The repayment of the status checker, which writes no status but this one.
  function Repay(b: Books, amount: int): Books {
    var after := C.Repay(C.LoanRow(b.remaining, C.OtherState), amount);
    b.(row := if after.state.Repaid? then b.row.(status := COMPLETED) else b.row, remaining := after.remaining)
  }

  function StatusAfter(assessment: Assessment): (status: string)
    ensures status != COMPLETED && status != "paid"
  {
    match assessment
    case Approved => "pending"
    case Rejected => "rejected"
    case ForReview => "under_review"
  }

  function Take(b: Books, step: Step): Books {
    match step
    case Activated => if b.row.status == "pending" then b.(row := b.row.(status := "active")) else b
    case RepaymentApplied(amount) => Repay(b, amount)
    case Indexed(event) => b.(index := E.Persist(b.index, event))
    case Reconciled => b.(row := AfterReconciliation(b.row, b.index))
    case AssessmentBegun =>
      if b.row.status == "pending" || b.row.status == "under_review" then b.(assessing := b.assessing + 1) else b
    case Assessed(assessment) =>
      if b.assessing == 0 then b
      else b.(row := b.row.(status := StatusAfter(assessment)), assessing := b.assessing - 1)
  }

  function Run(b: Books, steps: seq<Step>): Books {
    if steps == [] then b else Take(Run(b, steps[..|steps| - 1]), steps[|steps| - 1])
  }

  // What each writer makes of the status, and when an assessment can begin.
  lemma StepWrites(b: Books, step: Step)
    ensures var before, after := b.row.status, Take(b, step).row.status;
            match step
            case Activated => after == if before == "pending" then "active" else before
            case RepaymentApplied(amount) =>
              && after == (if M.BalanceAfter(b.remaining, amount) == 0 then "completed" else before)
              && Take(b, step).remaining == M.BalanceAfter(b.remaining, amount)
            case Reconciled =>
              if b.row.loanId in b.index.loans then Named(after, b.index.loans[b.row.loanId].status)
              else after == before
            case AssessmentBegun =>
              && after == before
              && (Take(b, step).assessing == b.assessing + 1 <==> before == "pending" || before == "under_review")
            case Assessed(assessment) =>
              if b.assessing == 0 then after == before
              else
                after == (match assessment
                          case Approved => "pending"
                          case Rejected => "rejected"
                          case ForReview => "under_review")
            case _ => after == before
  {}

  function EventsOf(steps: seq<Step>): seq<E.Event> {
    if steps == [] then []
    else
      var front, last := EventsOf(steps[..|steps| - 1]), steps[|steps| - 1];
      if last.Indexed? then front + [last.event] else front
  }

  // Whatever happens between its steps, the index is that of a plain delivery.
  lemma {:induction false} IndexIsDelivered(b: Books, steps: seq<Step>)
    ensures Run(b, steps).index == E.Deliver(b.index, EventsOf(steps))
  {
    if steps != [] {
      var front := steps[..|steps| - 1];
      IndexIsDelivered(b, front);
      if steps[|steps| - 1].Indexed? {
        assert EventsOf(steps)[..|EventsOf(steps)| - 1] == EventsOf(front);
      }
    }
  }

  // ------------------------------------------------------------------
  // Over all runs
  // ------------------------------------------------------------------

  predicate Clears(b: Books, step: Step) {
    step.RepaymentApplied? && M.BalanceAfter(b.remaining, step.amount) == 0
  }

  // The status is written without a look at what it is.
  predicate Overwrites(b: Books, step: Step) {
    (step.Reconciled? && b.row.loanId in b.index.loans) || (step.Assessed? && b.assessing > 0)
  }

  lemma StepAndStatus(b: Books, step: Step)
    ensures Take(b, step).row.status == COMPLETED
            <==> Clears(b, step) || (b.row.status == COMPLETED && !Overwrites(b, step))
    ensures Take(b, step).row.loanId == b.row.loanId
  {}

  ghost predicate ClearsAt(b: Books, steps: seq<Step>, i: nat)
    requires i < |steps|
  {
    Clears(Run(b, steps[..i]), steps[i])
  }

  ghost predicate OverwritesAt(b: Books, steps: seq<Step>, i: nat)
    requires i < |steps|
  {
    Overwrites(Run(b, steps[..i]), steps[i])
  }

  ghost predicate ClearedSince(b: Books, steps: seq<Step>, i: nat) {
    i < |steps| && ClearsAt(b, steps, i) && forall j | i < j < |steps| :: !OverwritesAt(b, steps, j)
  }

  // Over every run: a loan is completed exactly when a repayment cleared it, and
  // since then no reconciliation has met it in the index and no assessment begun
  // before has ended.  Nothing else undoes it, and nothing keeps it.
  lemma {:induction false} CompletedExactlyWhen(b: Books, steps: seq<Step>)
    requires b.row.status != COMPLETED
    ensures Run(b, steps).row.status == COMPLETED <==> exists i: nat :: ClearedSince(b, steps, i)
    ensures Run(b, steps).row.loanId == b.row.loanId
  {
    if steps != [] {
      var n := |steps| - 1;
      CompletedExactlyWhen(b, steps[..n]);
      StepAndStatus(Run(b, steps[..n]), steps[n]);
      ClearedBefore(b, steps);
    }
  }

  lemma ClearedBefore(b: Books, steps: seq<Step>)
    requires steps != []
    ensures var front, n := steps[..|steps| - 1], |steps| - 1;
            (exists i: nat :: ClearedSince(b, steps, i))
            <==> ClearsAt(b, steps, n) || ((exists i: nat :: ClearedSince(b, front, i)) && !OverwritesAt(b, steps, n))
  {
    var front, n := steps[..|steps| - 1], |steps| - 1;
    forall i: nat | i < n
      ensures ClearedSince(b, steps, i) <==> ClearedSince(b, front, i) && !OverwritesAt(b, steps, n)
    {
      ClearedSinceBefore(b, steps, i);
    }
    assert ClearedSince(b, steps, n) <==> ClearsAt(b, steps, n);
  }

  lemma ClearedSinceBefore(b: Books, steps: seq<Step>, i: nat)
    requires i < |steps| - 1
    ensures ClearedSince(b, steps, i)
            <==> ClearedSince(b, steps[..|steps| - 1], i) && !OverwritesAt(b, steps, |steps| - 1)
  {
    SameBefore(b, steps);
  }

  lemma SameBefore(b: Books, steps: seq<Step>)
    requires steps != []
    ensures var front := steps[..|steps| - 1];
            forall i: nat | i < |front| ::
              && ClearsAt(b, front, i) == ClearsAt(b, steps, i)
              && OverwritesAt(b, front, i) == OverwritesAt(b, steps, i)
  {
    var front := steps[..|steps| - 1];
    forall i: nat | i < |front|
      ensures ClearsAt(b, front, i) == ClearsAt(b, steps, i) && OverwritesAt(b, front, i) == OverwritesAt(b, steps, i)
    {
      assert front[..i] == steps[..i];
    }
  }

  // The payments in the index cover what the loan costs.
  ghost predicate Covered(index: E.Tables, loanId: string) {
    loanId in index.loans && E.TotalPaid(index.payments, loanId) >= E.Owed(index.loans[loanId])
  }

  lemma PersistKeepsCovered(t: E.Tables, e: E.Event, l: string)
    requires Covered(t, l) && (e.Repaid? ==> e.amount >= 0)
    ensures Covered(E.Persist(t, e), l)
  {
    E.LoanAfter(t, e, l);
  }

  // Over every run: a loan shown as paid has been paid in the index, whatever the
  // checker's balance says.
  lemma {:induction false} PaidIsCovered(b: Books, steps: seq<Step>)
    requires b.row.status != "paid" && E.PaidInFull(b.index)
    requires forall i | 0 <= i < |steps| && steps[i].Indexed? && steps[i].event.Repaid? :: steps[i].event.amount >= 0
    ensures Run(b, steps).row.loanId == b.row.loanId && E.PaidInFull(Run(b, steps).index)
    ensures Run(b, steps).row.status == "paid" ==> Covered(Run(b, steps).index, b.row.loanId)
  {
    if steps != [] {
      PaidIsCovered(b, steps[..|steps| - 1]);
      var before, step := Run(b, steps[..|steps| - 1]), steps[|steps| - 1];
      if step.Indexed? {
        E.PersistKeepsPaidInFull(before.index, step.event);
        if before.row.status == "paid" {
          PersistKeepsCovered(before.index, step.event, b.row.loanId);
        }
      }
    }
  }

  // An assessment that began while the loan was pending ends after its activation:
  // the loan is pending again, and no activation comes a second time.
  lemma AssessmentUndoesActivation(b: Books)
    requires b.row.status == "pending" && b.assessing == 0
    ensures Run(b, [AssessmentBegun, Activated]).row.status == "active"
    ensures Run(b, [AssessmentBegun, Activated, Assessed(Approved)]) == b
  {
    var steps := [AssessmentBegun, Activated, Assessed(Approved)];
    assert steps[..2] == [AssessmentBegun, Activated] && steps[..2][..1] == [AssessmentBegun];
    assert [AssessmentBegun][..0] == [];
    assert Run(b, [AssessmentBegun]) == b.(assessing := 1);
  }

  // A loan repaid in full, on chain and in the checker's balance: checker and job
  // never agree on it, and the next pass shows it as paid, not completed.
  lemma RepaidLoanIsRenamed(chain: seq<ChainLoan>, ds: seq<Decision>, t: LoanTable, id: RowId, b: Books,
                            amount: int)
    requires AllFit(t, chain, ds) && UniqueLoanIds(t) && UniqueChainIds(chain) && IndexOf(chain, b.index)
    requires id in t && !Provisional(t[id].loanId) && M.BalanceAfter(b.remaining, amount) == 0
    requires b.row.loanId in b.index.loans && t[id] == Repay(b, amount).row
    ensures t[id].status == COMPLETED
    ensures exists i :: 0 <= i < |chain| && chain[i].loanId == t[id].loanId && ds[i] == StaleStatus(id)
    ensures id in Pass(chain, ds, t)
    ensures Pass(chain, ds, t)[id].status == NameOf(b.index.loans[b.row.loanId].status) != COMPLETED
  {
    PassWritesIndexStatus(b.index, chain, ds, t, id);
    var i :| 0 <= i < |chain| && chain[i].loanId == t[id].loanId;
    StatusIsDecided(t, chain[i], ds[i]);
  }
}
