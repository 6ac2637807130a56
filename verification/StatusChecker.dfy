// The transaction status checker: one cycle of one worker over the pending
// transactions, with the follow-up on the loan each of them belongs to.
module StatusChecker {
  import opened Common
  import opened LoanMoney

  datatype TxStatus = Pending | Success | Failed

  datatype TxType = LoanCreate | LoanRepay | OtherType

  // An argument of a contract call in native form: a string or an address, a
  // number, or anything else.  Amounts are in stroops.
  datatype Arg = Text(text: string) | Number(value: int) | OtherArg

  // The contract call inside the XDR.
  datatype Invocation = Invocation(name: string, args: seq<Arg>)

  // `invocation` is absent when there is no XDR, when it does not parse or when
  // its first operation is no contract call.
  datatype PendingTx = PendingTx(hash: string, wallet: string, kind: TxType, invocation: Option<Invocation>)

  // An empty loan id stands for an absent one.
  datatype Metadata = Metadata(loanId: string, amount: Option<int>)

  // What Horizon says in the end: the transaction with its verdict, that it is
  // not known, or an error that the retries did not get over.
  datatype Answer = Confirmed(successful: bool) | NotFound | Error

  datatype LoanState = AwaitingActivation | InRepayment | Repaid | OtherState

  datatype LoanRow = LoanRow(remaining: int, state: LoanState)

  datatype LoanKey = LoanKey(loanId: string, wallet: string)

  datatype Notification = Notification(wallet: string, hash: string, successful: bool)

  // ------------------------------------------------------------------
  // What a call says
  // ------------------------------------------------------------------

  function LoanIdAt(args: seq<Arg>, i: nat): string {
    if i < |args| && args[i].Text? then args[i].text else ""
  }

  function AmountAt(args: seq<Arg>, i: nat): Option<int> {
    if i < |args| && args[i].Number? then Some(args[i].value) else None
  }

  function ParseMetadata(invocation: Option<Invocation>): Option<Metadata> {
    match invocation
    case None => None
    case Some(call) =>
      if call.name == "create_loan" then Some(Metadata(LoanIdAt(call.args, 0), None))
      else if call.name == "repay_loan" then Some(Metadata(LoanIdAt(call.args, 1), AmountAt(call.args, 2)))
      else None
  }

  function MetadataOf(tx: PendingTx): Option<Metadata> {
    ParseMetadata(tx.invocation)
  }

  // ------------------------------------------------------------------
  // One transaction
  // ------------------------------------------------------------------

  datatype Db = Db(statuses: map<string, TxStatus>, loans: map<LoanKey, LoanRow>, notifications: seq<Notification>)

  function Repay(loan: LoanRow, amount: int): LoanRow {
    var balance := BalanceAfter(loan.remaining, amount);
    LoanRow(balance, if balance == 0 then Repaid else loan.state)
  }

  function FollowUp(loans: map<LoanKey, LoanRow>, tx: PendingTx): map<LoanKey, LoanRow> {
    match MetadataOf(tx)
    case None => loans
    case Some(metadata) =>
      var key := LoanKey(metadata.loanId, tx.wallet);
      if metadata.loanId == "" || key !in loans then loans
      else if tx.kind == LoanCreate then
        if loans[key].state == AwaitingActivation then loans[key := loans[key].(state := InRepayment)] else loans
      else if tx.kind == LoanRepay && metadata.amount.Some? then
        loans[key := Repay(loans[key], metadata.amount.value)]
      else loans
  }

  // The update guarded by `status = 'pending'`, then the follow-up.
  function Finalize(db: Db, tx: PendingTx, successful: bool): Db {
    if tx.hash !in db.statuses || db.statuses[tx.hash] != Pending then db
    else
      Db(db.statuses[tx.hash := if successful then Success else Failed],
         if successful then FollowUp(db.loans, tx) else db.loans,
         db.notifications + [Notification(tx.wallet, tx.hash, successful)])
  }

  function Check(db: Db, tx: PendingTx, answer: Answer): Db {
    match answer
    case Confirmed(successful) => Finalize(db, tx, successful)
    case _ => db
  }

  function Cycle(db: Db, pending: seq<PendingTx>, answers: map<string, Answer>, n: nat): Db
    requires n <= |pending| && forall i | 0 <= i < |pending| :: pending[i].hash in answers
  {
    if n == 0 then db
    else Check(Cycle(db, pending, answers, n - 1), pending[n - 1], answers[pending[n - 1].hash])
  }

  // ------------------------------------------------------------------
  // What a cycle means
  // ------------------------------------------------------------------

  ghost predicate Answered(pending: seq<PendingTx>, answers: map<string, Answer>) {
    forall i | 0 <= i < |pending| :: pending[i].hash in answers
  }

  // The snapshot: pending rows with distinct hashes.
  ghost predicate SnapshotOf(db: Db, pending: seq<PendingTx>) {
    && (forall i | 0 <= i < |pending| :: pending[i].hash in db.statuses && db.statuses[pending[i].hash] == Pending)
    && (forall i, j | 0 <= i < j < |pending| :: pending[i].hash != pending[j].hash)
  }

  // A hash is finalised by its own turn and by no other.
  lemma {:induction false} CycleStatuses(db: Db, pending: seq<PendingTx>, answers: map<string, Answer>, n: nat,
                                         h: string)
    requires n <= |pending| && forall i | 0 <= i < |pending| :: pending[i].hash in answers
    requires SnapshotOf(db, pending) && h in db.statuses
    ensures h in Cycle(db, pending, answers, n).statuses
    ensures Cycle(db, pending, answers, n).statuses[h] ==
            if (exists i :: 0 <= i < n && pending[i].hash == h) && answers[h].Confirmed?
            then if answers[h].successful then Success else Failed
            else db.statuses[h]
  {
    if n > 0 {
      CycleStatuses(db, pending, answers, n - 1, h);
    }
  }

  // A row that something else has finalised since it was fetched, or that is gone, is
  // left alone: nothing is followed up and nobody is notified.
  lemma {:induction false} FinalizedRowsChangeNothing(db: Db, pending: seq<PendingTx>, answers: map<string, Answer>,
                                                      n: nat)
    requires n <= |pending| && forall i | 0 <= i < |pending| :: pending[i].hash in answers
    requires forall i | 0 <= i < n :: pending[i].hash in db.statuses ==> db.statuses[pending[i].hash] != Pending
    ensures Cycle(db, pending, answers, n) == db
  {
    if n > 0 {
      FinalizedRowsChangeNothing(db, pending, answers, n - 1);
    }
  }

  function SumBy<T>(xs: seq<T>, f: T -> int): int {
    if xs == [] then 0 else SumBy(xs[..|xs| - 1], f) + f(xs[|xs| - 1])
  }

  // The call is a repayment of the loan that the checker understands.
  predicate RepaysLoan(tx: PendingTx, key: LoanKey) {
    && tx.kind == LoanRepay && MetadataOf(tx).Some?
    && MetadataOf(tx).value.loanId != "" && MetadataOf(tx).value.amount.Some?
    && LoanKey(MetadataOf(tx).value.loanId, tx.wallet) == key
  }

  // What a pending transaction takes off the balance of a loan.
  function Repays(tx: PendingTx, answers: map<string, Answer>, key: LoanKey): int {
    if tx.hash in answers && answers[tx.hash] == Confirmed(true) && RepaysLoan(tx, key)
    then MetadataOf(tx).value.amount.value else 0
  }

  function RepaysOn(answers: map<string, Answer>, key: LoanKey): PendingTx -> int {
    tx => Repays(tx, answers, key)
  }

  ghost predicate WholeCentAmount(tx: PendingTx) {
    var metadata := MetadataOf(tx);
    metadata.Some? && metadata.value.amount.Some? ==>
      metadata.value.amount.value >= 0 && metadata.value.amount.value % CENT == 0
  }

  ghost predicate WholeCentRepayments(pending: seq<PendingTx>) {
    forall i | 0 <= i < |pending| :: WholeCentAmount(pending[i])
  }

  // One transaction changes the balance of a loan by its own repayment only.
  lemma CheckBalance(db: Db, tx: PendingTx, answers: map<string, Answer>, key: LoanKey)
    requires tx.hash in answers && tx.hash in db.statuses && db.statuses[tx.hash] == Pending && key in db.loans
    requires db.loans[key].remaining >= 0 && db.loans[key].remaining % CENT == 0
    requires Repays(tx, answers, key) >= 0 && Repays(tx, answers, key) % CENT == 0
    ensures var after := Check(db, tx, answers[tx.hash]);
            && key in after.loans
            && after.loans[key].remaining == Max(0, db.loans[key].remaining - Repays(tx, answers, key))
            && after.loans[key].remaining % CENT == 0
  {
    WholeCentStep(db.loans[key].remaining, Repays(tx, answers, key));
  }

  // After a cycle in whole cents, the balance of a loan is what it was less all
  // repayments that were confirmed, and never below zero.
  lemma {:induction false} CycleBalance(db: Db, pending: seq<PendingTx>, answers: map<string, Answer>, n: nat,
                                        key: LoanKey)
    requires n <= |pending| && forall i | 0 <= i < |pending| :: pending[i].hash in answers
    requires SnapshotOf(db, pending) && WholeCentRepayments(pending) && key in db.loans
    requires db.loans[key].remaining >= 0 && db.loans[key].remaining % CENT == 0
    ensures var after := Cycle(db, pending, answers, n);
            && key in after.loans && after.loans[key].remaining % CENT == 0
            && after.loans[key].remaining
               == Max(0, db.loans[key].remaining - SumBy(pending[..n], RepaysOn(answers, key)))
    ensures SumBy(pending[..n], RepaysOn(answers, key)) >= 0
  {
    if n > 0 {
      CycleBalance(db, pending, answers, n - 1, key);
      CycleStatuses(db, pending, answers, n - 1, pending[n - 1].hash);
      CheckBalance(Cycle(db, pending, answers, n - 1), pending[n - 1], answers, key);
      assert pending[..n][..n - 1] == pending[..n - 1];
    }
  }

  lemma {:induction false} SumByWithout<T>(xs: seq<T>, f: T -> int, k: nat)
    requires k < |xs|
    ensures SumBy(xs, f) == SumBy(xs[..k] + xs[k + 1..], f) + f(xs[k])
  {
    var last := |xs| - 1;
    if k == last {
      assert xs[..k] + xs[k + 1..] == xs[..last];
    } else {
      SumByWithout(xs[..last], f, k);
      var without := xs[..k] + xs[k + 1..];
      assert without[..|without| - 1] == xs[..last][..k] + xs[..last][k + 1..];
    }
  }

  lemma RemoveOccurrence<T>(xs: seq<T>, k: nat)
    requires k < |xs|
    ensures multiset(xs[..k] + xs[k + 1..]) == multiset(xs) - multiset{xs[k]}
  {
    assert xs == xs[..k] + [xs[k]] + xs[k + 1..];
  }

  lemma {:induction false} SumByIsOrderFree<T>(a: seq<T>, b: seq<T>, f: T -> int)
    requires multiset(a) == multiset(b)
    ensures SumBy(a, f) == SumBy(b, f)
    decreases |a|
  {
    if a == [] {
      assert |multiset(b)| == 0;
    } else {
      var last := |a| - 1;
      assert a[last] in multiset(b);
      var k :| 0 <= k < |b| && b[k] == a[last];
      SumByWithout(b, f, k);
      RemoveOccurrence(b, k);
      RemoveOccurrence(a, last);
      assert a[..last] + a[last + 1..] == a[..last];
      SumByIsOrderFree(a[..last], b[..k] + b[k + 1..], f);
    }
  }

  lemma WholeCycleBalance(db: Db, pending: seq<PendingTx>, answers: map<string, Answer>, key: LoanKey)
    requires forall i | 0 <= i < |pending| :: pending[i].hash in answers
    requires SnapshotOf(db, pending) && WholeCentRepayments(pending) && key in db.loans
    requires db.loans[key].remaining >= 0 && db.loans[key].remaining % CENT == 0
    ensures var after := Cycle(db, pending, answers, |pending|);
            key in after.loans && after.loans[key].remaining
                                  == Max(0, db.loans[key].remaining - SumBy(pending, RepaysOn(answers, key)))
  {
    assert pending[..|pending|] == pending;
    CycleBalance(db, pending, answers, |pending|, key);
  }

  ghost predicate InCents(loans: map<LoanKey, LoanRow>, key: LoanKey) {
    key in loans && loans[key].remaining >= 0 && loans[key].remaining % CENT == 0
  }

  ghost function EndBalance(db: Db, pending: seq<PendingTx>, answers: map<string, Answer>, key: LoanKey): (balance: int)
    requires Answered(pending, answers) && SnapshotOf(db, pending)
    requires WholeCentRepayments(pending) && InCents(db.loans, key)
    ensures balance == Max(0, db.loans[key].remaining - SumBy(pending, RepaysOn(answers, key)))
  {
    WholeCycleBalance(db, pending, answers, key);
    Cycle(db, pending, answers, |pending|).loans[key].remaining
  }

  // The balances do not depend on the order in which the cycle takes the rows.
  lemma CycleIsOrderFree(db: Db, pending: seq<PendingTx>, other: seq<PendingTx>, answers: map<string, Answer>,
                         key: LoanKey)
    requires Answered(pending, answers) && SnapshotOf(db, pending)
    requires WholeCentRepayments(pending) && InCents(db.loans, key)
    requires Answered(other, answers) && SnapshotOf(db, other) && WholeCentRepayments(other)
    requires multiset(pending) == multiset(other)
    ensures EndBalance(db, pending, answers, key) == EndBalance(db, other, answers, key)
  {
    SumByIsOrderFree(pending, other, RepaysOn(answers, key));
  }

  // ------------------------------------------------------------------
  // Which repayments count
  // ------------------------------------------------------------------

  ghost predicate CallsRepayLoan(tx: PendingTx, key: LoanKey) {
    && tx.invocation.Some? && tx.invocation.value.name == "repay_loan" && key.wallet == tx.wallet
    && var args := tx.invocation.value.args;
       |args| > 2 && args[1] == Text(key.loanId) && args[2].Number?
  }

  // A confirmed repayment changes a loan exactly when it calls `repay_loan` with
  // that loan's id and a number; a positive whole-cent amount then lowers it.
  lemma RepaymentCountsExactlyWhen(db: Db, tx: PendingTx, key: LoanKey)
    requires tx.kind == LoanRepay && tx.hash in db.statuses && db.statuses[tx.hash] == Pending
    requires key in db.loans && key.loanId != ""
    ensures var before, after := db.loans[key], Check(db, tx, Confirmed(true)).loans;
            && key in after
            && after[key]
               == (if CallsRepayLoan(tx, key) then Repay(before, tx.invocation.value.args[2].value) else before)
            && (WholeCentAmount(tx) && before.remaining > 0 && before.remaining % CENT == 0
                && (CallsRepayLoan(tx, key) ==> tx.invocation.value.args[2].value > 0) ==>
                  (after[key].remaining < before.remaining <==> CallsRepayLoan(tx, key)))
  {
    assert CallsRepayLoan(tx, key) <==> RepaysLoan(tx, key);
    if CallsRepayLoan(tx, key) && WholeCentAmount(tx) && db.loans[key].remaining % CENT == 0 {
      WholeCentStep(db.loans[key].remaining, tx.invocation.value.args[2].value);
    }
  }

  // ------------------------------------------------------------------
  // What becomes of the loans
  // ------------------------------------------------------------------

  // The call names the loan: `create_loan` as its first argument.  A row that was
  // submitted as a creation is not asked for the name of its call, so `repay_loan`
  // would do as well, with the loan as its second argument; the allowlist of the
  // submission does not let such a row come about.
  ghost predicate NamesLoan(tx: PendingTx, key: LoanKey) {
    && tx.invocation.Some? && key.wallet == tx.wallet && key.loanId != ""
    && var args := tx.invocation.value.args;
       || (tx.invocation.value.name == "create_loan" && |args| > 0 && args[0] == Text(key.loanId))
       || (tx.invocation.value.name == "repay_loan" && |args| > 1 && args[1] == Text(key.loanId))
  }

  // The turn is a confirmed creation of the loan.
  ghost predicate Activates(tx: PendingTx, answers: map<string, Answer>, key: LoanKey) {
    tx.hash in answers && answers[tx.hash] == Confirmed(true) && tx.kind == LoanCreate && NamesLoan(tx, key)
  }

  // The turn is a confirmed repayment that counts and leaves nothing owed.
  ghost predicate Clears(db: Db, pending: seq<PendingTx>, answers: map<string, Answer>, i: nat, key: LoanKey)
    requires i < |pending| && forall j | 0 <= j < |pending| :: pending[j].hash in answers
  {
    && answers[pending[i].hash] == Confirmed(true) && pending[i].kind == LoanRepay && key.loanId != ""
    && CallsRepayLoan(pending[i], key)
    && key in Cycle(db, pending, answers, i + 1).loans && Cycle(db, pending, answers, i + 1).loans[key].remaining == 0
  }

  // What one turn makes of a loan's state.
  lemma TurnOnState(db: Db, tx: PendingTx, answers: map<string, Answer>, key: LoanKey)
    requires tx.hash in answers && tx.hash in db.statuses && db.statuses[tx.hash] == Pending && key in db.loans
    ensures var after := Check(db, tx, answers[tx.hash]).loans;
            && key in after
            && after[key].state
               == if answers[tx.hash] == Confirmed(true) && tx.kind == LoanRepay && key.loanId != ""
                     && CallsRepayLoan(tx, key) && after[key].remaining == 0 then Repaid
                  else if Activates(tx, answers, key) && db.loans[key].state == AwaitingActivation then InRepayment
                  else db.loans[key].state
  {
    assert tx.kind == LoanRepay && key.loanId != "" ==> (CallsRepayLoan(tx, key) <==> RepaysLoan(tx, key));
    assert NamesLoan(tx, key) <==>
        && MetadataOf(tx).Some? && MetadataOf(tx).value.loanId != ""
        && LoanKey(MetadataOf(tx).value.loanId, tx.wallet) == key;
  }

  // Over a whole cycle: a loan is repaid when some turn cleared it; else one that
  // awaited activation is in repayment exactly when some turn confirmed its creation;
  // else its state is what it was.
  lemma {:induction false} CycleState(db: Db, pending: seq<PendingTx>, answers: map<string, Answer>, n: nat,
                                      key: LoanKey)
    requires n <= |pending| && Answered(pending, answers) && SnapshotOf(db, pending) && key in db.loans
    ensures key in Cycle(db, pending, answers, n).loans
    ensures Cycle(db, pending, answers, n).loans[key].state
            == if exists i: nat :: i < n && Clears(db, pending, answers, i, key) then Repaid
               else if db.loans[key].state == AwaitingActivation
                       && (exists i :: 0 <= i < n && Activates(pending[i], answers, key)) then InRepayment
               else db.loans[key].state
  {
    if n > 0 {
      CycleState(db, pending, answers, n - 1, key);
      var before, tx := Cycle(db, pending, answers, n - 1), pending[n - 1];
      CycleStatuses(db, pending, answers, n - 1, tx.hash);
      TurnOnState(before, tx, answers, key);
      assert Clears(db, pending, answers, n - 1, key)
        <==> && answers[tx.hash] == Confirmed(true) && tx.kind == LoanRepay && key.loanId != ""
             && CallsRepayLoan(tx, key) && Cycle(db, pending, answers, n).loans[key].remaining == 0;
    }
  }

  // In particular a loan stops awaiting its activation exactly when a fetched
  // creation of it was confirmed or a repayment cleared it.
  lemma StopsAwaitingExactlyWhen(db: Db, pending: seq<PendingTx>, answers: map<string, Answer>, key: LoanKey)
    requires Answered(pending, answers) && SnapshotOf(db, pending)
    requires key in db.loans && db.loans[key].state == AwaitingActivation
    ensures var after := Cycle(db, pending, answers, |pending|).loans;
            && key in after
            && (after[key].state != AwaitingActivation
                <==> || (exists i :: 0 <= i < |pending| && Activates(pending[i], answers, key))
                     || (exists i: nat :: i < |pending| && Clears(db, pending, answers, i, key)))
  {
    CycleState(db, pending, answers, |pending|, key);
  }

  // The notifications a cycle adds: one per confirmed hash, in the order of the rows,
  // each with the wallet of the row and the verdict on it.
  lemma {:induction false} CycleNotifies(db: Db, pending: seq<PendingTx>, answers: map<string, Answer>, n: nat)
    returns (turns: seq<nat>)
    requires n <= |pending| && Answered(pending, answers) && SnapshotOf(db, pending)
    ensures var after := Cycle(db, pending, answers, n).notifications;
            && |after| == |db.notifications| + |turns| && after[..|db.notifications|] == db.notifications
            && (forall i, j | 0 <= i < j < |turns| :: turns[i] < turns[j])
            && (forall i: nat :: i in turns <==> i < n && answers[pending[i].hash].Confirmed?)
            && (forall j | 0 <= j < |turns| ::
                  && turns[j] < |pending|
                  && after[|db.notifications| + j].wallet == pending[turns[j]].wallet
                  && after[|db.notifications| + j].hash == pending[turns[j]].hash
                  && after[|db.notifications| + j].successful == answers[pending[turns[j]].hash].successful)
  {
    turns := [];
    if n > 0 {
      turns := CycleNotifies(db, pending, answers, n - 1);
      CycleStatuses(db, pending, answers, n - 1, pending[n - 1].hash);
      forall i | 0 <= i < |turns| ensures turns[i] < n - 1 {
        assert turns[i] in turns;
      }
      if answers[pending[n - 1].hash].Confirmed? {
        turns := turns + [n - 1];
      }
    }
  }

  // Every repayment among the pending transactions is one the backend built.
  ghost predicate BuiltByBackend(pending: seq<PendingTx>) {
    forall i | 0 <= i < |pending| && pending[i].kind == LoanRepay ::
      exists wallet, loanId, amount ::
        pending[i].invocation == Some(Invocation("repay_installment", [Text(wallet), Text(loanId), Number(amount)]))
  }

  // Then no cycle changes any balance: the call is confirmed and notified, but
  // the checker does not know its name.
  lemma {:induction false} BuiltRepaymentsChangeNoBalance(db: Db, pending: seq<PendingTx>, answers: map<string, Answer>,
                                                          n: nat, key: LoanKey)
    requires n <= |pending| && Answered(pending, answers) && BuiltByBackend(pending) && key in db.loans
    ensures var after := Cycle(db, pending, answers, n);
            key in after.loans && after.loans[key].remaining == db.loans[key].remaining
  {
    if n > 0 {
      BuiltRepaymentsChangeNoBalance(db, pending, answers, n - 1, key);
      var before, tx := Cycle(db, pending, answers, n - 1), pending[n - 1];
      if tx.kind == LoanRepay {
        assert MetadataOf(tx).None?;
      }
    }
  }

  // ------------------------------------------------------------------
  // The service
  // ------------------------------------------------------------------

  class TransactionStatusChecker {
    var statuses: map<string, TxStatus>
    var loans: map<LoanKey, LoanRow>
    var notifications: seq<Notification>
    var isRunning: bool

    constructor (statuses: map<string, TxStatus>, loans: map<LoanKey, LoanRow>)
      ensures State() == Db(statuses, loans, []) && !isRunning
    {
      this.statuses, this.loans, notifications, isRunning := statuses, loans, [], false;
    }

    ghost function State(): Db
      reads this
    {
      Db(statuses, loans, notifications)
    }

    method ActivatePendingLoan(key: LoanKey)
      modifies this`loans
      ensures loans == if key in old(loans) && old(loans)[key].state == AwaitingActivation
                       then old(loans)[key := old(loans)[key].(state := InRepayment)] else old(loans)
    {
      if key in loans && loans[key].state == AwaitingActivation {
        loans := loans[key := loans[key].(state := InRepayment)];
      }
    }

    method ApplyLoanRepayment(key: LoanKey, amount: int)
      modifies this`loans
      ensures loans == if key in old(loans) then old(loans)[key := Repay(old(loans)[key], amount)] else old(loans)
    {
      if key in loans {
        var updated := BalanceAfter(loans[key].remaining, amount);
        var state := if updated == 0 then Repaid else loans[key].state;
        loans := loans[key := LoanRow(updated, state)];
      }
    }

    method FinalizeTransaction(tx: PendingTx, successful: bool)
      modifies this`statuses, this`loans, this`notifications
      ensures State() == Finalize(old(State()), tx, successful)
    {
      if tx.hash !in statuses || statuses[tx.hash] != Pending {
        return;
      }
      statuses := statuses[tx.hash := if successful then Success else Failed];
      var metadata := ParseMetadata(tx.invocation);
      if successful && metadata.Some? && metadata.value.loanId != "" {
        var key := LoanKey(metadata.value.loanId, tx.wallet);
        if tx.kind == LoanCreate {
          ActivatePendingLoan(key);
        } else if tx.kind == LoanRepay && metadata.value.amount.Some? {
          ApplyLoanRepayment(key, metadata.value.amount.value);
        }
      }
      notifications := notifications + [Notification(tx.wallet, tx.hash, successful)];
    }

    // One scheduled cycle over the rows that were fetched; a cycle that finds
    // another one running does nothing.
    method CheckTransactions(pending: seq<PendingTx>, answers: map<string, Answer>)
      requires forall i | 0 <= i < |pending| :: pending[i].hash in answers
      modifies this
      ensures isRunning == old(isRunning)
      ensures State() == if old(isRunning) then old(State()) else Cycle(old(State()), pending, answers, |pending|)
    {
      if isRunning {
        return;
      }
      isRunning := true;
      for i := 0 to |pending|
        invariant isRunning && State() == Cycle(old(State()), pending, answers, i)
      {
        var answer := answers[pending[i].hash];
        if answer.Confirmed? {
          FinalizeTransaction(pending[i], answer.successful);
        }
      }
      isRunning := false;
    }
  }
}
