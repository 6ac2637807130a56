// Following the offered payments of a loan through the status checker: each offer
// becomes a transaction, and only what the checker makes of its contract call
// reaches the balance.
module LoanRepayments {
  import opened Common
  import opened LoanMoney
  import C = StatusChecker

  const REPAY_LOAN := "repay_loan"
  const REPAY_INSTALMENT := "repay_installment"

  // The checker's database and the payment rows stored for the loan.
  datatype Account = Account(db: C.Db, recorded: nat)

  // The loan as the loan list shows it.
  function View(a: Account, key: C.LoanKey, total: nat, term: nat): Loan
    requires key in a.db.loans
  {
    var row := a.db.loans[key];
    var status := match row.state
                  case InRepayment => Active
                  case Repaid => Completed
                  case _ => OtherStatus;
    Loan(status, row.remaining, total, term, a.recorded)
  }

  // The transaction that pays an amount by a call of that name.
  function Payment(key: C.LoanKey, name: string, amount: int, hash: string): C.PendingTx {
    C.PendingTx(hash, key.wallet, C.LoanRepay,
                Some(C.Invocation(name, [C.Text(key.wallet), C.Text(key.loanId), C.Number(amount)])))
  }

  // The offer is paid by a call of that name, recorded as pending and confirmed by
  // the checker.  `record` supposes a payment row for every applied payment.
  function Pay(a: Account, key: C.LoanKey, total: nat, term: nat, name: string, hash: string, record: bool): Account
    requires key in a.db.loans
  {
    match OfferedPayment(View(a, key, total, term))
    case None => a
    case Some(amount) =>
      var pending := a.db.(statuses := a.db.statuses[hash := C.Pending]);
      Account(C.Check(pending, Payment(key, name, amount, hash), C.Confirmed(true)),
              a.recorded + if record && name == REPAY_LOAN then 1 else 0)
  }

  lemma OnePayment(a: Account, key: C.LoanKey, total: nat, term: nat, name: string, hash: string, record: bool)
    requires key in a.db.loans && key.loanId != ""
    ensures var after := Pay(a, key, total, term, name, hash, record);
            && key in after.db.loans
            && (name == REPAY_LOAN ==> View(after, key, total, term) == PayOffered(View(a, key, total, term), record))
            && (name != REPAY_LOAN ==> View(after, key, total, term) == View(a, key, total, term))
  {
    var offer := OfferedPayment(View(a, key, total, term));
    if offer.Some? {
      var tx := Payment(key, name, offer.value, hash);
      C.RepaymentCountsExactlyWhen(a.db.(statuses := a.db.statuses[hash := C.Pending]), tx, key);
      assert C.CallsRepayLoan(tx, key) <==> name == REPAY_LOAN;
    }
  }

  // The account after the first `k` offers, each paid by its own call.
  function AfterOffers(a: Account, key: C.LoanKey, total: nat, term: nat, names: seq<string>, hashes: seq<string>,
                       record: bool, k: nat): (after: Account)
    requires key in a.db.loans && key.loanId != "" && k <= |names| && k <= |hashes|
    ensures key in after.db.loans
  {
    if k == 0 then a
    else
      var before := AfterOffers(a, key, total, term, names, hashes, record, k - 1);
      OnePayment(before, key, total, term, names[k - 1], hashes[k - 1], record);
      Pay(before, key, total, term, names[k - 1], hashes[k - 1], record)
  }

  // How many of the first `k` calls the checker applies.
  function Applied(names: seq<string>, k: nat): (m: nat)
    requires k <= |names|
    ensures m <= k
  {
    if k == 0 then 0 else Applied(names, k - 1) + if names[k - 1] == REPAY_LOAN then 1 else 0
  }

  lemma {:induction false} AppliedAll(names: seq<string>, k: nat)
    requires k <= |names|
    ensures Applied(names, k) == k <==> forall i | 0 <= i < k :: names[i] == REPAY_LOAN
  {
    if k > 0 {
      AppliedAll(names, k - 1);
    }
  }

  // A new loan, in repayment and with no payment row.
  ghost predicate Opens(a: Account, key: C.LoanKey, total: int) {
    && key in a.db.loans && key.loanId != "" && a.recorded == 0
    && a.db.loans[key] == C.LoanRow(total * CENT, C.InRepayment)
  }

  // Through the checker, following offers is following as many of them as it
  // applies.
  lemma {:induction false} OffersRefinePayments(a: Account, key: C.LoanKey, total: nat, term: nat, names: seq<string>,
                                                hashes: seq<string>, record: bool, k: nat)
    requires Opens(a, key, total) && k <= |names| && k <= |hashes|
    ensures View(AfterOffers(a, key, total, term, names, hashes, record, k), key, total, term)
            == AfterPayments(total, term, record, Applied(names, k))
  {
    if k > 0 {
      OffersRefinePayments(a, key, total, term, names, hashes, record, k - 1);
      OnePayment(AfterOffers(a, key, total, term, names, hashes, record, k - 1), key, total, term,
                 names[k - 1], hashes[k - 1], record);
    }
  }

  // Payments that the backend builds: whatever their number, the whole total stays
  // owed and the loan is never completed.
  lemma BuiltPaymentsClearNothing(a: Account, key: C.LoanKey, total: nat, term: nat, names: seq<string>,
                                  hashes: seq<string>, record: bool, k: nat)
    requires Opens(a, key, total) && k <= |names| && k <= |hashes|
    requires forall i | 0 <= i < k :: names[i] == REPAY_INSTALMENT
    ensures AfterOffers(a, key, total, term, names, hashes, record, k).db.loans[key]
            == C.LoanRow(total * CENT, C.InRepayment)
  {
    OffersRefinePayments(a, key, total, term, names, hashes, record, k);
    NoneApplied(names, k);
  }

  lemma {:induction false} NoneApplied(names: seq<string>, k: nat)
    requires k <= |names| && forall i | 0 <= i < k :: names[i] == REPAY_INSTALMENT
    ensures Applied(names, k) == 0
  {
    if k > 0 {
      NoneApplied(names, k - 1);
    }
  }

  // When `m` applied payments complete the loan within its term.
  lemma CompletedExactlyWhen(total: nat, term: nat, record: bool, m: nat)
    requires 0 < term <= total && m <= term
    ensures AfterPayments(total, term, record, m).status == Completed
            <==> m == term && (record || total % term == 0)
  {
    if record {
      RecordedPaymentsClear(total, term, m);
    } else if m == term {
      UnrecordedPaymentsClearExactlyWhen(total, term);
    } else {
      UnrecordedBalance(total, term, m);
      EarlyPaymentsLeaveSome(total, term, m);
    }
  }

  // Every offer made within the term passes the repayment checks, whatever the
  // calls before it.
  lemma OffersAreAccepted(a: Account, key: C.LoanKey, total: nat, term: nat, names: seq<string>, hashes: seq<string>,
                          record: bool, k: nat)
    requires Opens(a, key, total) && 0 < term <= total && k < term <= |names| && term <= |hashes|
    ensures var loan := View(AfterOffers(a, key, total, term, names, hashes, record, k), key, total, term);
            OfferedPayment(loan).Some? && CheckRepayment(loan, OfferedPayment(loan).value) == Accepted
  {
    OffersRefinePayments(a, key, total, term, names, hashes, record, k);
    if record {
      RecordedOfferAccepted(total, term, Applied(names, k));
    } else {
      UnrecordedOfferAccepted(total, term, Applied(names, k));
    }
  }

  // Whoever follows the offers of a quoted loan for its whole term has them all
  // accepted, and the loan is cleared exactly when every payment was a
  // `repay_loan` call and either the term divides the total or, as no code does,
  // a payment row was stored each time.
  lemma QuotedLoanClearsExactlyWhen(amount: real, interestRate: real, a: Account, key: C.LoanKey, term: nat,
                                    names: seq<string>, hashes: seq<string>, record: bool)
    requires amount >= 1.0 && interestRate >= 0.0 && 1 <= term <= 12 && term <= |names| && term <= |hashes|
    requires Opens(a, key, MakeQuote(amount, interestRate, term).totalRepayment)
    ensures var total := MakeQuote(amount, interestRate, term).totalRepayment;
            && total >= term
            && (forall k | 0 <= k < term ::
                  var loan := View(AfterOffers(a, key, total, term, names, hashes, record, k), key, total, term);
                  OfferedPayment(loan).Some? && CheckRepayment(loan, OfferedPayment(loan).value) == Accepted)
            && (AfterOffers(a, key, total, term, names, hashes, record, term).db.loans[key].state == C.Repaid
                <==> (forall i | 0 <= i < term :: names[i] == REPAY_LOAN) && (record || total % term == 0))
  {
    var total := MakeQuote(amount, interestRate, term).totalRepayment;
    QuoteCoversTerm(amount, interestRate, term);
    forall k | 0 <= k < term
      ensures var loan := View(AfterOffers(a, key, total, term, names, hashes, record, k), key, total, term);
              OfferedPayment(loan).Some? && CheckRepayment(loan, OfferedPayment(loan).value) == Accepted
    {
      OffersAreAccepted(a, key, total, term, names, hashes, record, k);
    }
    OffersRefinePayments(a, key, total, term, names, hashes, record, term);
    AppliedAll(names, term);
    CompletedExactlyWhen(total, term, record, Applied(names, term));
  }

  // A price of 100.00 over four months without interest: four months divide the
  // total, and four payments as the backend builds them leave all of it owed.
  lemma BuiltPaymentsOfEvenQuote(a: Account, key: C.LoanKey, hashes: seq<string>)
    requires Opens(a, key, 8000) && |hashes| == 4
    ensures MakeQuote(100.0, 0.0, 4).totalRepayment == 8000 && 8000 % 4 == 0
    ensures var names := seq(4, _ => REPAY_INSTALMENT);
            AfterOffers(a, key, 8000, 4, names, hashes, false, 4).db.loans[key] == C.LoanRow(8000 * CENT, C.InRepayment)
  {
    assert MakeQuote(100.0, 0.0, 4) == Quote(2000, 8000, 8000);
    BuiltPaymentsClearNothing(a, key, 8000, 4, seq(4, _ => REPAY_INSTALMENT), hashes, false, 4);
  }
}
