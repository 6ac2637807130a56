// The money path of a loan: quote, schedule, offered next payment, repayment
// preview and the balance update of the status checker.
//
// Schedules are in whole cents, balances and repayments in stroops (1e-7).
module LoanMoney {
  import opened Common

  const CENT := 100_000           // stroops
  const HALF_CENT := 50_000
  const MIN_PAYMENT := CENT       // the request DTO asks for at least 0.01

  // `Math.round` rounds halves up.
  function RoundHalfUp(x: real): int {
    (x + 0.5).Floor
  }

  // `Math.round(x * 100) / 100` on an amount of stroops, in cents.
  function RoundToCents(stroops: int): int {
    (stroops + HALF_CENT) / CENT
  }

  // ------------------------------------------------------------------
  // The quote
  // ------------------------------------------------------------------

  datatype Quote = Quote(guarantee: int, loanAmount: int, totalRepayment: int)

  function MakeQuote(amount: real, interestRate: real, term: nat): Quote {
    var guarantee := RoundHalfUp(amount * 0.2 * 100.0);
    var loanAmount := RoundHalfUp(amount * 0.8 * 100.0);
    var interest := loanAmount as real * (interestRate / 100.0) * (term as real / 12.0);
    Quote(guarantee, loanAmount, RoundHalfUp(loanAmount as real + interest))
  }

  // For a price in whole cents the guarantee and the loan add up to the price.
  lemma QuoteSplitsPrice(cents: int, interestRate: real, term: nat)
    ensures var q := MakeQuote(cents as real / 100.0, interestRate, term);
            q.guarantee + q.loanAmount == cents
  {
    var price := cents as real / 100.0;
    var q, r := cents / 5, cents % 5;
    assert cents == 5 * q + r;
    assert price * 0.2 * 100.0 == q as real + r as real * 0.2;
    assert price * 0.8 * 100.0 == 4.0 * q as real + r as real * 0.8;
    FloorOf(price * 0.2 * 100.0 + 0.5, q + if r < 3 then 0 else 1);
    FloorOf(price * 0.8 * 100.0 + 0.5, cents - q - if r < 3 then 0 else 1);
  }

  lemma FloorOf(x: real, n: int)
    requires n as real <= x < n as real + 1.0
    ensures x.Floor == n
  {}

  // Every part of a quote is the nearest cent to what it stands for: a fifth and
  // four fifths of the price, and the loan with its simple yearly interest.
  lemma QuoteIsNearest(amount: real, interestRate: real, term: nat)
    ensures var q := MakeQuote(amount, interestRate, term);
            var loan := q.loanAmount as real;
            && -0.5 < q.guarantee as real - amount * 20.0 <= 0.5
            && -0.5 < loan - amount * 80.0 <= 0.5
            && -0.5 < q.totalRepayment as real - (loan + loan * (interestRate / 100.0) * (term as real / 12.0)) <= 0.5
  {
    assert amount * 0.2 * 100.0 == amount * 20.0 && amount * 0.8 * 100.0 == amount * 80.0;
  }

  // Every quote that the request validation lets through repays at least the
  // loan, and at least one cent a month.
  lemma QuoteCoversTerm(amount: real, interestRate: real, term: nat)
    requires amount >= 1.0 && interestRate >= 0.0 && 1 <= term <= 12
    ensures var q := MakeQuote(amount, interestRate, term);
            q.totalRepayment >= q.loanAmount >= 80 && q.totalRepayment >= term
  {
    var q := MakeQuote(amount, interestRate, term);
    assert amount * 0.8 * 100.0 + 0.5 >= 80.0;
    var interest := q.loanAmount as real * (interestRate / 100.0) * (term as real / 12.0);
    NonNegativeProduct(q.loanAmount as real, interestRate / 100.0);
    NonNegativeProduct(q.loanAmount as real * (interestRate / 100.0), term as real / 12.0);
    assert interest >= 0.0;
  }

  lemma NonNegativeProduct(x: real, y: real)
    requires x >= 0.0 && y >= 0.0
    ensures x * y >= 0.0
  {}

  // ------------------------------------------------------------------
  // The schedule
  // ------------------------------------------------------------------

  // The instalments as the borrower should see them: equal ones, rounded down to
  // the cent, and a last one that takes up the rest.
  function Instalment(total: nat, term: nat, i: nat): (r: nat)
    requires i < term
  {
    if i < term - 1 then total / term else total / term + total % term
  }

  method GenerateSchedule(total: nat, term: nat) returns (schedule: seq<int>)
    ensures |schedule| == term
    ensures forall i | 0 <= i < term :: schedule[i] == Instalment(total, term, i)
    ensures term > 0 ==> Sum(schedule) == total
  {
    schedule := [];
    var spread := 0;
    for i := 1 to term + 1
      invariant |schedule| == i - 1
      invariant forall k | 0 <= k < i - 1 :: schedule[k] == Instalment(total, term, k)
      invariant Sum(schedule) == spread
      invariant i <= term ==> spread == (i - 1) * (total / term)
      invariant i == term + 1 && term > 0 ==> spread == total
    {
      var monthlyPayment := total / term;
      var amount := if i == term then total - spread else monthlyPayment;
      SplitByTerm(total, term);
      spread := spread + amount;
      assert (schedule + [amount])[..|schedule|] == schedule;
      schedule := schedule + [amount];
    }
  }

  lemma SplitByTerm(total: nat, term: nat)
    requires term > 0
    ensures (term - 1) * (total / term) + (total / term + total % term) == total
  {}

  // The last instalment exceeds the others by fewer than `term` cents.
  lemma LastInstalmentIsClose(total: nat, term: nat, i: nat)
    requires i < term
    ensures 0 <= Instalment(total, term, term - 1) - Instalment(total, term, i) < term
  {}

  // ------------------------------------------------------------------
  // A loan and the payment that is offered for it
  // ------------------------------------------------------------------

  datatype LoanStatus = Active | Completed | OtherStatus

  datatype Loan = Loan(status: LoanStatus, remaining: int, total: nat, term: nat, recorded: nat)

  // The amount of `nextPayment`, in stroops.
  function OfferedPayment(loan: Loan): Option<int> {
    if loan.status != Active || loan.remaining <= 0 then None
    else if loan.term == 0 then Some(RoundToCents(loan.remaining) * CENT)
    else
      var scheduled := Instalment(loan.total, loan.term, Min(loan.recorded, loan.term - 1));
      Some(RoundToCents(Min(scheduled * CENT, loan.remaining)) * CENT)
  }

  datatype Verdict = Accepted | BelowMinimum | NotActive | ExceedsBalance

  function CheckRepayment(loan: Loan, amount: int): Verdict {
    if amount < MIN_PAYMENT then BelowMinimum
    else if loan.status != Active then NotActive
    else if amount > loan.remaining then ExceedsBalance
    else Accepted
  }

  // An amount is accepted exactly when it is at least a cent, the loan is active and
  // the balance covers it.
  lemma AcceptedExactlyWhen(loan: Loan, amount: int)
    ensures CheckRepayment(loan, amount) == Accepted
            <==> amount >= 100_000 && loan.status == Active && amount <= loan.remaining
    ensures CheckRepayment(loan, amount) == BelowMinimum <==> amount < 100_000
    ensures CheckRepayment(loan, amount) == NotActive <==> amount >= 100_000 && loan.status != Active
  {}

  // So, in whole cents, an amount of at least a cent for an active loan is accepted
  // exactly when the checker can take it off in full; it clamps any other at zero.
  lemma AcceptedIsTakenOffInFull(loan: Loan, amount: int)
    requires loan.status == Active && amount >= 100_000 && loan.remaining % CENT == 0 && amount % CENT == 0
    ensures CheckRepayment(loan, amount) == Accepted
            <==> BalanceAfter(loan.remaining, amount) == loan.remaining - amount
    ensures CheckRepayment(loan, amount) != Accepted ==> BalanceAfter(loan.remaining, amount) == 0
  {
    var cents := loan.remaining / CENT - amount / CENT;
    assert loan.remaining - amount == cents * CENT;
    assert RoundToCents(loan.remaining - amount) == cents;
  }

  // The balance the status checker stores once the repayment is confirmed.
  function BalanceAfter(remaining: int, amount: int): int {
    Max(0, RoundToCents(remaining - amount) * CENT)
  }

  function ApplyRepayment(loan: Loan, amount: int): Loan {
    var balance := BalanceAfter(loan.remaining, amount);
    loan.(remaining := balance, status := if balance == 0 then Completed else loan.status)
  }

  datatype Preview = Preview(newBalance: int, willComplete: bool)

  function PreviewRepayment(loan: Loan, amount: int): Preview {
    Preview(loan.remaining - amount, loan.remaining - amount == 0)
  }

  // ------------------------------------------------------------------
  // Following the offered payments
  // ------------------------------------------------------------------

  function NewLoan(total: nat, term: nat): Loan {
    Loan(Active, total * CENT, total, term, 0)
  }

  // Paying what is offered, when the checker applies the payment to the balance;
  // which payments it applies is the subject of LoanRepayments.  `record` says whether
  // a payment row is stored.
  function PayOffered(loan: Loan, record: bool): Loan {
    match OfferedPayment(loan)
    case None => loan
    case Some(amount) =>
      ApplyRepayment(loan, amount).(recorded := loan.recorded + if record then 1 else 0)
  }

  function AfterPayments(total: nat, term: nat, record: bool, k: nat): Loan {
    if k == 0 then NewLoan(total, term) else PayOffered(AfterPayments(total, term, record, k - 1), record)
  }

  // The payment offered after `k` payments passes every check.
  predicate OfferAccepted(total: nat, term: nat, record: bool, k: nat) {
    var loan := AfterPayments(total, term, record, k);
    match OfferedPayment(loan)
    case None => false
    case Some(amount) => CheckRepayment(loan, amount) == Accepted
  }

  lemma WholeCents(cents: int)
    ensures RoundToCents(cents * CENT) == cents
  {}

  // What the first `k` instalments add up to.
  function Scheduled(total: nat, term: nat, k: nat): nat
    requires k <= term
  {
    if k == 0 then 0 else Scheduled(total, term, k - 1) + Instalment(total, term, k - 1)
  }

  lemma {:induction false} ScheduledBeforeLast(total: nat, term: nat, k: nat)
    requires k < term
    ensures Scheduled(total, term, k) == k * (total / term)
  {
    if k > 0 {
      ScheduledBeforeLast(total, term, k - 1);
      assert k * (total / term) == (k - 1) * (total / term) + total / term;
    }
  }

  lemma {:induction false} ScheduledGrows(total: nat, term: nat, k: nat, n: nat)
    requires k <= n <= term
    ensures Scheduled(total, term, k) <= Scheduled(total, term, n)
  {
    if k < n {
      ScheduledGrows(total, term, k, n - 1);
    }
  }

  lemma ScheduledInAll(total: nat, term: nat)
    requires term > 0
    ensures Scheduled(total, term, term) == total
  {
    SplitByTerm(total, term);
    ScheduledBeforeLast(total, term, term - 1);
  }

  lemma InstalmentIsPositive(total: nat, term: nat, k: nat)
    requires 0 < term <= total && k < term
    ensures Instalment(total, term, k) >= 1
  {}

  // The instalments add up to the total, and no sooner than at the last one.
  lemma ScheduledAddsUp(total: nat, term: nat, k: nat)
    requires 0 < term <= total && k <= term
    ensures if k < term then Scheduled(total, term, k) < total else Scheduled(total, term, k) == total
    ensures k < term ==> Instalment(total, term, k) >= 1
  {
    ScheduledInAll(total, term);
    if k < term {
      InstalmentIsPositive(total, term, k);
      ScheduledGrows(total, term, k + 1, term);
    }
  }

  // One accepted payment of a scheduled instalment.
  lemma PayInstalment(loan: Loan, instalment: nat, rest: nat, record: bool)
    requires loan.status == Active && loan.term > 0 && instalment >= 1
    requires Instalment(loan.total, loan.term, Min(loan.recorded, loan.term - 1)) == instalment
    requires loan.remaining == (instalment + rest) * CENT
    ensures OfferedPayment(loan) == Some(instalment * CENT)
    ensures CheckRepayment(loan, instalment * CENT) == Accepted
    ensures PayOffered(loan, record) ==
            loan.(remaining := rest * CENT, status := if rest == 0 then Completed else Active,
                  recorded := loan.recorded + if record then 1 else 0)
  {
    WholeCents(instalment);
    WholeCents(rest);
  }

  // With payments applied and recorded: the balance stays positive until the last instalment
  // and is exactly zero after it.
  lemma {:induction false} RecordedPaymentsClear(total: nat, term: nat, k: nat)
    requires 0 < term <= total && k <= term
    ensures AfterPayments(total, term, true, k) ==
            Loan(if k < term then Active else Completed, (total - Scheduled(total, term, k)) * CENT, total, term, k)
    ensures AfterPayments(total, term, true, k).remaining > 0 <==> k < term
  {
    ScheduledAddsUp(total, term, k);
    if k > 0 {
      var before, instalment := AfterPayments(total, term, true, k - 1), Instalment(total, term, k - 1);
      RecordedPaymentsClear(total, term, k - 1);
      ScheduledAddsUp(total, term, k - 1);
      PayInstalment(before, instalment, total - Scheduled(total, term, k), true);
    }
  }

  lemma RecordedOfferAccepted(total: nat, term: nat, k: nat)
    requires 0 < term <= total && k < term
    ensures OfferAccepted(total, term, true, k)
  {
    RecordedPaymentsClear(total, term, k);
    ScheduledAddsUp(total, term, k);
    ScheduledAddsUp(total, term, k + 1);
    PayInstalment(AfterPayments(total, term, true, k), Instalment(total, term, k),
                  total - Scheduled(total, term, k + 1), true);
  }

  // Less than a cent a month: the first instalment is zero.
  lemma TinyTotalIsRefused(total: nat, term: nat)
    requires 0 < total < term
    ensures !OfferAccepted(total, term, true, 0)
  {
    assert total / term == 0;
    assert OfferedPayment(NewLoan(total, term)) == Some(0);
  }

  // If every payment were applied and stored a payment row, the offers would all
  // be accepted and clear the loan in `term` payments exactly when the total
  // repayment is at least one cent per month.
  lemma OffersClearExactlyWhen(total: nat, term: nat)
    requires term > 0 && total > 0
    ensures (forall k | 0 <= k < term :: OfferAccepted(total, term, true, k)) <==> total >= term
    ensures total >= term ==> AfterPayments(total, term, true, term).status == Completed
                              && AfterPayments(total, term, true, term).remaining == 0
  {
    if total >= term {
      forall k | 0 <= k < term
        ensures OfferAccepted(total, term, true, k)
      {
        RecordedOfferAccepted(total, term, k);
      }
      RecordedPaymentsClear(total, term, term);
      ScheduledAddsUp(total, term, term);
    } else {
      TinyTotalIsRefused(total, term);
    }
  }

  // If every payment were applied and stored a payment row, every quote a borrower
  // can ask for would be cleared by following the offers.
  lemma EveryQuoteClears(amount: real, interestRate: real, term: nat)
    requires amount >= 1.0 && interestRate >= 0.0 && 1 <= term <= 12
    ensures var total := MakeQuote(amount, interestRate, term).totalRepayment;
            && total > 0
            && (forall k | 0 <= k < term :: OfferAccepted(total, term, true, k))
            && AfterPayments(total, term, true, term).status == Completed
  {
    QuoteCoversTerm(amount, interestRate, term);
    OffersClearExactlyWhen(MakeQuote(amount, interestRate, term).totalRepayment, term);
  }

  // The code base reads payment rows but stores none, and then the first
  // instalment is offered over and over: the balance after `k` applied payments.
  lemma {:induction false} UnrecordedBalance(total: nat, term: nat, k: nat)
    requires 0 < term <= total
    ensures var balance := Max(0, total - k * Instalment(total, term, 0));
            AfterPayments(total, term, false, k) ==
            Loan(if balance == 0 then Completed else Active, balance * CENT, total, term, 0)
  {
    if k > 0 {
      UnrecordedBalance(total, term, k - 1);
      var before, monthly := AfterPayments(total, term, false, k - 1), Instalment(total, term, 0);
      assert k * monthly == (k - 1) * monthly + monthly;
      ScheduledAddsUp(total, term, 0);
      if before.remaining > 0 {
        UnrecordedStep(before, monthly, total - (k - 1) * monthly);
      }
    }
  }

  lemma UnrecordedStep(loan: Loan, monthly: nat, cents: nat)
    requires loan.status == Active && loan.term > 0 && loan.recorded == 0 && monthly >= 1
    requires Instalment(loan.total, loan.term, 0) == monthly
    requires cents > 0 && loan.remaining == cents * CENT
    ensures var balance := Max(0, cents - monthly);
            PayOffered(loan, false)
            == loan.(remaining := balance * CENT, status := if balance == 0 then Completed else Active)
  {
    WholeCents(Min(monthly, cents));
    WholeCents(Max(0, cents - monthly));
  }

  // Then `term` applied payments clear the loan exactly when the term divides the total.
  lemma UnrecordedPaymentsClearExactlyWhen(total: nat, term: nat)
    requires 0 < term <= total
    ensures AfterPayments(total, term, false, term).status == Completed <==> total % term == 0
  {
    UnrecordedBalance(total, term, term);
    SplitByTerm(total, term);
    if term == 1 {
      assert total % term == 0;
    } else {
      assert Instalment(total, term, 0) == total / term;
      assert total - term * (total / term) == total % term;
    }
  }

  lemma UnrecordedOfferAccepted(total: nat, term: nat, k: nat)
    requires 0 < term <= total && k < term
    ensures OfferAccepted(total, term, false, k)
  {
    UnrecordedBalance(total, term, k);
    EarlyPaymentsLeaveSome(total, term, k);
    InstalmentIsPositive(total, term, 0);
    UnrecordedOffer(AfterPayments(total, term, false, k), Instalment(total, term, 0),
                    total - k * Instalment(total, term, 0));
  }

  lemma EarlyPaymentsLeaveSome(total: nat, term: nat, k: nat)
    requires 0 < term <= total && k < term
    ensures k * Instalment(total, term, 0) < total
  {
    SplitByTerm(total, term);
    if term > 1 {
      ProductGrows(k, term - 1, total / term);
      InstalmentIsPositive(total, term, 0);
    }
  }

  lemma ProductGrows(x: nat, y: nat, z: nat)
    requires x <= y
    ensures x * z <= y * z
  {}

  lemma UnrecordedOffer(loan: Loan, monthly: nat, cents: nat)
    requires loan.status == Active && loan.term > 0 && loan.recorded == 0 && monthly >= 1
    requires Instalment(loan.total, loan.term, 0) == monthly
    requires cents > 0 && loan.remaining == cents * CENT
    ensures OfferedPayment(loan) == Some(Min(monthly, cents) * CENT)
    ensures CheckRepayment(loan, Min(monthly, cents) * CENT) == Accepted
  {
    WholeCents(Min(monthly, cents));
  }

  // If every payment were applied: every offer made for a quoted loan is accepted,
  // and following them for the whole term clears the loan exactly when the term
  // divides the total.
  lemma QuoteClearsExactlyWhen(amount: real, interestRate: real, term: nat)
    requires amount >= 1.0 && interestRate >= 0.0 && 1 <= term <= 12
    ensures var total := MakeQuote(amount, interestRate, term).totalRepayment;
            && total > 0
            && (forall k | 0 <= k < term :: OfferAccepted(total, term, false, k))
            && (AfterPayments(total, term, false, term).status == Completed <==> total % term == 0)
  {
    QuoteCoversTerm(amount, interestRate, term);
    var total := MakeQuote(amount, interestRate, term).totalRepayment;
    forall k | 0 <= k < term ensures OfferAccepted(total, term, false, k) {
      UnrecordedOfferAccepted(total, term, k);
    }
    UnrecordedPaymentsClearExactlyWhen(total, term);
  }

  // A price of 100.00 over three months without interest is not cleared even by
  // three applied offers.
  lemma QuoteThatDoesNotClear()
    ensures MakeQuote(100.0, 0.0, 3) == Quote(2000, 8000, 8000)
    ensures AfterPayments(8000, 3, false, 3) == Loan(Active, 2 * CENT, 8000, 3, 0)
  {
    assert MakeQuote(100.0, 0.0, 3) == Quote(2000, 8000, 8000);
    UnrecordedBalance(8000, 3, 3);
  }

  // ------------------------------------------------------------------
  // Preview against checker
  // ------------------------------------------------------------------

  // The stored balance is the previewed one exactly when the previewed balance
  // is a whole number of cents.
  lemma PreviewIsStoredExactlyWhen(loan: Loan, amount: int)
    requires 0 <= amount <= loan.remaining
    ensures ApplyRepayment(loan, amount).remaining == PreviewRepayment(loan, amount).newBalance
            <==> (loan.remaining - amount) % CENT == 0
  {
    var x := loan.remaining - amount;
    assert x == CENT * (x / CENT) + x % CENT;
  }

  // The checker completes the loan exactly when the preview said so, unless the
  // previewed balance is positive but below half a cent.
  lemma CompletionIsPreviewedExactlyWhen(loan: Loan, amount: int)
    requires loan.status == Active && 0 <= amount <= loan.remaining
    ensures (ApplyRepayment(loan, amount).status == Completed <==> PreviewRepayment(loan, amount).willComplete)
            <==> !(0 < loan.remaining - amount < HALF_CENT)
  {
    var x := loan.remaining - amount;
    assert x < HALF_CENT ==> RoundToCents(x) == 0;
    assert x >= HALF_CENT ==> RoundToCents(x) >= 1;
  }

  // ------------------------------------------------------------------
  // Many repayments
  // ------------------------------------------------------------------

  function StoredBalance(initial: int, amounts: seq<int>): int {
    if amounts == [] then initial
    else BalanceAfter(StoredBalance(initial, amounts[..|amounts| - 1]), amounts[|amounts| - 1])
  }

  function ExactBalance(initial: int, amounts: seq<int>): int {
    if amounts == [] then initial
    else Max(0, ExactBalance(initial, amounts[..|amounts| - 1]) - amounts[|amounts| - 1])
  }

  function Distance(a: int, b: int): int {
    if a < b then b - a else a - b
  }

  // After k repayments of any amounts, the stored balance is off by at most k
  // half cents.
  lemma {:induction false} RoundingDrift(initial: int, amounts: seq<int>)
    ensures Distance(StoredBalance(initial, amounts), ExactBalance(initial, amounts)) <= |amounts| * HALF_CENT
  {
    if amounts != [] {
      var front, last := amounts[..|amounts| - 1], amounts[|amounts| - 1];
      RoundingDrift(initial, front);
      var x := StoredBalance(initial, front) - last;
      assert Distance(RoundToCents(x) * CENT, x) <= HALF_CENT;
    }
  }

  ghost predicate WholeCentAmounts(amounts: seq<int>) {
    forall i | 0 <= i < |amounts| :: amounts[i] >= 0 && amounts[i] % CENT == 0
  }

  lemma WholeCentStep(balance: int, amount: int)
    requires balance % CENT == 0 && amount % CENT == 0
    ensures RoundToCents(balance - amount) * CENT == balance - amount && (balance - amount) % CENT == 0
  {
    var b, a := balance / CENT, amount / CENT;
    assert balance - amount == (b - a) * CENT;
    WholeCents(b - a);
  }

  // In whole cents the stored balance is the initial one less all repayments.
  lemma {:induction false} WholeCentBalance(initial: int, amounts: seq<int>)
    requires initial >= 0 && initial % CENT == 0 && WholeCentAmounts(amounts)
    ensures StoredBalance(initial, amounts) == Max(0, initial - Sum(amounts))
    ensures StoredBalance(initial, amounts) % CENT == 0 && Sum(amounts) >= 0
  {
    if amounts != [] {
      var front, last := amounts[..|amounts| - 1], amounts[|amounts| - 1];
      WholeCentBalance(initial, front);
      WholeCentStep(StoredBalance(initial, front), last);
    }
  }
}
