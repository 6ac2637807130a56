// The index tables and what one contract event does to them; events may be
// delivered again at any time.
module EventTables {
  datatype Status = Active | Paid | Defaulted

  // Amounts are in stroops.
  datatype Loan = Loan(eventId: string, wallet: string, principal: int, interest: int, status: Status)

  datatype Payment = Payment(loanId: string, txHash: string, amount: int)

  datatype Change = Change(wallet: string, newScore: nat, ledger: nat)

  // `dated` tells whether the payload has a due date: the column is NOT NULL, so
  // without one the insert fails.
  datatype Event =
    | Created(id: string, ledger: nat, loanId: string, wallet: string, principal: int, interest: int, dated: bool)
    | Repaid(id: string, ledger: nat, loanId: string, amount: int)
    | LoanDefaulted(id: string, ledger: nat, loanId: string)
    | ScoreChanged(id: string, ledger: nat, wallet: string, newScore: nat)

  // The unique columns: loans by `loan_id` and `event_id`, payments by
  // (`tx_hash`, `loan_id`), the score history by `event_id`, the cache by wallet.
  datatype Tables = Tables(
    loans: map<string, Loan>,
    payments: seq<Payment>,
    history: map<string, Change>,
    scores: map<string, nat>)

  function TotalPaid(payments: seq<Payment>, loanId: string): int {
    if payments == [] then 0
    else
      var last := payments[|payments| - 1];
      TotalPaid(payments[..|payments| - 1], loanId) + if last.loanId == loanId then last.amount else 0
  }

  predicate HasEvent(loans: map<string, Loan>, id: string) {
    exists l | l in loans :: loans[l].eventId == id
  }

  predicate HasPayment(payments: seq<Payment>, loanId: string, txHash: string) {
    exists i | 0 <= i < |payments| :: payments[i].loanId == loanId && payments[i].txHash == txHash
  }

  function Owed(loan: Loan): int {
    loan.principal + loan.interest
  }

  function WithStatus(loans: map<string, Loan>, loanId: string, status: Status): map<string, Loan> {
    if loanId in loans then loans[loanId := loans[loanId].(status := status)] else loans
  }

  function Recalculated(loans: map<string, Loan>, payments: seq<Payment>, loanId: string): map<string, Loan> {
    if loanId !in loans then loans
    else WithStatus(loans, loanId, if TotalPaid(payments, loanId) >= Owed(loans[loanId]) then Paid else Active)
  }

  function Persist(t: Tables, e: Event): Tables {
    match e
    case Created(id, _, loanId, wallet, principal, interest, dated) =>
      if !dated || HasEvent(t.loans, id) || loanId in t.loans then t
      else t.(loans := t.loans[loanId := Loan(id, wallet, principal, interest, Active)])
    case Repaid(id, _, loanId, amount) =>
      if HasPayment(t.payments, loanId, id) then t
      else
        var payments := t.payments + [Payment(loanId, id, amount)];
        t.(payments := payments, loans := Recalculated(t.loans, payments, loanId))
    case LoanDefaulted(_, _, loanId) =>
      t.(loans := WithStatus(t.loans, loanId, Defaulted))
    case ScoreChanged(id, ledger, wallet, newScore) =>
      if id in t.history then t
      else t.(history := t.history[id := Change(wallet, newScore, ledger)],
              scores := if wallet in t.scores then t.scores[wallet := newScore] else t.scores)
  }

  function Deliver(t: Tables, events: seq<Event>): Tables {
    if events == [] then t else Persist(Deliver(t, events[..|events| - 1]), events[|events| - 1])
  }

  // ------------------------------------------------------------------
  // Delivered before
  // ------------------------------------------------------------------

  // The mark that an event leaves for its redelivery to be recognised by.  A
  // default leaves none, an undated loan fails every time.
  ghost predicate Seen(t: Tables, e: Event) {
    match e
    case Created(id, _, loanId, _, _, _, dated) => !dated || HasEvent(t.loans, id) || loanId in t.loans
    case Repaid(id, _, loanId, _) => HasPayment(t.payments, loanId, id)
    case LoanDefaulted(_, _, _) => true
    case ScoreChanged(id, _, _, _) => id in t.history
  }

  lemma SeenOnceDelivered(t: Tables, e: Event)
    ensures Seen(Persist(t, e), e)
  {
    var after := Persist(t, e);
    match e
    case Repaid(id, _, loanId, amount) =>
      if !HasPayment(t.payments, loanId, id) {
        assert after.payments[|after.payments| - 1] == Payment(loanId, id, amount);
      }
    case _ =>
  }

  // No event removes a loan, a payment or a history row, or changes whose it is.
  lemma NothingIsForgotten(t: Tables, next: Event)
    ensures var after := Persist(t, next);
            && (forall l | l in t.loans :: l in after.loans && after.loans[l].eventId == t.loans[l].eventId)
            && |t.payments| <= |after.payments|
            && (forall i | 0 <= i < |t.payments| :: after.payments[i] == t.payments[i])
            && (forall id | id in t.history :: id in after.history)
  {}

  lemma SeenStays(t: Tables, e: Event, next: Event)
    requires Seen(t, e)
    ensures Seen(Persist(t, next), e)
  {
    NothingIsForgotten(t, next);
    var after := Persist(t, next);
    match e
    case Created(id, _, loanId, _, _, _, dated) =>
      if HasEvent(t.loans, id) {
        var l :| l in t.loans && t.loans[l].eventId == id;
        assert after.loans[l].eventId == id;
      }
    case Repaid(id, _, loanId, _) =>
      var i :| 0 <= i < |t.payments| && t.payments[i].loanId == loanId && t.payments[i].txHash == id;
      assert after.payments[i].txHash == id;
    case _ =>
  }

  lemma {:induction false} SeenStaysThroughout(t: Tables, e: Event, events: seq<Event>)
    requires Seen(t, e) || e in events
    ensures Seen(Deliver(t, events), e)
  {
    if events != [] {
      var front, last := events[..|events| - 1], events[|events| - 1];
      if Seen(t, e) || e in front {
        SeenStaysThroughout(t, e, front);
        SeenStays(Deliver(t, front), e, last);
      } else {
        SeenOnceDelivered(Deliver(t, front), last);
      }
    }
  }

  // Delivering an event again changes nothing, except for a default of a loan
  // that something else happened to since.
  lemma RedeliveryChangesNothingExactlyWhen(t: Tables, events: seq<Event>, e: Event)
    requires e in events
    ensures var after := Deliver(t, events);
            Persist(after, e) == after
            <==> (e.LoanDefaulted? && e.loanId in after.loans ==> after.loans[e.loanId].status == Defaulted)
  {
    SeenStaysThroughout(t, e, events);
    var after := Deliver(t, events);
    if e.LoanDefaulted? && e.loanId in after.loans {
      assert Persist(after, e).loans[e.loanId].status == Defaulted;
      if after.loans[e.loanId].status == Defaulted {
        assert Persist(after, e).loans == after.loans;
      }
    }
  }

  // ------------------------------------------------------------------
  // Repeats
  // ------------------------------------------------------------------

  function Firsts(events: seq<Event>): seq<Event> {
    if events == [] then []
    else
      var front, last := events[..|events| - 1], events[|events| - 1];
      if last in front then Firsts(front) else Firsts(front) + [last]
  }

  // The same events, each once.
  lemma {:induction false} FirstsAreDistinct(events: seq<Event>)
    ensures forall i, j | 0 <= i < j < |Firsts(events)| :: Firsts(events)[i] != Firsts(events)[j]
    ensures forall e :: e in Firsts(events) <==> e in events
  {
    if events != [] {
      FirstsAreDistinct(events[..|events| - 1]);
      assert events == events[..|events| - 1] + [events[|events| - 1]];
    }
  }

  ghost predicate NoDefaults(events: seq<Event>) {
    forall i | 0 <= i < |events| :: !events[i].LoanDefaulted?
  }

  // Without defaults, delivery with any repeats gives the tables that the first
  // occurrences alone give.
  lemma {:induction false} DeliveryRefinesFirsts(t: Tables, events: seq<Event>)
    requires NoDefaults(events)
    ensures Deliver(t, events) == Deliver(t, Firsts(events))
  {
    if events != [] {
      var front, last := events[..|events| - 1], events[|events| - 1];
      DeliveryRefinesFirsts(t, front);
      if last in front {
        RedeliveryChangesNothingExactlyWhen(t, front, last);
      } else {
        assert Firsts(events)[..|Firsts(events)| - 1] == Firsts(front);
      }
    }
  }

  ghost predicate Announces(events: seq<Event>, loanId: string) {
    exists i :: 0 <= i < |events| && events[i].LoanDefaulted? && events[i].loanId == loanId
  }

  // The tables with every loan defaulted that `events` say is.
  ghost function Redefaulted(t: Tables, events: seq<Event>): Tables {
    t.(loans := map l | l in t.loans :: if Announces(events, l) then t.loans[l].(status := Defaulted) else t.loans[l])
  }

  // Delivering events again, any number of times and in any order, only
  // re-announces the defaults among them.
  lemma {:induction false} ReplayOnlyRedefaults(t: Tables, again: seq<Event>)
    requires forall i | 0 <= i < |again| :: Seen(t, again[i])
    ensures Deliver(t, again) == Redefaulted(t, again)
  {
    if again == [] {
      assert Redefaulted(t, again).loans == t.loans;
    } else {
      var front, last := again[..|again| - 1], again[|again| - 1];
      ReplayOnlyRedefaults(t, front);
      SeenStaysThroughout(t, last, front);
      RedefaultsOneMore(t, front, last);
      assert again == front + [last];
    }
  }

  lemma RedefaultsOneMore(t: Tables, front: seq<Event>, last: Event)
    requires Seen(Redefaulted(t, front), last)
    ensures Persist(Redefaulted(t, front), last) == Redefaulted(t, front + [last])
  {
    var all := front + [last];
    assert all[|front|] == last;
    forall l | l in t.loans
      ensures Announces(all, l) <==> Announces(front, l) || (last.LoanDefaulted? && last.loanId == l)
    {
      if Announces(front, l) {
        var i :| 0 <= i < |front| && front[i].LoanDefaulted? && front[i].loanId == l;
        assert all[i] == front[i];
      }
    }
    assert Persist(Redefaulted(t, front), last).loans == Redefaulted(t, all).loans;
  }

  // A replay of everything leaves the tables alone exactly when every loan that
  // was ever announced as defaulted still is.
  lemma ReplayIsHarmlessExactlyWhen(t: Tables, events: seq<Event>)
    ensures var after := Deliver(t, events);
            Deliver(after, events) == after
            <==> forall l | l in after.loans && Announces(events, l) :: after.loans[l].status == Defaulted
  {
    var after := Deliver(t, events);
    forall i | 0 <= i < |events| ensures Seen(after, events[i]) {
      SeenStaysThroughout(t, events[i], events);
    }
    ReplayOnlyRedefaults(after, events);
    var again := Redefaulted(after, events);
    if forall l | l in after.loans && Announces(events, l) :: after.loans[l].status == Defaulted {
      assert again.loans == after.loans;
    } else {
      var l :| l in after.loans && Announces(events, l) && after.loans[l].status != Defaulted;
      assert again.loans[l].status == Defaulted;
    }
  }

  // The reason: a repayment after the default makes the loan active again.
  lemma DefaultIsReplayed(loan: Loan, amount: int)
    requires 0 <= amount < Owed(loan)
    ensures var t := Tables(map["loan" := loan.(status := Active)], [], map[], map[]);
            var default := LoanDefaulted("1-1", 1, "loan");
            var after := Deliver(t, [default, Repaid("2-1", 2, "loan", amount)]);
            && "loan" in after.loans && after.loans["loan"].status == Active
            && "loan" in Persist(after, default).loans && Persist(after, default).loans["loan"].status == Defaulted
  {
    var t := Tables(map["loan" := loan.(status := Active)], [], map[], map[]);
    var default, repaid := LoanDefaulted("1-1", 1, "loan"), Repaid("2-1", 2, "loan", amount);
    assert [default, repaid][..1] == [default] && [default][..0] == [];
    assert Deliver(t, [default]) == Persist(Deliver(t, []), default);
    var payments := [Payment("loan", "2-1", amount)];
    assert payments[..0] == [] && TotalPaid(payments, "loan") == amount;
    assert [] + payments == payments;
  }

  // ------------------------------------------------------------------
  // What "paid" means
  // ------------------------------------------------------------------

  ghost predicate SameTerms(a: Loan, b: Loan) {
    a.(status := b.status) == b
  }

  ghost predicate PaidInFull(t: Tables) {
    forall l | l in t.loans && t.loans[l].status == Paid :: TotalPaid(t.payments, l) >= Owed(t.loans[l])
  }

  lemma PaymentAdds(payments: seq<Payment>, p: Payment, loanId: string)
    ensures TotalPaid(payments + [p], loanId)
            == TotalPaid(payments, loanId) + if p.loanId == loanId then p.amount else 0
  {
    assert (payments + [p])[..|payments|] == payments;
  }

  // What an event does to the balance sheet of one loan.
  lemma LoanAfter(t: Tables, e: Event, l: string)
    requires l in Persist(t, e).loans
    ensures var after := Persist(t, e);
            var paid := TotalPaid(after.payments, l);
            || (&& l in t.loans && SameTerms(t.loans[l], after.loans[l]) && paid == TotalPaid(t.payments, l)
                && (after.loans[l].status == t.loans[l].status || after.loans[l].status == Defaulted))
            || (&& l in t.loans && SameTerms(t.loans[l], after.loans[l]) && e.Repaid? && e.loanId == l
                && paid == TotalPaid(t.payments, l) + e.amount
                && after.loans[l].status == if paid >= Owed(t.loans[l]) then Paid else Active)
            || (&& l !in t.loans && e.Created? && e.loanId == l && after.payments == t.payments
                && after.loans[l] == Loan(e.id, e.wallet, e.principal, e.interest, Active))
  {
    if e.Repaid? {
      PaymentAdds(t.payments, Payment(e.loanId, e.id, e.amount), l);
    }
  }

  lemma PersistKeepsPaidInFull(t: Tables, e: Event)
    requires PaidInFull(t) && (e.Repaid? ==> e.amount >= 0)
    ensures PaidInFull(Persist(t, e))
  {
    var after := Persist(t, e);
    forall l | l in after.loans && after.loans[l].status == Paid
      ensures TotalPaid(after.payments, l) >= Owed(after.loans[l])
    {
      LoanAfter(t, e, l);
    }
  }

  // Over every delivery, repeats and defaults included: a loan shown as paid has
  // been paid at least its principal and interest.
  lemma {:induction false} PaidLoansArePaidInFull(t: Tables, events: seq<Event>)
    requires PaidInFull(t)
    requires forall i | 0 <= i < |events| && events[i].Repaid? :: events[i].amount >= 0
    ensures PaidInFull(Deliver(t, events))
  {
    if events != [] {
      PaidLoansArePaidInFull(t, events[..|events| - 1]);
      PersistKeepsPaidInFull(Deliver(t, events[..|events| - 1]), events[|events| - 1]);
    }
  }

  // A payment counts once, however often its event comes.
  ghost predicate PaymentsDistinct(t: Tables) {
    forall i, j | 0 <= i < j < |t.payments| ::
      t.payments[i].txHash != t.payments[j].txHash || t.payments[i].loanId != t.payments[j].loanId
  }

  lemma {:induction false} PaymentsStayDistinct(t: Tables, events: seq<Event>)
    requires PaymentsDistinct(t)
    ensures PaymentsDistinct(Deliver(t, events))
  {
    if events != [] {
      PaymentsStayDistinct(t, events[..|events| - 1]);
    }
  }

  // Nothing is known to have been paid before the loan was created.
  ghost predicate ComesInOrder(t: Tables, events: seq<Event>) {
    forall i | 0 <= i < |events| ::
      && (events[i].Repaid? ==> events[i].amount >= 0 && events[i].loanId in Deliver(t, events[..i]).loans)
      && (events[i].Created? ==> events[i].principal + events[i].interest > 0)
  }

  ghost predicate StatusExact(t: Tables) {
    && (forall i | 0 <= i < |t.payments| :: t.payments[i].loanId in t.loans)
    && (forall l | l in t.loans && t.loans[l].status != Defaulted ::
          t.loans[l].status == Paid <==> TotalPaid(t.payments, l) >= Owed(t.loans[l]))
  }

  lemma {:induction false} NothingPaid(payments: seq<Payment>, loanId: string)
    requires forall i | 0 <= i < |payments| :: payments[i].loanId != loanId
    ensures TotalPaid(payments, loanId) == 0
  {
    if payments != [] {
      NothingPaid(payments[..|payments| - 1], loanId);
    }
  }

  lemma PaymentsStayWithLoans(t: Tables, e: Event)
    requires forall i | 0 <= i < |t.payments| :: t.payments[i].loanId in t.loans
    requires e.Repaid? ==> e.loanId in t.loans
    ensures forall i | 0 <= i < |Persist(t, e).payments| :: Persist(t, e).payments[i].loanId in Persist(t, e).loans
  {
    NothingIsForgotten(t, e);
  }

  lemma PersistKeepsStatusExact(t: Tables, e: Event)
    requires StatusExact(t)
    requires e.Repaid? ==> e.loanId in t.loans
    requires e.Created? ==> e.principal + e.interest > 0
    ensures StatusExact(Persist(t, e))
  {
    var after := Persist(t, e);
    PaymentsStayWithLoans(t, e);
    forall l | l in after.loans && after.loans[l].status != Defaulted
      ensures after.loans[l].status == Paid <==> TotalPaid(after.payments, l) >= Owed(after.loans[l])
    {
      LoanAfter(t, e, l);
      if l !in t.loans {
        NothingPaid(t.payments, l);
      }
    }
  }

  // When no payment comes before its loan, a loan that is not defaulted is shown
  // as paid exactly when its payments cover principal and interest.
  lemma {:induction false} StatusFollowsPaymentsInOrder(t: Tables, events: seq<Event>)
    requires StatusExact(t) && ComesInOrder(t, events)
    ensures StatusExact(Deliver(t, events))
  {
    if events != [] {
      var front, last := events[..|events| - 1], events[|events| - 1];
      forall i | 0 <= i < |front| ensures front[..i] == events[..i] {}
      assert ComesInOrder(t, front);
      StatusFollowsPaymentsInOrder(t, front);
      PersistKeepsStatusExact(Deliver(t, front), last);
    }
  }

  // ------------------------------------------------------------------
  // What "defaulted" means
  // ------------------------------------------------------------------

  predicate IsDefaulted(t: Tables, l: string) {
    l in t.loans && t.loans[l].status == Defaulted
  }

  // A payment of the loan that had not come before.
  ghost predicate NewPayment(t: Tables, events: seq<Event>, i: nat, l: string) {
    && i < |events| && events[i].Repaid? && events[i].loanId == l
    && !HasPayment(Deliver(t, events[..i]).payments, l, events[i].id)
  }

  // A default of the loan that comes after its creation.
  ghost predicate DefaultAt(t: Tables, events: seq<Event>, i: nat, l: string) {
    i < |events| && events[i].LoanDefaulted? && events[i].loanId == l && l in Deliver(t, events[..i]).loans
  }

  ghost predicate DefaultStands(t: Tables, events: seq<Event>, i: nat, l: string) {
    DefaultAt(t, events, i, l) && forall j: nat | i < j < |events| :: !NewPayment(t, events, j, l)
  }

  // Over every delivery a loan is shown as defaulted exactly when a default of it
  // came after its creation and no new payment has come since, repeats of earlier
  // ones notwithstanding.
  lemma {:induction false} DefaultedExactlyWhen(t: Tables, events: seq<Event>, l: string)
    requires !IsDefaulted(t, l)
    ensures IsDefaulted(Deliver(t, events), l) <==> exists i: nat :: DefaultStands(t, events, i, l)
  {
    if events != [] {
      var n := |events| - 1;
      var front := events[..n];
      DefaultedExactlyWhen(t, front, l);
      DefaultsBefore(t, events, l);
      if DefaultAt(t, events, n, l) {
        assert DefaultStands(t, events, n, l);
      } else {
        LastEventAndDefault(Deliver(t, front), events[n], l);
        DefaultsStandOn(t, events, l);
      }
    }
  }

  lemma DefaultsStandOn(t: Tables, events: seq<Event>, l: string)
    requires events != [] && !DefaultAt(t, events, |events| - 1, l)
    ensures var front := events[..|events| - 1];
            (exists i: nat :: DefaultStands(t, events, i, l))
            <==> (exists i: nat :: DefaultStands(t, front, i, l)) && !NewPayment(t, events, |front|, l)
  {
    var front := events[..|events| - 1];
    DefaultsBefore(t, events, l);
    if i: nat :| DefaultStands(t, events, i, l) {
      assert DefaultStands(t, front, i, l);
    }
    if i: nat :| DefaultStands(t, front, i, l) && !NewPayment(t, events, |front|, l) {
      assert DefaultStands(t, events, i, l);
    }
  }

  lemma DefaultsBefore(t: Tables, events: seq<Event>, l: string)
    requires events != []
    ensures var front := events[..|events| - 1];
            && (forall i: nat | i < |front| :: NewPayment(t, front, i, l) <==> NewPayment(t, events, i, l))
            && (forall i: nat | i < |front| :: DefaultAt(t, front, i, l) <==> DefaultAt(t, events, i, l))
  {
    var front := events[..|events| - 1];
    forall i: nat | i < |front|
      ensures NewPayment(t, front, i, l) <==> NewPayment(t, events, i, l)
      ensures DefaultAt(t, front, i, l) <==> DefaultAt(t, events, i, l)
    {
      assert front[..i] == events[..i];
    }
  }

  lemma LastEventAndDefault(t: Tables, e: Event, l: string)
    requires !(e.LoanDefaulted? && e.loanId == l && l in t.loans)
    ensures var paid := e.Repaid? && e.loanId == l && !HasPayment(t.payments, l, e.id);
            IsDefaulted(Persist(t, e), l) <==> IsDefaulted(t, l) && !paid
  {}

  // ------------------------------------------------------------------
  // Terms and scores
  // ------------------------------------------------------------------

  ghost predicate CreatedBy(loan: Loan, loanId: string, e: Event) {
    && e.Created? && e.dated && e.loanId == loanId
    && loan.eventId == e.id && loan.wallet == e.wallet && loan.principal == e.principal && loan.interest == e.interest
  }

  // A loan keeps the terms it was created with; no event takes a loan away.
  lemma {:induction false} LoansKeepTheirTerms(t: Tables, events: seq<Event>, l: string)
    ensures var after := Deliver(t, events);
            && (l in t.loans ==> l in after.loans && SameTerms(t.loans[l], after.loans[l]))
            && (l in after.loans && l !in t.loans ==>
                  exists i :: 0 <= i < |events| && CreatedBy(after.loans[l], l, events[i]))
  {
    if events != [] {
      var front, last := events[..|events| - 1], events[|events| - 1];
      LoansKeepTheirTerms(t, front, l);
      if l in Deliver(t, events).loans && l !in t.loans {
        if l in Deliver(t, front).loans {
          var i :| 0 <= i < |front| && CreatedBy(Deliver(t, front).loans[l], l, front[i]);
          assert events[i] == front[i] && CreatedBy(Deliver(t, events).loans[l], l, events[i]);
        } else {
          assert CreatedBy(Deliver(t, events).loans[l], l, events[|events| - 1]);
        }
      }
    }
  }

  // The first delivery of a score change of the wallet.
  ghost predicate NewChange(t: Tables, events: seq<Event>, i: nat, wallet: string) {
    && i < |events| && events[i].ScoreChanged? && events[i].wallet == wallet && events[i].id !in t.history
    && forall j | 0 <= j < i && events[j].ScoreChanged? :: events[j].id != events[i].id
  }

  lemma {:induction false} HistoryIsComplete(t: Tables, events: seq<Event>, id: string)
    ensures id in Deliver(t, events).history
            <==> id in t.history || exists i :: 0 <= i < |events| && events[i].ScoreChanged? && events[i].id == id
  {
    if events != [] {
      HistoryIsComplete(t, events[..|events| - 1], id);
    }
  }

  // The first delivery of the change with this id.
  ghost predicate FirstChange(events: seq<Event>, i: nat, id: string) {
    && i < |events| && events[i].ScoreChanged? && events[i].id == id
    && forall j | 0 <= j < i && events[j].ScoreChanged? :: events[j].id != id
  }

  // A history row keeps what it held, and a new one holds the wallet, the score and
  // the ledger of the first delivered change with its id, whatever comes later.
  lemma {:induction false} HistoryHoldsFirstChange(t: Tables, events: seq<Event>, id: string)
    ensures id in t.history ==> id in Deliver(t, events).history && Deliver(t, events).history[id] == t.history[id]
    ensures id !in t.history ==> forall i: nat | FirstChange(events, i, id) ::
              && id in Deliver(t, events).history
              && Deliver(t, events).history[id].wallet == events[i].wallet
              && Deliver(t, events).history[id].newScore == events[i].newScore
              && Deliver(t, events).history[id].ledger == events[i].ledger
  {
    if events != [] {
      var n := |events| - 1;
      var front := events[..n];
      HistoryHoldsFirstChange(t, front, id);
      HistoryIsComplete(t, front, id);
      forall i: nat | i < n ensures FirstChange(front, i, id) <==> FirstChange(events, i, id) {}
    }
  }

  lemma {:induction false} SomeChangeIsFirst(events: seq<Event>, i: nat, id: string) returns (first: nat)
    requires i < |events| && events[i].ScoreChanged? && events[i].id == id
    ensures FirstChange(events, first, id) && first <= i
  {
    if j :| 0 <= j < i && events[j].ScoreChanged? && events[j].id == id {
      first := SomeChangeIsFirst(events, j, id);
    } else {
      first := i;
    }
  }

  ghost predicate LastChange(t: Tables, events: seq<Event>, i: nat, wallet: string) {
    NewChange(t, events, i, wallet) && forall j: nat | i < j < |events| :: !NewChange(t, events, j, wallet)
  }

  // A cached score is that of the last change of its wallet delivered for the
  // first time, repeats of earlier ones notwithstanding.
  lemma {:induction false} ScoreIsLastNewChange(t: Tables, events: seq<Event>, wallet: string)
    requires wallet in t.scores
    ensures wallet in Deliver(t, events).scores
    ensures (forall i: nat :: !NewChange(t, events, i, wallet))
            ==> Deliver(t, events).scores[wallet] == t.scores[wallet]
    ensures forall i: nat | LastChange(t, events, i, wallet) :: Deliver(t, events).scores[wallet] == events[i].newScore
  {
    if events != [] {
      var n := |events| - 1;
      var front, last := events[..n], events[n];
      ScoreIsLastNewChange(t, front, wallet);
      forall i: nat | i < n ensures NewChange(t, front, i, wallet) <==> NewChange(t, events, i, wallet) {}
      HistoryIsComplete(t, front, last.id);
      if NewChange(t, events, n, wallet) {
        assert forall i: nat | LastChange(t, events, i, wallet) :: i == n;
      } else {
        ScoreStays(Deliver(t, front), last, wallet);
        forall i: nat | LastChange(t, events, i, wallet) ensures LastChange(t, front, i, wallet) {}
      }
    }
  }

  // No event gives a wallet a cached score that had none.
  lemma {:induction false} CachedWalletsStay(t: Tables, events: seq<Event>)
    ensures Deliver(t, events).scores.Keys == t.scores.Keys
  {
    if events != [] {
      CachedWalletsStay(t, events[..|events| - 1]);
    }
  }

  lemma ScoreStays(t: Tables, e: Event, wallet: string)
    requires wallet in t.scores && (e.ScoreChanged? && e.wallet == wallet ==> e.id in t.history)
    ensures wallet in Persist(t, e).scores && Persist(t, e).scores[wallet] == t.scores[wallet]
  {}
}
