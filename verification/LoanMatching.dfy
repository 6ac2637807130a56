// From the quote of a loan to the row that reconciliation resolves it to: which of
// several provisional rows of a wallet the job takes for a loan on chain.
module LoanMatching {
  import opened Common
  import opened LoanReconciliation
  import M = LoanMoney

  // The ids that the backend gives a loan before it is on chain.
  lemma ProvisionalExactlyWhen(loanId: string)
    ensures Provisional(loanId)
            <==> || (exists rest :: loanId == "loan_" + rest)
                 || (exists rest :: loanId == "pending_" + rest)
                 || (exists rest :: loanId == "pending-" + rest)
  {
    PrefixExactlyWhen(loanId, "loan_");
    PrefixExactlyWhen(loanId, "pending_");
    PrefixExactlyWhen(loanId, "pending-");
  }

  lemma {:induction false} PrefixExactlyWhen(text: string, prefix: string)
    ensures StartsWith(text, prefix) <==> exists rest :: text == prefix + rest
  {
    if prefix == [] {
      assert text == prefix + text;
    } else if text != [] {
      PrefixExactlyWhen(text[1..], prefix[1..]);
      if StartsWith(text, prefix) {
        var rest :| text[1..] == prefix[1..] + rest;
        assert text == prefix + rest;
      }
      if rest :| text == prefix + rest {
        assert text[1..] == prefix[1..] + rest;
      }
    }
  }

  // In whole cents an amount matches a principal exactly when it is the principal,
  // or the principal is four fifths of it.
  lemma WholeCentsMatchExactlyWhen(amount: int, principal: int)
    ensures AmountMatches(amount as real / 100.0, principal as real / 100.0)
            <==> amount == principal || 4 * amount == 5 * principal
  {
    var a, p := amount as real / 100.0, principal as real / 100.0;
    assert a - p == (amount - principal) as real / 100.0;
    assert a * 0.8 - p == (4 * amount - 5 * principal) as real / 500.0;
    SmallIsZero(amount - principal);
    SmallIsZero(4 * amount - 5 * principal);
  }

  lemma SmallIsZero(n: int)
    ensures Abs(n as real / 100.0) < 0.000001 <==> n == 0
    ensures Abs(n as real / 500.0) < 0.000001 <==> n == 0
  {
    if n >= 1 {
      assert n as real >= 1.0;
    } else if n <= -1 {
      assert n as real <= -1.0;
    }
  }

  // The loan of a quote is four fifths of its price exactly when five divides the
  // price in cents.
  lemma QuotedLoanIsFourFifths(price: int, interestRate: real, term: nat)
    ensures var loan := M.MakeQuote(price as real / 100.0, interestRate, term).loanAmount;
            && (5 * loan == 4 * price <==> price % 5 == 0)
            && -2 <= 5 * loan - 4 * price <= 2
  {
    M.QuoteIsNearest(price as real / 100.0, interestRate, term);
    NearestToFourFifths(M.MakeQuote(price as real / 100.0, interestRate, term).loanAmount, price);
  }

  lemma NearestToFourFifths(loan: int, price: int)
    requires -0.5 < loan as real - price as real / 100.0 * 80.0 <= 0.5
    ensures -2 <= 5 * loan - 4 * price <= 2 && (5 * loan == 4 * price <==> price % 5 == 0)
  {
    assert loan as real - price as real / 100.0 * 80.0 == (5 * loan - 4 * price) as real / 5.0;
    assert -2.5 < (5 * loan - 4 * price) as real <= 2.5;
    if 5 * loan == 4 * price {
      assert price == 5 * (price - loan);
    }
    if price % 5 == 0 {
      assert 5 * loan - 4 * price == 5 * (loan - 4 * (price / 5));
    }
  }

  // A row of price `amount` matches the loan quoted for `price` exactly when its
  // price is the loan itself, or five divides it and it is that price.
  lemma RowMatchesQuoteExactlyWhen(amount: int, price: int, interestRate: real, term: nat)
    ensures var loan := M.MakeQuote(price as real / 100.0, interestRate, term).loanAmount;
            AmountMatches(amount as real / 100.0, loan as real / 100.0)
            <==> amount == loan || (amount == price && price % 5 == 0)
  {
    var loan := M.MakeQuote(price as real / 100.0, interestRate, term).loanAmount;
    QuotedLoanIsFourFifths(price, interestRate, term);
    WholeCentsMatchExactlyWhen(amount, loan);
  }

  // ------------------------------------------------------------------
  // Which row is claimed
  // ------------------------------------------------------------------

  ghost predicate PricedInCents(t: LoanTable, wallet: string, prices: map<RowId, int>) {
    forall id | id in t && t[id].wallet == wallet && Provisional(t[id].loanId) ::
      id in prices && t[id].amount == prices[id] as real / 100.0
  }

  // Over every snapshot: a loan on chain that was quoted for `price`, whose id has no
  // row, is resolved to a row of its wallet whose price fits, if there is one; else
  // to the only provisional row, if there is only one; and else to none.
  lemma ClaimsByPrice(rows: seq<LoanSnapshot>, t: LoanTable, c: ChainLoan, prices: map<RowId, int>, price: int,
                      interestRate: real, term: nat)
    requires Enumerates(rows, t) && PricedInCents(t, c.wallet, prices) && !HasRow(t, c.loanId)
    requires c.principal == M.MakeQuote(price as real / 100.0, interestRate, term).loanAmount as real / 100.0
    ensures var loan := M.MakeQuote(price as real / 100.0, interestRate, term).loanAmount;
            match Decide(rows, c)
            case Claim(id) =>
              && id in t && t[id].wallet == c.wallet && Provisional(t[id].loanId)
              && (|| PriceFits(prices[id], price, loan)
                  || (forall other | other in t && t[other].wallet == c.wallet && Provisional(t[other].loanId) ::
                        other == id))
            case Missing =>
              && (forall id | id in t && t[id].wallet == c.wallet && Provisional(t[id].loanId) ::
                    !PriceFits(prices[id], price, loan))
              && (forall id | id in t && t[id].wallet == c.wallet && Provisional(t[id].loanId) ::
                    exists other :: other in t && t[other].wallet == c.wallet && Provisional(t[other].loanId)
                                    && other != id)
            case _ => false
  {
    DecideFits(rows, t, c);
    var loan := M.MakeQuote(price as real / 100.0, interestRate, term).loanAmount;
    forall id | id in t && t[id].wallet == c.wallet && Provisional(t[id].loanId)
      ensures AmountMatches(t[id].amount, c.principal) <==> PriceFits(prices[id], price, loan)
    {
      RowMatchesQuoteExactlyWhen(prices[id], price, interestRate, term);
    }
    match Decide(rows, c)
    case Missing =>
      forall id | id in t && t[id].wallet == c.wallet && Provisional(t[id].loanId)
        ensures exists other :: other in t && t[other].wallet == c.wallet && Provisional(t[other].loanId)
                                && other != id
      {
        assert IsCandidate(t[id], c.wallet) && !Takes(t, c, id);
      }
    case _ =>
  }

  predicate PriceFits(amount: int, price: int, loan: int) {
    amount == loan || (amount == price && price % 5 == 0)
  }

  // In particular: among several provisional rows the one of that price is claimed
  // when five divides it, and none when it does not, unless another row's price is
  // the loan or the same.
  lemma ClaimedAmongSeveral(rows: seq<LoanSnapshot>, t: LoanTable, c: ChainLoan, prices: map<RowId, int>, id: RowId,
                            interestRate: real, term: nat)
    requires Enumerates(rows, t) && PricedInCents(t, c.wallet, prices) && !HasRow(t, c.loanId)
    requires id in t && t[id].wallet == c.wallet && Provisional(t[id].loanId) && prices[id] >= 100
    requires c.principal == M.MakeQuote(prices[id] as real / 100.0, interestRate, term).loanAmount as real / 100.0
    requires exists other :: other in t && t[other].wallet == c.wallet && Provisional(t[other].loanId) && other != id
    requires forall other | other in t && t[other].wallet == c.wallet && Provisional(t[other].loanId) && other != id ::
               && prices[other] != prices[id]
               && prices[other] != M.MakeQuote(prices[id] as real / 100.0, interestRate, term).loanAmount
    ensures Decide(rows, c) == if prices[id] % 5 == 0 then Claim(id) else Missing
  {
    var loan := M.MakeQuote(prices[id] as real / 100.0, interestRate, term).loanAmount;
    QuotedLoanIsFourFifths(prices[id], interestRate, term);
    assert loan != prices[id];
    ClaimsByPrice(rows, t, c, prices, prices[id], interestRate, term);
    assert forall other | other in t && t[other].wallet == c.wallet && Provisional(t[other].loanId) ::
        PriceFits(prices[other], prices[id], loan) <==> other == id && prices[id] % 5 == 0;
  }
}
