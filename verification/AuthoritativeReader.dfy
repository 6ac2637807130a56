// Folding the indexed chain tables into one authoritative state.
module AuthoritativeReader {
  import opened Common
  import opened LoanReconciliation

  datatype LoanIndexRow =
    LoanIndexRow(loanId: string, wallet: string, status: string, principal: real, txHash: Option<string>)

  datatype InvestmentRow = InvestmentRow(wallet: string, amount: real)

  datatype HistoryRow = HistoryRow(wallet: string, newScore: int, txHash: Option<string>, ledger: Option<int>)

  datatype Position = Position(wallet: string, amount: real)

  datatype Reputation = Reputation(wallet: string, score: int)

  datatype AuthoritativeState = AuthoritativeState(
    loans: seq<ChainLoan>,
    positions: seq<Position>,
    reputations: seq<Reputation>,
    hashes: seq<string>)

  // ------------------------------------------------------------------
  // What the folds mean
  // ------------------------------------------------------------------

  // What a wallet invested in the first `n` rows.
  ghost function Invested(rows: seq<InvestmentRow>, wallet: string, n: nat): real
    requires n <= |rows|
  {
    if n == 0 then 0.0
    else Invested(rows, wallet, n - 1) + if rows[n - 1].wallet == wallet then rows[n - 1].amount else 0.0
  }

  ghost function TotalInvested(rows: seq<InvestmentRow>, n: nat): real
    requires n <= |rows|
  {
    if n == 0 then 0.0 else TotalInvested(rows, n - 1) + rows[n - 1].amount
  }

  ghost function TotalHeld(ps: seq<Position>): real {
    if ps == [] then 0.0 else TotalHeld(ps[..|ps| - 1]) + ps[|ps| - 1].amount
  }

  ghost predicate Invests(rows: seq<InvestmentRow>, wallet: string, n: nat)
    requires n <= |rows|
  {
    exists i :: 0 <= i < n && rows[i].wallet == wallet
  }

  ghost predicate Holds(ps: seq<Position>, wallet: string) {
    exists i :: 0 <= i < |ps| && ps[i].wallet == wallet
  }

  ghost predicate DistinctWallets(ps: seq<Position>) {
    forall i, j | 0 <= i < j < |ps| :: ps[i].wallet != ps[j].wallet
  }

  // One position per wallet that invests in the first `n` rows, holding what it
  // invested there.
  ghost predicate PositionsOf(ps: seq<Position>, rows: seq<InvestmentRow>, n: nat)
    requires n <= |rows|
  {
    && DistinctWallets(ps)
    && (forall w :: Holds(ps, w) <==> Invests(rows, w, n))
    && (forall i | 0 <= i < |ps| :: ps[i].amount == Invested(rows, ps[i].wallet, n))
  }

  // Row `k` is the first row of its wallet in the order the query returns, and
  // the score was taken from it.
  ghost predicate TakenFrom(r: Reputation, rows: seq<HistoryRow>, k: nat) {
    && k < |rows| && r == Reputation(rows[k].wallet, rows[k].newScore)
    && forall j | 0 <= j < k :: rows[j].wallet != rows[k].wallet
  }

  ghost predicate TakenBefore(r: Reputation, rows: seq<HistoryRow>, n: nat) {
    exists k: nat | k < n :: TakenFrom(r, rows, k)
  }

  ghost predicate Scored(rs: seq<Reputation>, wallet: string) {
    exists i :: 0 <= i < |rs| && rs[i].wallet == wallet
  }

  ghost predicate DistinctReputations(rs: seq<Reputation>) {
    forall i, j | 0 <= i < j < |rs| :: rs[i].wallet != rs[j].wallet
  }

  ghost predicate ReputationsOf(rs: seq<Reputation>, rows: seq<HistoryRow>, n: nat)
    requires n <= |rows|
  {
    && DistinctReputations(rs)
    && (forall i | 0 <= i < |rs| :: TakenBefore(rs[i], rows, n))
    && (forall k | 0 <= k < n :: Scored(rs, rows[k].wallet))
  }

  ghost predicate Mentions(loans: seq<LoanIndexRow>, history: seq<HistoryRow>, payments: seq<string>, h: string) {
    && h != ""
    && (|| (exists i :: 0 <= i < |loans| && loans[i].txHash == Some(h))
        || (exists i :: 0 <= i < |history| && history[i].txHash == Some(h))
        || h in payments)
  }

  ghost predicate DistinctStrings(hs: seq<string>) {
    forall i, j | 0 <= i < j < |hs| :: hs[i] != hs[j]
  }

  // ------------------------------------------------------------------
  // The loops
  // ------------------------------------------------------------------

  // A Set in insertion order.
  function Add(hs: seq<string>, h: string): (r: seq<string>)
    ensures DistinctStrings(hs) ==> DistinctStrings(r)
    ensures forall x :: x in r <==> x in hs || x == h
  {
    if h in hs then hs else hs + [h]
  }

  function AddTruthy(hs: seq<string>, h: Option<string>): (r: seq<string>)
    ensures DistinctStrings(hs) ==> DistinctStrings(r)
    ensures forall x :: x in r <==> x in hs || (h == Some(x) && x != "")
  {
    if h.Some? && h.value != "" then Add(hs, h.value) else hs
  }

  method CollectHashes(loans: seq<LoanIndexRow>, history: seq<HistoryRow>, payments: seq<string>)
    returns (hashes: seq<string>)
    ensures DistinctStrings(hashes)
    ensures forall h :: h in hashes <==> Mentions(loans, history, payments, h)
  {
    hashes := [];
    for i := 0 to |loans|
      invariant DistinctStrings(hashes)
      invariant forall h :: h in hashes <==> h != "" && exists k :: 0 <= k < i && loans[k].txHash == Some(h)
    {
      hashes := AddTruthy(hashes, loans[i].txHash);
    }
    ghost var fromLoans := hashes;
    for i := 0 to |history|
      invariant DistinctStrings(hashes)
      invariant forall h :: h in hashes <==>
        h in fromLoans || (h != "" && exists k :: 0 <= k < i && history[k].txHash == Some(h))
    {
      hashes := AddTruthy(hashes, history[i].txHash);
    }
    ghost var fromHistory := hashes;
    for i := 0 to |payments|
      invariant DistinctStrings(hashes)
      invariant forall h :: h in hashes <==> h in fromHistory || (h != "" && h in payments[..i])
    {
      hashes := AddTruthy(hashes, Some(payments[i]));
      assert payments[..i + 1] == payments[..i] + [payments[i]];
    }
    assert payments[..|payments|] == payments;
  }

  // The entry of a wallet in a Map kept in insertion order, or its length.
  method Find<T>(xs: seq<T>, walletOf: T -> string, wallet: string) returns (k: nat)
    ensures k <= |xs|
    ensures k < |xs| ==> walletOf(xs[k]) == wallet
    ensures k == |xs| ==> forall i | 0 <= i < |xs| :: walletOf(xs[i]) != wallet
  {
    k := 0;
    while k < |xs| && walletOf(xs[k]) != wallet
      invariant k <= |xs|
      invariant forall i | 0 <= i < k :: walletOf(xs[i]) != wallet
    {
      k := k + 1;
    }
  }

  // The Map of sums per wallet, in insertion order.
  method SumPerWallet(rows: seq<InvestmentRow>) returns (ps: seq<Position>)
    ensures PositionsOf(ps, rows, |rows|)
    ensures TotalHeld(ps) == TotalInvested(rows, |rows|)
  {
    ps := [];
    for i := 0 to |rows|
      invariant PositionsOf(ps, rows, i)
      invariant TotalHeld(ps) == TotalInvested(rows, i)
    {
      var k := Find(ps, (p: Position) => p.wallet, rows[i].wallet);
      if k < |ps| {
        KnownWallet(ps, rows, i, k);
        ps := ps[k := ps[k].(amount := ps[k].amount + rows[i].amount)];
      } else {
        NewWallet(ps, rows, i);
        ps := ps + [Position(rows[i].wallet, 0.0 + rows[i].amount)];
      }
    }
  }

  lemma KnownWallet(ps: seq<Position>, rows: seq<InvestmentRow>, n: nat, k: nat)
    requires n < |rows| && k < |ps| && PositionsOf(ps, rows, n) && ps[k].wallet == rows[n].wallet
    ensures var next := ps[k := ps[k].(amount := ps[k].amount + rows[n].amount)];
            PositionsOf(next, rows, n + 1) && TotalHeld(next) == TotalHeld(ps) + rows[n].amount
  {
    var next := ps[k := ps[k].(amount := ps[k].amount + rows[n].amount)];
    TotalAfterUpdate(ps, k, ps[k].amount + rows[n].amount);
    forall w
      ensures Holds(next, w) <==> Invests(rows, w, n + 1)
    {
      assert Holds(ps, w) <==> Invests(rows, w, n);
      if Holds(ps, w) {
        var i :| 0 <= i < |ps| && ps[i].wallet == w;
        assert next[i].wallet == w;
      }
    }
  }

  lemma NewWallet(ps: seq<Position>, rows: seq<InvestmentRow>, n: nat)
    requires n < |rows| && PositionsOf(ps, rows, n) && !Holds(ps, rows[n].wallet)
    ensures var next := ps + [Position(rows[n].wallet, 0.0 + rows[n].amount)];
            PositionsOf(next, rows, n + 1) && TotalHeld(next) == TotalHeld(ps) + rows[n].amount
  {
    var next := ps + [Position(rows[n].wallet, 0.0 + rows[n].amount)];
    NothingInvested(rows, rows[n].wallet, n);
    assert next[..|ps|] == ps;
    forall w
      ensures Holds(next, w) <==> Invests(rows, w, n + 1)
    {
      assert Holds(ps, w) <==> Invests(rows, w, n);
      if Holds(ps, w) {
        var i :| 0 <= i < |ps| && ps[i].wallet == w;
        assert next[i].wallet == w;
      }
      assert next[|ps|].wallet == rows[n].wallet;
    }
  }

  lemma {:induction false} NothingInvested(rows: seq<InvestmentRow>, wallet: string, n: nat)
    requires n <= |rows| && !Invests(rows, wallet, n)
    ensures Invested(rows, wallet, n) == 0.0
  {
    if n > 0 {
      assert rows[n - 1].wallet != wallet;
      NothingInvested(rows, wallet, n - 1);
    }
  }

  lemma {:induction false} TotalAfterUpdate(ps: seq<Position>, k: nat, amount: real)
    requires k < |ps|
    ensures TotalHeld(ps[k := ps[k].(amount := amount)]) == TotalHeld(ps) - ps[k].amount + amount
  {
    var last, next := |ps| - 1, ps[k := ps[k].(amount := amount)];
    if k < last {
      TotalAfterUpdate(ps[..last], k, amount);
      assert next[..last] == ps[..last][k := ps[k].(amount := amount)];
    } else {
      assert next[..last] == ps[..last];
    }
  }

  // The Map of scores per wallet: the first row of each wallet wins.
  method LatestPerWallet(rows: seq<HistoryRow>) returns (rs: seq<Reputation>)
    ensures ReputationsOf(rs, rows, |rows|)
  {
    rs := [];
    for i := 0 to |rows|
      invariant ReputationsOf(rs, rows, i)
    {
      var k := Find(rs, (r: Reputation) => r.wallet, rows[i].wallet);
      assert forall r :: TakenBefore(r, rows, i) ==> TakenBefore(r, rows, i + 1);
      if k == |rs| {
        NewReputation(rs, rows, i);
        rs := rs + [Reputation(rows[i].wallet, rows[i].newScore)];
      }
    }
  }

  lemma NewReputation(rs: seq<Reputation>, rows: seq<HistoryRow>, n: nat)
    requires n < |rows| && ReputationsOf(rs, rows, n)
    requires forall i | 0 <= i < |rs| :: rs[i].wallet != rows[n].wallet
    ensures ReputationsOf(rs + [Reputation(rows[n].wallet, rows[n].newScore)], rows, n + 1)
  {
    var next := rs + [Reputation(rows[n].wallet, rows[n].newScore)];
    forall k | 0 <= k < n
      ensures Scored(next, rows[k].wallet) && rows[k].wallet != rows[n].wallet
    {
      var i :| 0 <= i < |rs| && rs[i].wallet == rows[k].wallet;
      assert next[i].wallet == rows[k].wallet;
    }
    assert next[|rs|].wallet == rows[n].wallet;
    assert TakenFrom(next[|rs|], rows, n);
    forall i | 0 <= i < |next|
      ensures TakenBefore(next[i], rows, n + 1)
    {
      assert i < |rs| ==> TakenBefore(rs[i], rows, n);
    }
  }

  predicate ReadAs(row: LoanIndexRow, c: ChainLoan) {
    && c.loanId == row.loanId && c.wallet == row.wallet && c.status == row.status
    && c.principal == row.principal && c.txHash == row.txHash
  }

  function ChainLoans(loans: seq<LoanIndexRow>): (chain: seq<ChainLoan>)
    ensures |chain| == |loans|
    ensures forall i | 0 <= i < |loans| :: ReadAs(loans[i], chain[i])
  {
    seq(|loans|, i requires 0 <= i < |loans| =>
      ChainLoan(loans[i].loanId, loans[i].wallet, loans[i].status, loans[i].principal, loans[i].txHash))
  }

  // The whole read, from the rows the four queries return.
  method Read(loans: seq<LoanIndexRow>, investments: seq<InvestmentRow>, history: seq<HistoryRow>,
              payments: seq<string>)
    returns (state: AuthoritativeState)
    ensures state.loans == ChainLoans(loans)
    ensures |state.loans| == |loans| && forall i | 0 <= i < |loans| :: ReadAs(loans[i], state.loans[i])
    ensures PositionsOf(state.positions, investments, |investments|)
    ensures TotalHeld(state.positions) == TotalInvested(investments, |investments|)
    ensures ReputationsOf(state.reputations, history, |history|)
    ensures DistinctStrings(state.hashes)
    ensures forall h :: h in state.hashes <==> Mentions(loans, history, payments, h)
  {
    var reputations := LatestPerWallet(history);
    var hashes := CollectHashes(loans, history, payments);
    var positions := SumPerWallet(investments);
    state := AuthoritativeState(ChainLoans(loans), positions, reputations, hashes);
  }

  // ------------------------------------------------------------------
  // Is the score that is read the latest one?
  // ------------------------------------------------------------------

  // `order by ledger_sequence desc`: PostgreSQL sorts NULL before every number.
  ghost predicate DescendingNullsFirst(rows: seq<HistoryRow>) {
    forall i, j | 0 <= i < j < |rows| && rows[i].ledger.Some? ::
      rows[j].ledger.Some? && rows[i].ledger.value >= rows[j].ledger.value
  }

  // Row `i` carries a ledger and no row of its wallet a later one.
  ghost predicate Latest(rows: seq<HistoryRow>, i: nat)
    requires i < |rows|
  {
    && rows[i].ledger.Some?
    && forall k | 0 <= k < |rows| && rows[k].wallet == rows[i].wallet && rows[k].ledger.Some? ::
         rows[k].ledger.value <= rows[i].ledger.value
  }

  ghost predicate AllLedgered(rows: seq<HistoryRow>, wallet: string) {
    forall k | 0 <= k < |rows| && rows[k].wallet == wallet :: rows[k].ledger.Some?
  }

  // The score taken for a wallet is its latest one exactly when every history
  // row of the wallet carries a ledger.
  lemma TakenIsLatestExactlyWhen(r: Reputation, rows: seq<HistoryRow>, i: nat)
    requires DescendingNullsFirst(rows) && TakenFrom(r, rows, i)
    ensures Latest(rows, i) <==> AllLedgered(rows, r.wallet)
  {
    forall k | 0 <= k < |rows| && rows[k].wallet == r.wallet
      ensures k >= i
    {}
  }
}
