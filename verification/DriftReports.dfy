// The drift report of the state reconciliation job: which items a pass reports,
// how they are counted, and what that says of the tables and the chain.
module DriftReports {
  import opened Common
  import opened AuthoritativeReader
  import L = LoanReconciliation
  import T = TransactionReconciliation
  import B = BalanceReconciliation

  datatype DriftType =
    | MissingLoanRow
    | StaleLoanStatus
    | ProvisionalLoanId
    | OrphanedPendingTransaction
    | MissingTransactionRow
    | StaleLiquidityPosition
    | StaleReputation

  const DRIFT_TYPES: seq<DriftType> :=
    [MissingLoanRow, StaleLoanStatus, ProvisionalLoanId, OrphanedPendingTransaction,
     MissingTransactionRow, StaleLiquidityPosition, StaleReputation]

  datatype DriftItem = DriftItem(kind: DriftType, key: string, repaired: bool)

  datatype DriftReport = DriftReport(
    driftCount: nat,
    repairedCount: nat,
    byType: map<DriftType, nat>,
    items: seq<DriftItem>)

  // ------------------------------------------------------------------
  // What a pass reports
  // ------------------------------------------------------------------

  function LoanItem(d: L.Decision, c: L.ChainLoan, before: L.LoanTable): seq<DriftItem> {
    match d
    case UpToDate => []
    case StaleStatus(_) => [DriftItem(StaleLoanStatus, c.loanId, true)]
    case Claim(id) => [DriftItem(ProvisionalLoanId, if id in before then before[id].loanId else "", true)]
    case Missing => [DriftItem(MissingLoanRow, c.loanId, false)]
  }

  function LoanItems(ds: seq<L.Decision>, chain: seq<L.ChainLoan>, before: L.LoanTable, n: nat): seq<DriftItem>
    requires n <= |chain| == |ds|
  {
    if n == 0 then [] else LoanItems(ds, chain, before, n - 1) + LoanItem(ds[n - 1], chain[n - 1], before)
  }

  function SucceedItem(row: Option<T.TxSnapshot>, h: string): seq<DriftItem> {
    match row
    case None => [DriftItem(MissingTransactionRow, h, true)]
    case Some(r) => if r.status == T.Pending then [DriftItem(OrphanedPendingTransaction, h, true)] else []
  }

  function SucceedItems(rows: seq<T.TxSnapshot>, hs: seq<string>, n: nat): seq<DriftItem>
    requires n <= |hs|
  {
    if n == 0 then [] else SucceedItems(rows, hs, n - 1) + SucceedItem(T.RowFor(rows, hs[n - 1]), hs[n - 1])
  }

  function OrphanItems(rows: seq<T.TxSnapshot>, hs: seq<string>, now: int, n: nat): seq<DriftItem>
    requires n <= |rows|
  {
    if n == 0 then []
    else
      OrphanItems(rows, hs, now, n - 1) +
      if T.Orphaned(rows[n - 1], hs, now)
      then [DriftItem(OrphanedPendingTransaction, rows[n - 1].hash, true)] else []
  }

  function LiquidityItems(rows: seq<B.LiquiditySnapshot>, ps: seq<Position>, n: nat): seq<DriftItem>
    requires n <= |ps|
  {
    if n == 0 then []
    else
      LiquidityItems(rows, ps, n - 1) +
      if B.Stale(rows, ps[n - 1]) then [DriftItem(StaleLiquidityPosition, ps[n - 1].wallet, true)] else []
  }

  function ReputationItems(cache: B.ReputationCache, rs: seq<Reputation>, n: nat): seq<DriftItem>
    requires n <= |rs|
  {
    if n == 0 then []
    else
      var r := rs[n - 1];
      ReputationItems(cache, rs, n - 1) +
      if r.wallet !in cache then [DriftItem(StaleReputation, r.wallet, false)]
      else if cache[r.wallet] != r.score then [DriftItem(StaleReputation, r.wallet, true)]
      else []
  }

  // The lowercased chain hashes as a Set in insertion order.
  function LowerSet(hashes: seq<string>): seq<string> {
    if hashes == [] then []
    else Add(LowerSet(hashes[..|hashes| - 1]), T.Lower(hashes[|hashes| - 1]))
  }

  lemma {:induction false} LowerSetIsChainSet(hashes: seq<string>)
    requires "" !in hashes
    ensures T.ChainSet(LowerSet(hashes))
    ensures forall h :: h in LowerSet(hashes) <==> exists x :: x in hashes && T.Lower(x) == h
  {
    if hashes != [] {
      var last, front := hashes[|hashes| - 1], hashes[..|hashes| - 1];
      LowerSetIsChainSet(front);
      T.LowerIsIdempotent(last);
      assert |T.Lower(last)| == |last| && last in hashes;
      assert hashes == front + [last];
    }
  }

  method LowerHashes(hashes: seq<string>) returns (hs: seq<string>)
    ensures hs == LowerSet(hashes)
  {
    hs := [];
    for i := 0 to |hashes|
      invariant hs == LowerSet(hashes[..i])
    {
      hs := Add(hs, T.Lower(hashes[i]));
      assert hashes[..i + 1][..i] == hashes[..i];
    }
    assert hashes[..|hashes|] == hashes;
  }

  // ------------------------------------------------------------------
  // The counters of the report
  // ------------------------------------------------------------------

  ghost function Count(items: seq<DriftItem>, kind: DriftType, n: nat): nat
    requires n <= |items|
  {
    if n == 0 then 0 else Count(items, kind, n - 1) + if items[n - 1].kind == kind then 1 else 0
  }

  ghost function CountAll(items: seq<DriftItem>, kinds: seq<DriftType>, n: nat): nat
    requires n <= |items|
  {
    if kinds == [] then 0 else Count(items, kinds[0], n) + CountAll(items, kinds[1..], n)
  }

  // Only a loan without any row and a reputation without a cache row are left
  // unrepaired.
  ghost predicate Explained(item: DriftItem) {
    item.repaired || item.kind == MissingLoanRow || item.kind == StaleReputation
  }

  ghost function CountRepaired(items: seq<DriftItem>, n: nat): nat
    requires n <= |items|
  {
    if n == 0 then 0 else CountRepaired(items, n - 1) + if items[n - 1].repaired then 1 else 0
  }

  lemma {:induction false} ItemOfKind(items: seq<DriftItem>, kinds: seq<DriftType>, n: nat)
    requires 0 < n <= |items| && forall i, j | 0 <= i < j < |kinds| :: kinds[i] != kinds[j]
    ensures CountAll(items, kinds, n)
            == CountAll(items, kinds, n - 1) + if items[n - 1].kind in kinds then 1 else 0
  {
    if kinds != [] {
      ItemOfKind(items, kinds[1..], n);
    }
  }

  // The seven counters add up to the number of items.
  lemma {:induction false} CountersAddUp(items: seq<DriftItem>, n: nat)
    requires n <= |items|
    ensures CountAll(items, DRIFT_TYPES, n) == n
  {
    if n > 0 {
      CountersAddUp(items, n - 1);
      ItemOfKind(items, DRIFT_TYPES, n);
      assert items[n - 1].kind in DRIFT_TYPES by {
        EveryKindIsListed(items[n - 1].kind);
      }
    } else {
      NothingCounted(items, DRIFT_TYPES);
    }
  }

  lemma EveryKindIsListed(kind: DriftType)
    ensures kind in DRIFT_TYPES
  {
    match kind
    case MissingLoanRow => assert DRIFT_TYPES[0] == kind;
    case StaleLoanStatus => assert DRIFT_TYPES[1] == kind;
    case ProvisionalLoanId => assert DRIFT_TYPES[2] == kind;
    case OrphanedPendingTransaction => assert DRIFT_TYPES[3] == kind;
    case MissingTransactionRow => assert DRIFT_TYPES[4] == kind;
    case StaleLiquidityPosition => assert DRIFT_TYPES[5] == kind;
    case StaleReputation => assert DRIFT_TYPES[6] == kind;
  }

  lemma {:induction false} NothingCounted(items: seq<DriftItem>, kinds: seq<DriftType>)
    ensures CountAll(items, kinds, 0) == 0
  {
    if kinds != [] {
      NothingCounted(items, kinds[1..]);
    }
  }

  method CountByType(items: seq<DriftItem>) returns (byType: map<DriftType, nat>)
    ensures forall k :: k in byType && byType[k] == Count(items, k, |items|)
  {
    byType := map[MissingLoanRow := 0, StaleLoanStatus := 0, ProvisionalLoanId := 0, OrphanedPendingTransaction := 0,
                  MissingTransactionRow := 0, StaleLiquidityPosition := 0, StaleReputation := 0];
    forall k: DriftType
      ensures k in byType
    {
      match k {
        case MissingLoanRow => case StaleLoanStatus => case ProvisionalLoanId => case OrphanedPendingTransaction =>
        case MissingTransactionRow => case StaleLiquidityPosition => case StaleReputation =>
      }
    }
    for i := 0 to |items|
      invariant forall k :: k in byType && byType[k] == Count(items, k, i)
    {
      byType := byType[items[i].kind := byType[items[i].kind] + 1];
    }
  }

  // ------------------------------------------------------------------
  // Which items may appear
  // ------------------------------------------------------------------

  // A repair of a transaction, a liquidity position or a reputation.
  ghost predicate RepairsBalance(item: DriftItem) {
    item.repaired && item.kind != MissingLoanRow && item.kind != StaleLoanStatus && item.kind != ProvisionalLoanId
  }

  ghost predicate LoanKinds(items: seq<DriftItem>) {
    forall i | 0 <= i < |items| :: Explained(items[i]) && !RepairsBalance(items[i])
  }

  ghost predicate AllExplained(items: seq<DriftItem>) {
    forall i | 0 <= i < |items| :: Explained(items[i])
  }

  ghost predicate NoBalanceRepair(items: seq<DriftItem>) {
    forall i | 0 <= i < |items| :: !RepairsBalance(items[i])
  }

  lemma {:induction false} LoanItemsAreLoanKinds(ds: seq<L.Decision>, chain: seq<L.ChainLoan>, before: L.LoanTable,
                                                 n: nat)
    requires n <= |chain| == |ds|
    ensures LoanKinds(LoanItems(ds, chain, before, n))
  {
    if n > 0 {
      LoanItemsAreLoanKinds(ds, chain, before, n - 1);
    }
  }

  lemma SucceedItemExplained(row: Option<T.TxSnapshot>, h: string)
    ensures AllExplained(SucceedItem(row, h))
    ensures row.Some? && row.value.status != T.Pending ==> SucceedItem(row, h) == []
  {}

  lemma AppendExplained(a: seq<DriftItem>, b: seq<DriftItem>)
    requires AllExplained(a) && AllExplained(b)
    ensures AllExplained(a + b)
  {}

  lemma {:induction false} SucceedItemsExplained(rows: seq<T.TxSnapshot>, hs: seq<string>, n: nat)
    requires n <= |hs|
    ensures AllExplained(SucceedItems(rows, hs, n))
  {
    if n > 0 {
      SucceedItemsExplained(rows, hs, n - 1);
      SucceedItemExplained(T.RowFor(rows, hs[n - 1]), hs[n - 1]);
      AppendExplained(SucceedItems(rows, hs, n - 1), SucceedItem(T.RowFor(rows, hs[n - 1]), hs[n - 1]));
    }
  }

  lemma {:induction false} NothingToSucceed(rows: seq<T.TxSnapshot>, hs: seq<string>, n: nat)
    requires n <= |hs|
    requires forall k | 0 <= k < n :: T.RowFor(rows, hs[k]).Some? && T.RowFor(rows, hs[k]).value.status != T.Pending
    ensures SucceedItems(rows, hs, n) == []
  {
    if n > 0 {
      NothingToSucceed(rows, hs, n - 1);
      SucceedItemExplained(T.RowFor(rows, hs[n - 1]), hs[n - 1]);
    }
  }

  lemma {:induction false} OrphanItemsExplained(rows: seq<T.TxSnapshot>, hs: seq<string>, now: int, n: nat)
    requires n <= |rows|
    ensures AllExplained(OrphanItems(rows, hs, now, n))
  {
    if n > 0 {
      OrphanItemsExplained(rows, hs, now, n - 1);
      AppendExplained(OrphanItems(rows, hs, now, n - 1),
                      [DriftItem(OrphanedPendingTransaction, rows[n - 1].hash, true)]);
    }
  }

  lemma {:induction false} NothingOrphaned(rows: seq<T.TxSnapshot>, hs: seq<string>, now: int, n: nat)
    requires n <= |rows| && forall k | 0 <= k < n :: !T.Orphaned(rows[k], hs, now)
    ensures OrphanItems(rows, hs, now, n) == []
  {
    if n > 0 {
      NothingOrphaned(rows, hs, now, n - 1);
    }
  }

  lemma {:induction false} LiquidityItemsExplained(rows: seq<B.LiquiditySnapshot>, ps: seq<Position>, n: nat)
    requires n <= |ps|
    ensures AllExplained(LiquidityItems(rows, ps, n))
  {
    if n > 0 {
      LiquidityItemsExplained(rows, ps, n - 1);
      AppendExplained(LiquidityItems(rows, ps, n - 1), [DriftItem(StaleLiquidityPosition, ps[n - 1].wallet, true)]);
    }
  }

  lemma {:induction false} NothingStale(rows: seq<B.LiquiditySnapshot>, ps: seq<Position>, n: nat)
    requires n <= |ps| && forall k | 0 <= k < n :: !B.Stale(rows, ps[k])
    ensures LiquidityItems(rows, ps, n) == []
  {
    if n > 0 {
      NothingStale(rows, ps, n - 1);
    }
  }

  ghost predicate ScoresInStep(cache: B.ReputationCache, rs: seq<Reputation>) {
    forall k | 0 <= k < |rs| && rs[k].wallet in cache :: cache[rs[k].wallet] == rs[k].score
  }

  lemma {:induction false} ReputationItemsExplained(cache: B.ReputationCache, rs: seq<Reputation>, n: nat)
    requires n <= |rs|
    ensures AllExplained(ReputationItems(cache, rs, n))
    ensures ScoresInStep(cache, rs) ==> NoBalanceRepair(ReputationItems(cache, rs, n))
  {
    if n > 0 {
      ReputationItemsExplained(cache, rs, n - 1);
    }
  }

  lemma PassBringsScoresInStep(cache: B.ReputationCache, rs: seq<Reputation>)
    requires DistinctReputations(rs)
    ensures ScoresInStep(B.ScoresUpTo(cache, rs, |rs|), rs)
  {
    var after := B.ScoresUpTo(cache, rs, |rs|);
    forall k | 0 <= k < |rs| && rs[k].wallet in after
      ensures after[rs[k].wallet] == rs[k].score
    {
      B.ScoresFollowReputations(cache, rs, |rs|, rs[k].wallet);
    }
  }

  // The counts of a report are those of its items.
  ghost predicate Accounts(report: DriftReport) {
    var items := report.items;
    && report.driftCount == |items| == CountAll(items, DRIFT_TYPES, |items|)
    && (forall k :: k in report.byType && report.byType[k] == Count(items, k, |items|))
    && report.repairedCount == CountRepaired(items, |items|)
  }

  method MakeReport(items: seq<DriftItem>) returns (report: DriftReport)
    ensures report.items == items && Accounts(report)
  {
    var byType := CountByType(items);
    var repaired := 0;
    for i := 0 to |items|
      invariant repaired == CountRepaired(items, i)
    {
      if items[i].repaired {
        repaired := repaired + 1;
      }
    }
    CountersAddUp(items, |items|);
    report := DriftReport(|items|, repaired, byType, items);
  }
}
