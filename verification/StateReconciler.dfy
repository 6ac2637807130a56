// The state reconciliation job itself: an object that owns the four projections
// and drives them towards the authoritative state.
module StateReconciler {
  import opened Common
  import opened AuthoritativeReader
  import opened DriftContents
  import opened DriftReports
  import L = LoanReconciliation
  import T = TransactionReconciliation
  import B = BalanceReconciliation

  // ------------------------------------------------------------------
  // The job
  // ------------------------------------------------------------------

  class StateReconciliationProcessor {
    var loans: L.LoanTable
    var transactions: T.TxTable
    var liquidity: B.LiquidityTable
    var reputation: B.ReputationCache
    var isRunning: bool

    constructor (loans: L.LoanTable, transactions: T.TxTable, liquidity: B.LiquidityTable,
                 reputation: B.ReputationCache)
      ensures this.loans == loans && this.transactions == transactions
      ensures this.liquidity == liquidity && this.reputation == reputation && !isRunning
    {
      this.loans, this.transactions := loans, transactions;
      this.liquidity, this.reputation := liquidity, reputation;
      isRunning := false;
    }

    ghost function Tables(): Before
      reads this
    {
      Before(loans, transactions, liquidity, reputation)
    }

    // Database constraints and the shape of the two tables without one.
    ghost predicate Valid()
      reads this
    {
      && L.UniqueLoanIds(loans)
      && T.ValidTable(transactions) && T.UniqueKeys(transactions)
      && B.ValidTable(liquidity) && B.OneRowPerWallet(liquidity)
    }

    // The rows of a table, in an order that is not known.
    method FindLoans() returns (rows: seq<L.LoanSnapshot>)
      ensures L.Enumerates(rows, loans)
    {
      rows := [];
      var left := loans.Keys;
      while left != {}
        invariant left <= loans.Keys
        invariant forall i | 0 <= i < |rows| ::
                    rows[i].id in loans && rows[i].id !in left && loans[rows[i].id] == rows[i].row
        invariant forall id | id in loans && id !in left :: L.LoanSnapshot(id, loans[id]) in rows
        invariant L.DistinctIds(rows)
        decreases left
      {
        var id :| id in left;
        left := left - {id};
        rows := rows + [L.LoanSnapshot(id, loans[id])];
      }
    }

    method FindTransactions() returns (rows: seq<T.TxSnapshot>)
      ensures T.Enumerates(rows, transactions)
    {
      rows := [];
      var left := transactions.rows.Keys;
      while left != {}
        invariant left <= transactions.rows.Keys
        invariant forall i | 0 <= i < |rows| ::
                    && rows[i].id in transactions.rows && rows[i].id !in left
                    && T.SelectedHash(transactions.rows[rows[i].id]) == Some(rows[i].hash)
                    && transactions.rows[rows[i].id].status == rows[i].status
                    && transactions.rows[rows[i].id].submittedAt == rows[i].submittedAt
        invariant forall id | id in transactions.rows && id !in left && T.Key(transactions.rows[id]).Some? ::
                    exists i :: 0 <= i < |rows| && rows[i].id == id
        invariant forall i, j | 0 <= i < j < |rows| :: rows[i].id != rows[j].id
        decreases left
      {
        var id :| id in left;
        left := left - {id};
        var row := transactions.rows[id];
        var hash := T.SelectedHash(row);
        if hash.Some? {
          ghost var before := rows;
          rows := rows + [T.TxSnapshot(id, hash.value, row.status, row.submittedAt)];
          assert rows[|before|].id == id;
          assert forall i | 0 <= i < |before| :: rows[i] == before[i];
        }
      }
    }

    method FindPositions() returns (rows: seq<B.LiquiditySnapshot>)
      ensures B.Enumerates(rows, liquidity)
    {
      rows := [];
      var left := liquidity.rows.Keys;
      while left != {}
        invariant left <= liquidity.rows.Keys
        invariant forall i | 0 <= i < |rows| ::
                    rows[i].id in liquidity.rows && rows[i].id !in left && liquidity.rows[rows[i].id] == rows[i].row
        invariant forall id | id in liquidity.rows && id !in left :: exists i :: 0 <= i < |rows| && rows[i].id == id
        invariant forall i, j | 0 <= i < j < |rows| :: rows[i].id != rows[j].id
        decreases left
      {
        var id :| id in left;
        left := left - {id};
        ghost var before := rows;
        rows := rows + [B.LiquiditySnapshot(id, liquidity.rows[id])];
        assert rows[|before|].id == id;
        assert forall i | 0 <= i < |before| :: rows[i] == before[i];
      }
    }

    method ReconcileLoan(c: L.ChainLoan, rows: seq<L.LoanSnapshot>, ghost before: L.LoanTable, ghost d: L.Decision)
      returns (items: seq<DriftItem>)
      requires L.Enumerates(rows, before) && d == L.Decide(rows, c)
      modifies this`loans
      ensures loans == L.Apply(old(loans), d, c)
      ensures items == LoanItem(d, c, before)
    {
      var row := L.RowFor(rows, c.loanId);
      if row.Some? {
        if row.value.row.status != c.status {
          loans := L.UpdateStatus(loans, row.value.id, c.status);
          return [DriftItem(StaleLoanStatus, c.loanId, true)];
        }
        return [];
      }
      var found := L.Match(rows, c);
      if found.Some? {
        loans := L.ResolveProvisionalId(loans, found.value.id, c);
        L.MatchIsListed(rows, c);
        return [DriftItem(ProvisionalLoanId, found.value.row.loanId, true)];
      }
      return [DriftItem(MissingLoanRow, c.loanId, false)];
    }

    method ReconcileLoans(chain: seq<L.ChainLoan>, rows: seq<L.LoanSnapshot>) returns (items: seq<DriftItem>)
      requires L.Enumerates(rows, loans)
      modifies this`loans
      ensures loans == L.Pass(chain, L.Decisions(chain, rows), old(loans))
      ensures items == LoanItems(L.Decisions(chain, rows), chain, old(loans), |chain|) && LoanKinds(items)
      ensures L.UniqueLoanIds(old(loans)) && L.UniqueChainIds(chain) ==> L.UniqueLoanIds(loans)
    {
      items := [];
      ghost var before, ds := loans, L.Decisions(chain, rows);
      for i := 0 to |chain|
        invariant loans == L.PassUpTo(chain, ds, before, i)
        invariant items == LoanItems(ds, chain, before, i)
      {
        var more := ReconcileLoan(chain[i], rows, before, ds[i]);
        items := items + more;
      }
      LoanItemsAreLoanKinds(ds, chain, before, |chain|);
      if L.UniqueLoanIds(before) && L.UniqueChainIds(chain) {
        LoansKept(chain, rows, before);
      }
    }

    // Stops, and reports failure, at the first backfill that is refused.
    method SucceedOrBackfill(hs: seq<string>, rows: seq<T.TxSnapshot>, now: int, arbiter: bool)
      returns (items: seq<DriftItem>, completed: bool)
      modifies this`transactions
      ensures completed <==> T.Reached(rows, hs, arbiter) == |hs|
      ensures transactions == T.SucceedUpTo(old(transactions), rows, hs, now, T.Reached(rows, hs, arbiter))
      ensures items == SucceedItems(rows, hs, T.Reached(rows, hs, arbiter))
    {
      items := [];
      for i := 0 to |hs|
        invariant i <= T.Reached(rows, hs, arbiter)
        invariant transactions == T.SucceedUpTo(old(transactions), rows, hs, now, i)
        invariant items == SucceedItems(rows, hs, i)
      {
        var row := T.RowFor(rows, hs[i]);
        if row.None? {
          if !arbiter {
            return items, false;
          }
          transactions := T.Backfill(transactions, hs[i], now);
          items := items + [DriftItem(MissingTransactionRow, hs[i], true)];
        } else if row.value.status == T.Pending {
          transactions := T.SetStatus(transactions, row.value.id, T.Success);
          items := items + [DriftItem(OrphanedPendingTransaction, hs[i], true)];
        }
      }
      completed := true;
    }

    method FailOrphans(hs: seq<string>, rows: seq<T.TxSnapshot>, now: int) returns (items: seq<DriftItem>)
      modifies this`transactions
      ensures transactions == T.OrphanUpTo(old(transactions), rows, hs, now, |rows|)
      ensures items == OrphanItems(rows, hs, now, |rows|)
    {
      items := [];
      for i := 0 to |rows|
        invariant transactions == T.OrphanUpTo(old(transactions), rows, hs, now, i)
        invariant items == OrphanItems(rows, hs, now, i)
      {
        if T.Orphaned(rows[i], hs, now) {
          transactions := T.SetStatus(transactions, rows[i].id, T.Failed);
          items := items + [DriftItem(OrphanedPendingTransaction, rows[i].hash, true)];
        }
      }
    }

    method ReconcileTransactions(hashes: seq<string>, rows: seq<T.TxSnapshot>, now: int, arbiter: bool)
      returns (items: seq<DriftItem>, completed: bool)
      requires "" !in hashes && T.Enumerates(rows, transactions)
      requires T.ValidTable(transactions) && T.UniqueKeys(transactions)
      modifies this`transactions
      ensures T.Outcome(transactions, completed) == T.Attempt(old(transactions), rows, LowerSet(hashes), now, arbiter)
      ensures T.ValidTable(transactions) && T.UniqueKeys(transactions)
      ensures completed ==>
                && items == SucceedItems(rows, LowerSet(hashes), |LowerSet(hashes)|)
                            + OrphanItems(rows, LowerSet(hashes), now, |rows|)
                && T.InStep(transactions, LowerSet(hashes), now) && AllExplained(items)
      ensures T.InStep(old(transactions), LowerSet(hashes), now) ==> completed && items == []
    {
      var hs := LowerHashes(hashes);
      TransactionsKept(hashes, rows, old(transactions), now, arbiter);
      TxItems(hashes, rows, old(transactions), now, arbiter);
      items, completed := SucceedOrBackfill(hs, rows, now, arbiter);
      if !completed {
        return;
      }
      var orphaned := FailOrphans(hs, rows, now);
      items := items + orphaned;
    }

    method ReconcileLiquidity(ps: seq<Position>) returns (items: seq<DriftItem>, ghost read: seq<B.LiquiditySnapshot>)
      requires DistinctWallets(ps) && B.ValidTable(liquidity) && B.OneRowPerWallet(liquidity)
      modifies this`liquidity
      ensures B.Enumerates(read, old(liquidity)) && liquidity == B.PassUpTo(old(liquidity), read, ps, |ps|)
      ensures items == LiquidityItems(read, ps, |ps|) && AllExplained(items)
      ensures B.ValidTable(liquidity) && B.OneRowPerWallet(liquidity) && B.InStep(liquidity, ps)
      ensures B.InStep(old(liquidity), ps) ==> items == []
    {
      var rows := FindPositions();
      read := rows;
      items := [];
      for i := 0 to |ps|
        invariant liquidity == B.PassUpTo(old(liquidity), rows, ps, i)
        invariant items == LiquidityItems(rows, ps, i)
      {
        var row := B.RowFor(rows, ps[i].wallet);
        if row.None? || row.value.row.amount != ps[i].amount {
          var payload := B.LiquidityRow(ps[i].wallet, ps[i].amount);
          if row.Some? {
            if row.value.id in liquidity.rows {
              liquidity := liquidity.(rows := liquidity.rows[row.value.id := payload]);
            }
          } else {
            liquidity := B.LiquidityTable(liquidity.rows[liquidity.nextId := payload], liquidity.nextId + 1);
          }
          items := items + [DriftItem(StaleLiquidityPosition, ps[i].wallet, true)];
        }
      }
      B.PassKeepsOneRowPerWallet(old(liquidity), rows, ps);
      B.PassBringsInStep(old(liquidity), rows, ps);
      PositionItems(ps, rows, old(liquidity));
    }

    method ReconcileReputation(rs: seq<Reputation>) returns (items: seq<DriftItem>)
      requires DistinctReputations(rs)
      modifies this`reputation
      ensures reputation == B.ScoresUpTo(old(reputation), rs, |rs|)
      ensures items == ReputationItems(old(reputation), rs, |rs|) && AllExplained(items)
      ensures ScoresInStep(reputation, rs)
      ensures ScoresInStep(old(reputation), rs) ==> NoBalanceRepair(items)
    {
      items := [];
      var snapshot := reputation;
      for i := 0 to |rs|
        invariant reputation == B.ScoresUpTo(old(reputation), rs, i)
        invariant items == ReputationItems(old(reputation), rs, i)
      {
        B.ScoresFollowReputations(old(reputation), rs, i, rs[i].wallet);
        if rs[i].wallet !in snapshot {
          items := items + [DriftItem(StaleReputation, rs[i].wallet, false)];
        } else if snapshot[rs[i].wallet] != rs[i].score {
          reputation := reputation[rs[i].wallet := rs[i].score];
          items := items + [DriftItem(StaleReputation, rs[i].wallet, true)];
        }
      }
      PassBringsScoresInStep(old(reputation), rs);
      ReputationItemsExplained(old(reputation), rs, |rs|);
    }

    // The transactions, positions and scores agree with the chain; nothing is
    // left to repair there.
    ghost predicate InStep(chain: AuthoritativeState, now: int)
      reads this
    {
      && T.InStep(transactions, LowerSet(chain.hashes), now)
      && B.InStep(liquidity, chain.positions)
      && ScoresInStep(reputation, chain.reputations)
    }

    // One whole job against a given authoritative state.  A job that is cut short
    // by a refused backfill reports nothing; it has been through the loans, and
    // positions and scores are not reached.
    method Reconcile(chain: AuthoritativeState, now: int, arbiter: bool) returns (report: Option<DriftReport>)
      requires "" !in chain.hashes && DistinctWallets(chain.positions) && DistinctReputations(chain.reputations)
      requires Valid() && L.UniqueChainIds(chain.loans)
      modifies this`loans, this`transactions, this`liquidity, this`reputation
      ensures Valid() && LoansPassed(old(loans), chain.loans, loans)
      ensures TransactionsAttempted(old(transactions), chain.hashes, now, arbiter, transactions, report.Some?)
      ensures report.None? ==> liquidity == old(liquidity) && reputation == old(reputation)
      ensures report.Some? ==>
                && InStep(chain, now)
                && PositionsPassed(old(liquidity), chain.positions, liquidity)
                && reputation == B.ScoresUpTo(old(reputation), chain.reputations, |chain.reputations|)
                && Tells(report.value, old(Tables()), transactions, chain)
      ensures old(InStep(chain, now)) ==> report.Some? && NoBalanceRepair(report.value.items)
    {
      ghost var before, inStep := Tables(), InStep(chain, now);
      var loanRows := FindLoans();
      var txRows := FindTransactions();
      var loanItems := ReconcileLoans(chain.loans, loanRows);
      assert LoansPassed(before.loans, chain.loans, loans);
      var txItems, completed := ReconcileTransactions(chain.hashes, txRows, now, arbiter);
      assert TransactionsAttempted(before.transactions, chain.hashes, now, arbiter, transactions, completed);
      if !completed {
        return None;
      }
      ghost var txAfter := transactions;
      assert inStep ==> txItems == [];
      var positionItems, positionRows := ReconcileLiquidity(chain.positions);
      assert inStep ==> positionItems == [];
      assert PositionsPassed(before.liquidity, chain.positions, liquidity);
      var scoreItems := ReconcileReputation(chain.reputations);
      var full := AssembleReport(loanItems, txItems, positionItems, scoreItems, before,
                                 Snapshots(loanRows, txRows, positionRows), txAfter, chain, now);
      report := Some(full);
    }

    // Two jobs in a row against the same chain and at the same clock: both
    // complete or neither does, and the second one repairs no transaction, no
    // position and no score.
    method ReconcileTwice(chain: AuthoritativeState, now: int, arbiter: bool)
      returns (first: Option<DriftReport>, second: Option<DriftReport>)
      requires "" !in chain.hashes && DistinctWallets(chain.positions) && DistinctReputations(chain.reputations)
      requires Valid() && L.UniqueChainIds(chain.loans)
      modifies this`loans, this`transactions, this`liquidity, this`reputation
      ensures Valid() && (first.Some? <==> second.Some?)
      ensures second.Some? ==> InStep(chain, now) && NoBalanceRepair(second.value.items)
    {
      ghost var start := transactions;
      first := Reconcile(chain, now, arbiter);
      ghost var middle := transactions;
      second := Reconcile(chain, now, arbiter);
      if first.None? {
        AbortedAgain(start, middle, chain.hashes, now, arbiter, transactions, second.Some?);
      }
    }

    // The job as it is scheduled, from the rows of the four index tables; a job
    // that finds another one running does nothing.
    method RunScheduled(loanIndex: seq<LoanIndexRow>, investments: seq<InvestmentRow>, history: seq<HistoryRow>,
                        payments: seq<string>, now: int, arbiter: bool) returns (completed: bool)
      requires Valid()
      requires forall i, j | 0 <= i < j < |loanIndex| :: loanIndex[i].loanId != loanIndex[j].loanId
      modifies this
      ensures Valid() && isRunning == old(isRunning)
      ensures old(isRunning) ==> !completed && loans == old(loans) && transactions == old(transactions)
                                 && liquidity == old(liquidity) && reputation == old(reputation)
      ensures !old(isRunning) ==>
                && (completed <==> arbiter || IndexCovered(old(transactions), loanIndex, history, payments))
                && StatusesIndexedExactlyWhen(old(loans), loanIndex, loans)
                && (OrdinaryIds(loanIndex) ==> StatusesIndexed(loanIndex, loans))
                && (forall i, id | Awaited(old(loans), loanIndex, i, id) && Unrivalled(old(loans), loanIndex, i) ::
                      id in loans && loans[id].loanId == loanIndex[i].loanId
                      && loans[id].wallet == loanIndex[i].wallet)
      ensures !old(isRunning) && !completed ==> liquidity == old(liquidity) && reputation == old(reputation)
      ensures completed ==>
                && (forall w | Invests(investments, w, |investments|) ::
                      HoldsExactly(liquidity, w, Invested(investments, w, |investments|)))
                && (forall k | 0 <= k < |history| && history[k].wallet in reputation ::
                      ScoreTaken(history, history[k].wallet, reputation[history[k].wallet]))
                && (forall h | Mentions(loanIndex, history, payments, h) :: T.Covered(transactions, T.Lower(h)))
    {
      if isRunning {
        return false;
      }
      isRunning := true;
      var chain := Read(loanIndex, investments, history, payments);
      ghost var before, tx := loans, transactions;
      var report := Reconcile(chain, now, arbiter);
      completed := report.Some?;
      isRunning := false;
      StatusesWereIndexed(before, loanIndex, loans);
      AwaitedRowsWereResolved(before, loanIndex, loans);
      CompletedExactlyWhenCovered(tx, chain.hashes, loanIndex, history, payments, now, arbiter, transactions,
                                  completed);
      if completed {
        InvestorsHold(investments, chain.positions, liquidity);
        ScoresWereTaken(history, chain.reputations, reputation);
        HashesCovered(transactions, chain.hashes, loanIndex, history, payments, now);
      }
    }
  }

  // ------------------------------------------------------------------
  // One pass of each part, over a snapshot in some order
  // ------------------------------------------------------------------

  ghost predicate LoansPassed(before: L.LoanTable, chain: seq<L.ChainLoan>, after: L.LoanTable) {
    exists rows :: L.Enumerates(rows, before) && after == L.Pass(chain, L.Decisions(chain, rows), before)
  }

  ghost predicate TransactionsAttempted(before: T.TxTable, hashes: seq<string>, now: int, arbiter: bool,
                                        after: T.TxTable, completed: bool) {
    exists rows ::
      && T.Enumerates(rows, before)
      && T.Outcome(after, completed) == T.Attempt(before, rows, LowerSet(hashes), now, arbiter)
  }

  ghost predicate PositionsPassed(before: B.LiquidityTable, ps: seq<Position>, after: B.LiquidityTable) {
    exists rows :: B.Enumerates(rows, before) && after == B.PassUpTo(before, rows, ps, |ps|)
  }

  // ------------------------------------------------------------------
  // Pieces of the proof of the job
  // ------------------------------------------------------------------

  lemma LoansKept(chain: seq<L.ChainLoan>, rows: seq<L.LoanSnapshot>, before: L.LoanTable)
    requires L.Enumerates(rows, before) && L.UniqueLoanIds(before) && L.UniqueChainIds(chain)
    ensures L.UniqueLoanIds(L.Pass(chain, L.Decisions(chain, rows), before))
  {
    L.DecisionsFit(rows, before, chain);
    L.LoanIdsStayUnique(chain, L.Decisions(chain, rows), before, |chain|);
  }

  lemma TransactionsKept(hashes: seq<string>, rows: seq<T.TxSnapshot>, before: T.TxTable, now: int, arbiter: bool)
    requires "" !in hashes && T.ValidTable(before) && T.UniqueKeys(before) && T.Enumerates(rows, before)
    ensures var after := T.Attempt(before, rows, LowerSet(hashes), now, arbiter);
            && T.ValidTable(after.table) && T.UniqueKeys(after.table)
            && (after.completed ==> T.InStep(after.table, LowerSet(hashes), now))
  {
    if T.Attempt(before, rows, LowerSet(hashes), now, arbiter).completed {
      LowerSetIsChainSet(hashes);
      T.PassKeepsTableValid(before, rows, LowerSet(hashes), now);
      T.PassKeepsKeysUnique(before, rows, LowerSet(hashes), now);
      T.PassBringsInStep(before, rows, LowerSet(hashes), now);
    } else {
      T.AbortKeepsTable(before, rows, LowerSet(hashes), now);
    }
  }

  lemma TxItems(hashes: seq<string>, rows: seq<T.TxSnapshot>, before: T.TxTable, now: int, arbiter: bool)
    requires T.UniqueKeys(before) && T.Enumerates(rows, before)
    ensures var hs := LowerSet(hashes);
            var items := SucceedItems(rows, hs, |hs|) + OrphanItems(rows, hs, now, |rows|);
            && AllExplained(items)
            && (T.InStep(before, hs, now) ==> items == [] && T.Attempt(before, rows, hs, now, arbiter).completed)
  {
    var hs := LowerSet(hashes);
    SucceedItemsExplained(rows, hs, |hs|);
    OrphanItemsExplained(rows, hs, now, |rows|);
    if T.InStep(before, hs, now) {
      T.InStepMeansNoDrift(before, rows, hs, now);
      NothingToSucceed(rows, hs, |hs|);
      NothingOrphaned(rows, hs, now, |rows|);
      T.InStepCompletes(before, rows, hs, now, arbiter);
    }
  }

  // Every indexed hash has a row already.
  ghost predicate IndexCovered(t: T.TxTable, loanIndex: seq<LoanIndexRow>, history: seq<HistoryRow>,
                               payments: seq<string>) {
    forall h | Mentions(loanIndex, history, payments, h) :: T.HasRow(t, T.Lower(h))
  }

  lemma CompletedExactlyWhenCovered(before: T.TxTable, hashes: seq<string>, loanIndex: seq<LoanIndexRow>,
                                    history: seq<HistoryRow>, payments: seq<string>, now: int, arbiter: bool,
                                    after: T.TxTable, completed: bool)
    requires T.UniqueKeys(before) && TransactionsAttempted(before, hashes, now, arbiter, after, completed)
    requires "" !in hashes && forall h :: h in hashes <==> Mentions(loanIndex, history, payments, h)
    ensures completed <==> arbiter || IndexCovered(before, loanIndex, history, payments)
  {
    var hs := LowerSet(hashes);
    var rows :| T.Enumerates(rows, before) && T.Outcome(after, completed) == T.Attempt(before, rows, hs, now, arbiter);
    T.CompletesExactlyWhen(before, rows, hs, now, arbiter);
    LowerSetIsChainSet(hashes);
    if IndexCovered(before, loanIndex, history, payments) {
      forall k | 0 <= k < |hs| ensures T.HasRow(before, hs[k]) {
        assert hs[k] in hs;
        var x :| x in hashes && T.Lower(x) == hs[k];
      }
    }
    if forall k | 0 <= k < |hs| :: T.HasRow(before, hs[k]) {
      forall h | Mentions(loanIndex, history, payments, h) ensures T.HasRow(before, T.Lower(h)) {
        assert T.Lower(h) in hs;
      }
    }
  }

  lemma AbortedAgain(start: T.TxTable, middle: T.TxTable, hashes: seq<string>, now: int, arbiter: bool,
                     end: T.TxTable, completed: bool)
    requires T.ValidTable(start) && T.UniqueKeys(start) && T.UniqueKeys(middle)
    requires TransactionsAttempted(start, hashes, now, arbiter, middle, false)
    requires TransactionsAttempted(middle, hashes, now, arbiter, end, completed)
    ensures !completed
  {
    var hs := LowerSet(hashes);
    var rows :| T.Enumerates(rows, start) && T.Outcome(middle, false) == T.Attempt(start, rows, hs, now, arbiter);
    var again :| T.Enumerates(again, middle) && T.Outcome(end, completed) == T.Attempt(middle, again, hs, now, arbiter);
    T.AbortPersists(start, rows, hs, now, again, hs, now);
  }

  lemma HashesCovered(t: T.TxTable, hashes: seq<string>, loanIndex: seq<LoanIndexRow>, history: seq<HistoryRow>,
                      payments: seq<string>, now: int)
    requires "" !in hashes && T.InStep(t, LowerSet(hashes), now)
    requires forall h :: h in hashes <==> Mentions(loanIndex, history, payments, h)
    ensures forall h | Mentions(loanIndex, history, payments, h) :: T.Covered(t, T.Lower(h))
  {
    LowerSetIsChainSet(hashes);
    forall h | Mentions(loanIndex, history, payments, h)
      ensures T.Covered(t, T.Lower(h))
    {
      assert T.Lower(h) in LowerSet(hashes);
    }
  }

  lemma PositionItems(ps: seq<Position>, rows: seq<B.LiquiditySnapshot>, before: B.LiquidityTable)
    requires B.Enumerates(rows, before) && B.OneRowPerWallet(before)
    ensures AllExplained(LiquidityItems(rows, ps, |ps|))
    ensures B.InStep(before, ps) ==> LiquidityItems(rows, ps, |ps|) == []
  {
    LiquidityItemsExplained(rows, ps, |ps|);
    if B.InStep(before, ps) {
      forall k | 0 <= k < |ps|
        ensures !B.Stale(rows, ps[k])
      {
        B.InStepMeansNothingStale(before, rows, ps, k);
      }
      NothingStale(rows, ps, |ps|);
    }
  }

  // The wallet has exactly one row, and it holds the amount.
  ghost predicate HoldsExactly(t: B.LiquidityTable, wallet: string, amount: real) {
    exists id :: && id in t.rows && t.rows[id] == B.LiquidityRow(wallet, amount)
                 && forall other | other in t.rows && t.rows[other].wallet == wallet :: other == id
  }

  ghost predicate OrdinaryIds(loanIndex: seq<LoanIndexRow>) {
    forall i | 0 <= i < |loanIndex| :: !L.Provisional(loanIndex[i].loanId)
  }

  // Every loan row that the index knows has the indexed status.
  ghost predicate StatusesIndexed(loanIndex: seq<LoanIndexRow>, loans: L.LoanTable) {
    forall id, i | id in loans && 0 <= i < |loanIndex| && loanIndex[i].loanId == loans[id].loanId ::
      loans[id].status == loanIndex[i].status
  }

  // The loans went through one pass, and the statuses agree with the index after
  // it exactly when that pass overtook no row.
  ghost predicate StatusesIndexedExactlyWhen(before: L.LoanTable, loanIndex: seq<LoanIndexRow>, after: L.LoanTable) {
    exists rows ::
      && L.Enumerates(rows, before)
      && after == L.Pass(ChainLoans(loanIndex), L.Decisions(ChainLoans(loanIndex), rows), before)
      && (StatusesIndexed(loanIndex, after)
          <==> L.NoneOvertaken(ChainLoans(loanIndex), L.Decisions(ChainLoans(loanIndex), rows)))
  }

  ghost predicate Awaiting(t: L.LoanTable, wallet: string, id: L.RowId) {
    id in t && L.Provisional(t[id].loanId) && t[id].wallet == wallet
  }

  // The amount of the row is the principal, or the principal four fifths of it.
  ghost predicate Amounts(row: L.LoanRow, principal: real) {
    || -0.000001 < row.amount - principal < 0.000001
    || -0.000001 < row.amount * 0.8 - principal < 0.000001
  }

  // An indexed loan has no row under its id, and `id` is the one provisional row of
  // its wallet, or the one of them with a matching amount.
  ghost predicate Awaited(t: L.LoanTable, loanIndex: seq<LoanIndexRow>, i: int, id: L.RowId) {
    && 0 <= i < |loanIndex| && Awaiting(t, loanIndex[i].wallet, id)
    && (forall other | other in t :: t[other].loanId != loanIndex[i].loanId)
    && (|| (forall other | Awaiting(t, loanIndex[i].wallet, other) :: other == id)
        || (Amounts(t[id], loanIndex[i].principal)
            && forall other | Awaiting(t, loanIndex[i].wallet, other) && other != id ::
                 !Amounts(t[other], loanIndex[i].principal)))
  }

  // Every other indexed loan of the wallet has a row already.
  ghost predicate Unrivalled(t: L.LoanTable, loanIndex: seq<LoanIndexRow>, i: int) {
    0 <= i < |loanIndex| &&
    forall j | 0 <= j < |loanIndex| && j != i && loanIndex[j].wallet == loanIndex[i].wallet ::
      exists other :: other in t && t[other].loanId == loanIndex[j].loanId
  }

  lemma AwaitedRowsWereResolved(before: L.LoanTable, loanIndex: seq<LoanIndexRow>, after: L.LoanTable)
    requires LoansPassed(before, ChainLoans(loanIndex), after)
    ensures forall i, id | Awaited(before, loanIndex, i, id) && Unrivalled(before, loanIndex, i) ::
              id in after && after[id].loanId == loanIndex[i].loanId && after[id].wallet == loanIndex[i].wallet
  {
    var chain := ChainLoans(loanIndex);
    var rows :| L.Enumerates(rows, before) && after == L.Pass(chain, L.Decisions(chain, rows), before);
    L.DecisionsFit(rows, before, chain);
    forall i, id | Awaited(before, loanIndex, i, id) && Unrivalled(before, loanIndex, i)
      ensures id in after && after[id].loanId == loanIndex[i].loanId && after[id].wallet == loanIndex[i].wallet
    {
      AwaitedIsClaimed(before, loanIndex, L.Decisions(chain, rows), i, id);
      L.RowSettles(chain, L.Decisions(chain, rows), before, |chain|, id);
      L.RowAfter(chain, L.Decisions(chain, rows), before, |chain|, id);
    }
  }

  // It is claimed by that loan and by no other.
  lemma AwaitedIsTaken(t: L.LoanTable, loanIndex: seq<LoanIndexRow>, i: int, id: L.RowId)
    requires Awaited(t, loanIndex, i, id)
    ensures L.Takes(t, ChainLoans(loanIndex)[i], id)
    ensures forall other | other in t && L.Takes(t, ChainLoans(loanIndex)[i], other) :: other == id
  {
    var loan := ChainLoans(loanIndex)[i];
    assert ReadAs(loanIndex[i], loan);
    forall other | other in t
      ensures L.IsCandidate(t[other], loan.wallet) <==> Awaiting(t, loanIndex[i].wallet, other)
    {}
    forall other | other in t && L.Takes(t, loan, other) ensures other == id {
      assert Awaiting(t, loanIndex[i].wallet, other);
    }
  }

  lemma AwaitedIsClaimed(t: L.LoanTable, loanIndex: seq<LoanIndexRow>, ds: seq<L.Decision>, i: int, id: L.RowId)
    requires L.AllFit(t, ChainLoans(loanIndex), ds)
    requires Awaited(t, loanIndex, i, id) && Unrivalled(t, loanIndex, i)
    ensures L.LastClaim(ds, |ds|, i, id)
  {
    var chain := ChainLoans(loanIndex);
    AwaitedIsTaken(t, loanIndex, i, id);
    assert L.Fits(t, chain[i], ds[i]) && ReadAs(loanIndex[i], chain[i]);
    assert ds[i].Claim? && L.Takes(t, chain[i], ds[i].id);
    forall j | i < j < |ds| ensures !L.Claims(ds, j, id) {
      assert L.Fits(t, chain[j], ds[j]) && ReadAs(loanIndex[j], chain[j]);
    }
  }

  lemma StatusesWereIndexed(before: L.LoanTable, loanIndex: seq<LoanIndexRow>, after: L.LoanTable)
    requires LoansPassed(before, ChainLoans(loanIndex), after)
    requires L.UniqueLoanIds(before) && L.UniqueChainIds(ChainLoans(loanIndex))
    ensures StatusesIndexedExactlyWhen(before, loanIndex, after)
    ensures OrdinaryIds(loanIndex) ==> StatusesIndexed(loanIndex, after)
  {
    var chain := ChainLoans(loanIndex);
    var rows :| L.Enumerates(rows, before) && after == L.Pass(chain, L.Decisions(chain, rows), before);
    L.DecisionsFit(rows, before, chain);
    L.StatusesAgreeExactlyWhen(chain, L.Decisions(chain, rows), before);
    assert L.StatusesAgree(chain, after) <==> StatusesIndexed(loanIndex, after) by {
      forall i | 0 <= i < |chain|
        ensures chain[i].loanId == loanIndex[i].loanId && chain[i].status == loanIndex[i].status
      {}
    }
    if OrdinaryIds(loanIndex) {
      L.StatusesAgreeAfterPass(chain, L.Decisions(chain, rows), before);
    }
  }

  // The score of the wallet's first history row in query order; under the order
  // the database gives, that row is the latest exactly when all have a ledger.
  ghost predicate ScoreTaken(history: seq<HistoryRow>, wallet: string, score: int) {
    exists i: nat | i < |history| ::
      && TakenFrom(Reputation(wallet, score), history, i)
      && (DescendingNullsFirst(history) ==> (Latest(history, i) <==> AllLedgered(history, wallet)))
  }

  lemma InvestorsHold(investments: seq<InvestmentRow>, ps: seq<Position>, t: B.LiquidityTable)
    requires PositionsOf(ps, investments, |investments|) && B.OneRowPerWallet(t) && B.InStep(t, ps)
    ensures forall w | Invests(investments, w, |investments|) ::
              HoldsExactly(t, w, Invested(investments, w, |investments|))
  {
    forall w | Invests(investments, w, |investments|)
      ensures HoldsExactly(t, w, Invested(investments, w, |investments|))
    {
      assert Holds(ps, w);
      var i :| 0 <= i < |ps| && ps[i].wallet == w;
      assert B.HoldsPosition(t, ps[i]);
      var id :| id in t.rows && t.rows[id] == B.LiquidityRow(ps[i].wallet, ps[i].amount);
    }
  }

  lemma ScoresWereTaken(history: seq<HistoryRow>, rs: seq<Reputation>, cache: B.ReputationCache)
    requires ReputationsOf(rs, history, |history|) && ScoresInStep(cache, rs)
    ensures forall k | 0 <= k < |history| && history[k].wallet in cache ::
              ScoreTaken(history, history[k].wallet, cache[history[k].wallet])
  {
    forall k | 0 <= k < |history| && history[k].wallet in cache
      ensures ScoreTaken(history, history[k].wallet, cache[history[k].wallet])
    {
      assert Scored(rs, history[k].wallet);
      var i :| 0 <= i < |rs| && rs[i].wallet == history[k].wallet;
      assert TakenBefore(rs[i], history, |history|);
      var taken: nat :| taken < |history| && TakenFrom(rs[i], history, taken);
      if DescendingNullsFirst(history) {
        TakenIsLatestExactlyWhen(rs[i], history, taken);
      }
    }
  }
}
