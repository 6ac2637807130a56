// What a drift report says of the tables and the chain: which items it has, and
// how many of each kind, in terms of the tables before and after the job.
module DriftContents {
  import opened Common
  import opened AuthoritativeReader
  import opened DriftReports
  import L = LoanReconciliation
  import T = TransactionReconciliation
  import B = BalanceReconciliation

  // ------------------------------------------------------------------
  // Counting in a list of items
  // ------------------------------------------------------------------

  ghost function Total(items: seq<DriftItem>, kind: DriftType): nat {
    Count(items, kind, |items|)
  }

  ghost predicate NoneOf(items: seq<DriftItem>, kind: DriftType) {
    forall item | item in items :: item.kind != kind
  }

  lemma {:induction false} CountOfPrefix(a: seq<DriftItem>, b: seq<DriftItem>, kind: DriftType, n: nat)
    requires n <= |a|
    ensures Count(a + b, kind, n) == Count(a, kind, n)
  {
    if n > 0 {
      CountOfPrefix(a, b, kind, n - 1);
    }
  }

  lemma {:induction false} CountOfConcat(a: seq<DriftItem>, b: seq<DriftItem>, kind: DriftType, n: nat)
    requires n <= |b|
    ensures Count(a + b, kind, |a| + n) == Total(a, kind) + Count(b, kind, n)
  {
    if n == 0 {
      CountOfPrefix(a, b, kind, |a|);
    } else {
      CountOfConcat(a, b, kind, n - 1);
    }
  }

  lemma TotalOfConcat(a: seq<DriftItem>, b: seq<DriftItem>, kind: DriftType)
    ensures Total(a + b, kind) == Total(a, kind) + Total(b, kind)
  {
    CountOfConcat(a, b, kind, |b|);
  }

  lemma {:induction false} NoneMeansZero(items: seq<DriftItem>, kind: DriftType, n: nat)
    requires n <= |items| && NoneOf(items, kind)
    ensures Count(items, kind, n) == 0
  {
    if n > 0 {
      NoneMeansZero(items, kind, n - 1);
    }
  }

  // The two lists have the same items of the kind, and as many.
  ghost predicate SameOf(items: seq<DriftItem>, all: seq<DriftItem>, kind: DriftType) {
    && Total(items, kind) == Total(all, kind)
    && forall item: DriftItem | item.kind == kind :: item in items <==> item in all
  }

  lemma PartOfReport(a: seq<DriftItem>, part: seq<DriftItem>, b: seq<DriftItem>, kind: DriftType)
    requires NoneOf(a, kind) && NoneOf(b, kind)
    ensures SameOf(part, a + part + b, kind)
  {
    TotalOfConcat(a + part, b, kind);
    TotalOfConcat(a, part, kind);
    NoneMeansZero(a, kind, |a|);
    NoneMeansZero(b, kind, |b|);
  }

  // A list put together from turns, of at most one item each.
  function Flat(turns: seq<seq<DriftItem>>): seq<DriftItem> {
    if turns == [] then [] else Flat(turns[..|turns| - 1]) + turns[|turns| - 1]
  }

  predicate Reports(turn: seq<DriftItem>, kind: DriftType) {
    turn != [] && turn[0].kind == kind
  }

  // The turns with an item of the kind.
  ghost function Turns(turns: seq<seq<DriftItem>>, kind: DriftType): set<nat> {
    set k: nat | k < |turns| && Reports(turns[k], kind)
  }

  lemma {:induction false} FlatHasTurns(turns: seq<seq<DriftItem>>, item: DriftItem)
    ensures item in Flat(turns) <==> exists k: nat :: k < |turns| && item in turns[k]
  {
    if turns != [] {
      FlatHasTurns(turns[..|turns| - 1], item);
    }
  }

  lemma TurnOf(turns: seq<seq<DriftItem>>, item: DriftItem) returns (k: nat)
    requires forall i | 0 <= i < |turns| :: |turns[i]| <= 1
    ensures item in Flat(turns) ==> k < |turns| && turns[k] == [item]
  {
    k := 0;
    if item in Flat(turns) {
      FlatHasTurns(turns, item);
      k :| k < |turns| && item in turns[k];
    }
  }

  lemma ItemOfTurn(turns: seq<seq<DriftItem>>, k: nat)
    requires k < |turns| && turns[k] != []
    ensures turns[k][0] in Flat(turns)
  {
    FlatHasTurns(turns, turns[k][0]);
  }

  lemma {:induction false} FlatCountsTurns(turns: seq<seq<DriftItem>>, kind: DriftType)
    requires forall k | 0 <= k < |turns| :: |turns[k]| <= 1
    ensures Total(Flat(turns), kind) == |Turns(turns, kind)|
  {
    if turns == [] {
      assert Turns(turns, kind) == {};
    } else {
      var front, last := turns[..|turns| - 1], turns[|turns| - 1];
      FlatCountsTurns(front, kind);
      TotalOfConcat(Flat(front), last, kind);
      TotalOfOne(last, kind);
      OneMoreTurn(front, last, kind);
      assert turns == front + [last];
    }
  }

  lemma OneMoreTurn(front: seq<seq<DriftItem>>, last: seq<DriftItem>, kind: DriftType)
    ensures |Turns(front + [last], kind)| == |Turns(front, kind)| + if Reports(last, kind) then 1 else 0
  {
    assert Turns(front + [last], kind) == Turns(front, kind) + if Reports(last, kind) then {|front|} else {};
  }

  lemma TotalOfOne(items: seq<DriftItem>, kind: DriftType)
    requires |items| <= 1
    ensures Total(items, kind) == if items != [] && items[0].kind == kind then 1 else 0
  {
    if items != [] {
      assert Count(items, kind, 0) == 0;
    }
  }

  // ------------------------------------------------------------------
  // Loans
  // ------------------------------------------------------------------

  // The chain loans whose row has another status, those without a row that have a
  // provisional one to take, and those without either.
  ghost predicate StaleLoan(t: L.LoanTable, c: L.ChainLoan) {
    exists id :: id in t && t[id].loanId == c.loanId && t[id].status != c.status
  }

  ghost predicate ClaimableLoan(t: L.LoanTable, c: L.ChainLoan) {
    (forall id | id in t :: t[id].loanId != c.loanId) && exists id :: id in t && L.Takes(t, c, id)
  }

  ghost predicate MissingLoan(t: L.LoanTable, c: L.ChainLoan) {
    (forall id | id in t :: t[id].loanId != c.loanId) && forall id | id in t :: !L.Takes(t, c, id)
  }

  ghost function StaleLoans(t: L.LoanTable, chain: seq<L.ChainLoan>): set<nat> {
    set k: nat | k < |chain| && StaleLoan(t, chain[k])
  }

  ghost function ClaimableLoans(t: L.LoanTable, chain: seq<L.ChainLoan>): set<nat> {
    set k: nat | k < |chain| && ClaimableLoan(t, chain[k])
  }

  ghost function MissingLoans(t: L.LoanTable, chain: seq<L.ChainLoan>): set<nat> {
    set k: nat | k < |chain| && MissingLoan(t, chain[k])
  }

  // The item of a claim names the id that the row had.
  ghost predicate ClaimItem(item: DriftItem, t: L.LoanTable, c: L.ChainLoan) {
    exists id :: id in t && L.Takes(t, c, id) && item == DriftItem(ProvisionalLoanId, t[id].loanId, true)
  }

  ghost predicate StaleItemsMean(items: seq<DriftItem>, t: L.LoanTable, chain: seq<L.ChainLoan>) {
    forall item: DriftItem | item.kind == StaleLoanStatus ::
      item in items
      <==> exists k :: k in StaleLoans(t, chain) && item == DriftItem(StaleLoanStatus, chain[k].loanId, true)
  }

  ghost predicate MissingItemsMean(items: seq<DriftItem>, t: L.LoanTable, chain: seq<L.ChainLoan>) {
    forall item: DriftItem | item.kind == MissingLoanRow ::
      item in items
      <==> exists k :: k in MissingLoans(t, chain) && item == DriftItem(MissingLoanRow, chain[k].loanId, false)
  }

  ghost predicate ClaimItemsMean(items: seq<DriftItem>, t: L.LoanTable, chain: seq<L.ChainLoan>) {
    && (forall k | k in ClaimableLoans(t, chain) :: exists item :: item in items && ClaimItem(item, t, chain[k]))
    && (forall item | item in items && item.kind == ProvisionalLoanId ::
          exists k :: k in ClaimableLoans(t, chain) && ClaimItem(item, t, chain[k]))
  }

  ghost predicate LoansReported(items: seq<DriftItem>, t: L.LoanTable, chain: seq<L.ChainLoan>) {
    && Total(items, StaleLoanStatus) == |StaleLoans(t, chain)|
    && Total(items, ProvisionalLoanId) == |ClaimableLoans(t, chain)|
    && Total(items, MissingLoanRow) == |MissingLoans(t, chain)|
    && StaleItemsMean(items, t, chain) && MissingItemsMean(items, t, chain) && ClaimItemsMean(items, t, chain)
  }

  // What one decision is about.
  lemma DecisionIsReported(t: L.LoanTable, c: L.ChainLoan, d: L.Decision)
    requires L.UniqueLoanIds(t) && L.Fits(t, c, d)
    ensures d.StaleStatus? <==> StaleLoan(t, c)
    ensures d.Claim? <==> ClaimableLoan(t, c)
    ensures d.Missing? <==> MissingLoan(t, c)
    ensures d.Claim? ==> ClaimItem(LoanItem(d, c, t)[0], t, c)
  {
    L.StatusIsDecided(t, c, d);
    assert L.HasRow(t, c.loanId) <==> exists id :: id in t && t[id].loanId == c.loanId;
  }

  function LoanTurns(ds: seq<L.Decision>, chain: seq<L.ChainLoan>, t: L.LoanTable, n: nat): seq<seq<DriftItem>>
    requires n <= |chain| == |ds|
  {
    seq(n, k requires 0 <= k < n => LoanItem(ds[k], chain[k], t))
  }

  lemma {:induction false} LoanItemsAreFlat(ds: seq<L.Decision>, chain: seq<L.ChainLoan>, t: L.LoanTable, n: nat)
    requires n <= |chain| == |ds|
    ensures LoanItems(ds, chain, t, n) == Flat(LoanTurns(ds, chain, t, n))
  {
    if n > 0 {
      LoanItemsAreFlat(ds, chain, t, n - 1);
      assert LoanTurns(ds, chain, t, n)[..n - 1] == LoanTurns(ds, chain, t, n - 1);
    }
  }

  lemma LoanItemsReported(ds: seq<L.Decision>, chain: seq<L.ChainLoan>, t: L.LoanTable)
    requires L.AllFit(t, chain, ds) && L.UniqueLoanIds(t)
    ensures LoansReported(LoanItems(ds, chain, t, |chain|), t, chain)
  {
    var turns := LoanTurns(ds, chain, t, |chain|);
    LoanItemsAreFlat(ds, chain, t, |chain|);
    forall k: nat | k < |chain| ensures LoanTurnFits(turns[k], t, chain[k]) {
      assert L.Fits(t, chain[k], ds[k]);
      DecisionIsReported(t, chain[k], ds[k]);
    }
    LoanTurnsCounted(turns, t, chain);
    StaleTurnsReported(turns, t, chain);
    MissingTurnsReported(turns, t, chain);
    ClaimTurnsReported(turns, t, chain);
  }

  // The item of one turn, in terms of the table.
  ghost predicate LoanTurnFits(turn: seq<DriftItem>, t: L.LoanTable, c: L.ChainLoan) {
    && |turn| <= 1
    && (StaleLoan(t, c) <==> Reports(turn, StaleLoanStatus))
    && (MissingLoan(t, c) <==> Reports(turn, MissingLoanRow))
    && (ClaimableLoan(t, c) <==> Reports(turn, ProvisionalLoanId))
    && (StaleLoan(t, c) ==> turn == [DriftItem(StaleLoanStatus, c.loanId, true)])
    && (MissingLoan(t, c) ==> turn == [DriftItem(MissingLoanRow, c.loanId, false)])
    && (ClaimableLoan(t, c) ==> ClaimItem(turn[0], t, c))
  }

  lemma LoanTurnsCounted(turns: seq<seq<DriftItem>>, t: L.LoanTable, chain: seq<L.ChainLoan>)
    requires |turns| == |chain| && forall k: nat | k < |chain| :: LoanTurnFits(turns[k], t, chain[k])
    ensures Total(Flat(turns), StaleLoanStatus) == |StaleLoans(t, chain)|
    ensures Total(Flat(turns), ProvisionalLoanId) == |ClaimableLoans(t, chain)|
    ensures Total(Flat(turns), MissingLoanRow) == |MissingLoans(t, chain)|
  {
    FlatCountsTurns(turns, StaleLoanStatus);
    FlatCountsTurns(turns, ProvisionalLoanId);
    FlatCountsTurns(turns, MissingLoanRow);
    assert Turns(turns, StaleLoanStatus) == StaleLoans(t, chain);
    assert Turns(turns, ProvisionalLoanId) == ClaimableLoans(t, chain);
    assert Turns(turns, MissingLoanRow) == MissingLoans(t, chain);
  }

  ghost predicate LoanTurnsFit(turns: seq<seq<DriftItem>>, t: L.LoanTable, chain: seq<L.ChainLoan>) {
    |turns| == |chain| && forall k: nat | k < |chain| :: LoanTurnFits(turns[k], t, chain[k])
  }

  lemma StaleTurnsReported(turns: seq<seq<DriftItem>>, t: L.LoanTable, chain: seq<L.ChainLoan>)
    requires LoanTurnsFit(turns, t, chain)
    ensures StaleItemsMean(Flat(turns), t, chain)
  {
    forall item: DriftItem | item.kind == StaleLoanStatus
      ensures item in Flat(turns)
              <==> exists k :: k in StaleLoans(t, chain) && item == DriftItem(StaleLoanStatus, chain[k].loanId, true)
    {
      var k := TurnOf(turns, item);
      if item in Flat(turns) {
        assert LoanTurnFits(turns[k], t, chain[k]) && k in StaleLoans(t, chain);
      }
      if k :| k in StaleLoans(t, chain) && item == DriftItem(StaleLoanStatus, chain[k].loanId, true) {
        assert LoanTurnFits(turns[k], t, chain[k]);
        ItemOfTurn(turns, k);
      }
    }
  }

  lemma MissingTurnsReported(turns: seq<seq<DriftItem>>, t: L.LoanTable, chain: seq<L.ChainLoan>)
    requires LoanTurnsFit(turns, t, chain)
    ensures MissingItemsMean(Flat(turns), t, chain)
  {
    forall item: DriftItem | item.kind == MissingLoanRow
      ensures item in Flat(turns)
              <==> exists k :: k in MissingLoans(t, chain) && item == DriftItem(MissingLoanRow, chain[k].loanId, false)
    {
      var k := TurnOf(turns, item);
      if item in Flat(turns) {
        assert LoanTurnFits(turns[k], t, chain[k]) && k in MissingLoans(t, chain);
      }
      if k :| k in MissingLoans(t, chain) && item == DriftItem(MissingLoanRow, chain[k].loanId, false) {
        assert LoanTurnFits(turns[k], t, chain[k]);
        ItemOfTurn(turns, k);
      }
    }
  }

  lemma ClaimTurnsReported(turns: seq<seq<DriftItem>>, t: L.LoanTable, chain: seq<L.ChainLoan>)
    requires LoanTurnsFit(turns, t, chain)
    ensures ClaimItemsMean(Flat(turns), t, chain)
  {
    forall item | item in Flat(turns) && item.kind == ProvisionalLoanId
      ensures exists k :: k in ClaimableLoans(t, chain) && ClaimItem(item, t, chain[k])
    {
      var k := TurnOf(turns, item);
      assert LoanTurnFits(turns[k], t, chain[k]) && k in ClaimableLoans(t, chain);
    }
    forall k | k in ClaimableLoans(t, chain)
      ensures exists item :: item in Flat(turns) && ClaimItem(item, t, chain[k])
    {
      assert LoanTurnFits(turns[k], t, chain[k]);
      ItemOfTurn(turns, k);
    }
  }

  // ------------------------------------------------------------------
  // Positions and scores
  // ------------------------------------------------------------------

  ghost predicate StalePosition(t: B.LiquidityTable, p: Position) {
    forall id | id in t.rows :: t.rows[id] != B.LiquidityRow(p.wallet, p.amount)
  }

  ghost function StalePositions(t: B.LiquidityTable, ps: seq<Position>): set<nat> {
    set k: nat | k < |ps| && StalePosition(t, ps[k])
  }

  ghost predicate PositionsReported(items: seq<DriftItem>, t: B.LiquidityTable, ps: seq<Position>) {
    && Total(items, StaleLiquidityPosition) == |StalePositions(t, ps)|
    && forall item: DriftItem | item.kind == StaleLiquidityPosition ::
         item in items
         <==> exists k :: k in StalePositions(t, ps) && item == DriftItem(StaleLiquidityPosition, ps[k].wallet, true)
  }

  function PositionTurns(rows: seq<B.LiquiditySnapshot>, ps: seq<Position>, n: nat): seq<seq<DriftItem>>
    requires n <= |ps|
  {
    seq(n, k requires 0 <= k < n =>
      if B.Stale(rows, ps[k]) then [DriftItem(StaleLiquidityPosition, ps[k].wallet, true)] else [])
  }

  lemma {:induction false} LiquidityItemsAreFlat(rows: seq<B.LiquiditySnapshot>, ps: seq<Position>, n: nat)
    requires n <= |ps|
    ensures LiquidityItems(rows, ps, n) == Flat(PositionTurns(rows, ps, n))
  {
    if n > 0 {
      LiquidityItemsAreFlat(rows, ps, n - 1);
      assert PositionTurns(rows, ps, n)[..n - 1] == PositionTurns(rows, ps, n - 1);
    }
  }

  lemma StaleExactlyWhen(rows: seq<B.LiquiditySnapshot>, t: B.LiquidityTable, p: Position)
    requires B.Enumerates(rows, t) && B.OneRowPerWallet(t)
    ensures B.Stale(rows, p) <==> StalePosition(t, p)
  {
    if id :| id in t.rows && t.rows[id] == B.LiquidityRow(p.wallet, p.amount) {
      B.LookupFindsWallet(rows, t, p.wallet, id);
    }
    if !B.Stale(rows, p) {
      var i :| 0 <= i < |rows| && rows[i] == B.RowFor(rows, p.wallet).value;
      assert t.rows[rows[i].id] == B.LiquidityRow(p.wallet, p.amount);
    }
  }

  lemma PositionItemsReported(rows: seq<B.LiquiditySnapshot>, t: B.LiquidityTable, ps: seq<Position>)
    requires B.Enumerates(rows, t) && B.OneRowPerWallet(t)
    ensures PositionsReported(LiquidityItems(rows, ps, |ps|), t, ps)
  {
    var turns := PositionTurns(rows, ps, |ps|);
    LiquidityItemsAreFlat(rows, ps, |ps|);
    forall k: nat | k < |ps| ensures PositionTurnFits(turns[k], t, ps[k]) {
      StaleExactlyWhen(rows, t, ps[k]);
    }
    PositionTurnsReported(turns, t, ps);
  }

  ghost predicate PositionTurnFits(turn: seq<DriftItem>, t: B.LiquidityTable, p: Position) {
    turn == if StalePosition(t, p) then [DriftItem(StaleLiquidityPosition, p.wallet, true)] else []
  }

  lemma PositionTurnsReported(turns: seq<seq<DriftItem>>, t: B.LiquidityTable, ps: seq<Position>)
    requires |turns| == |ps| && forall k: nat | k < |ps| :: PositionTurnFits(turns[k], t, ps[k])
    ensures PositionsReported(Flat(turns), t, ps)
  {
    FlatCountsTurns(turns, StaleLiquidityPosition);
    assert Turns(turns, StaleLiquidityPosition) == StalePositions(t, ps);
    forall item: DriftItem | item.kind == StaleLiquidityPosition
      ensures item in Flat(turns)
              <==> exists k :: k in StalePositions(t, ps)
                               && item == DriftItem(StaleLiquidityPosition, ps[k].wallet, true)
    {
      var k := TurnOf(turns, item);
      if item in Flat(turns) {
        assert PositionTurnFits(turns[k], t, ps[k]) && k in StalePositions(t, ps);
      }
      if k :| k in StalePositions(t, ps) && item == DriftItem(StaleLiquidityPosition, ps[k].wallet, true) {
        assert PositionTurnFits(turns[k], t, ps[k]);
        ItemOfTurn(turns, k);
      }
    }
  }

  predicate StaleScore(cache: B.ReputationCache, r: Reputation) {
    r.wallet !in cache || cache[r.wallet] != r.score
  }

  ghost function StaleScores(cache: B.ReputationCache, rs: seq<Reputation>): set<nat> {
    set k: nat | k < |rs| && StaleScore(cache, rs[k])
  }

  // An item is unrepaired when the wallet has no cache row.
  ghost predicate ScoresReported(items: seq<DriftItem>, cache: B.ReputationCache, rs: seq<Reputation>) {
    && Total(items, StaleReputation) == |StaleScores(cache, rs)|
    && forall item: DriftItem | item.kind == StaleReputation ::
         item in items
         <==> exists k :: k in StaleScores(cache, rs)
                          && item == DriftItem(StaleReputation, rs[k].wallet, rs[k].wallet in cache)
  }

  function ScoreTurns(cache: B.ReputationCache, rs: seq<Reputation>, n: nat): seq<seq<DriftItem>>
    requires n <= |rs|
  {
    seq(n, k requires 0 <= k < n =>
      if StaleScore(cache, rs[k]) then [DriftItem(StaleReputation, rs[k].wallet, rs[k].wallet in cache)] else [])
  }

  lemma {:induction false} ReputationItemsAreFlat(cache: B.ReputationCache, rs: seq<Reputation>, n: nat)
    requires n <= |rs|
    ensures ReputationItems(cache, rs, n) == Flat(ScoreTurns(cache, rs, n))
  {
    if n > 0 {
      ReputationItemsAreFlat(cache, rs, n - 1);
      assert ScoreTurns(cache, rs, n)[..n - 1] == ScoreTurns(cache, rs, n - 1);
    }
  }

  lemma ScoreItemsReported(cache: B.ReputationCache, rs: seq<Reputation>)
    ensures ScoresReported(ReputationItems(cache, rs, |rs|), cache, rs)
  {
    var turns := ScoreTurns(cache, rs, |rs|);
    ReputationItemsAreFlat(cache, rs, |rs|);
    FlatCountsTurns(turns, StaleReputation);
    assert Turns(turns, StaleReputation) == StaleScores(cache, rs);
    forall item: DriftItem | item.kind == StaleReputation
      ensures item in Flat(turns)
              <==> exists k :: k in StaleScores(cache, rs)
                               && item == DriftItem(StaleReputation, rs[k].wallet, rs[k].wallet in cache)
    {
      var k := TurnOf(turns, item);
      if item in Flat(turns) {
        assert k in StaleScores(cache, rs);
      }
      if k :| k in StaleScores(cache, rs)
              && item == DriftItem(StaleReputation, rs[k].wallet, rs[k].wallet in cache) {
        ItemOfTurn(turns, k);
      }
    }
  }

  // ------------------------------------------------------------------
  // Transactions
  // ------------------------------------------------------------------

  ghost function AddedRows(before: T.TxTable, after: T.TxTable): set<T.RowId> {
    set id | id in after.rows && id !in before.rows
  }

  ghost function ChangedRows(before: T.TxTable, after: T.TxTable): set<T.RowId> {
    set id | id in before.rows && id in after.rows && after.rows[id].status != before.rows[id].status
  }

  // A confirmed row is reported under its hash in lower case, an orphaned one under
  // its hash as it stands.
  ghost function ReportedKey(row: T.TxRow): string {
    match T.SelectedHash(row)
    case None => ""
    case Some(h) => if row.status == T.Failed then h else T.Lower(h)
  }

  ghost predicate ChangeItem(item: DriftItem, before: T.TxTable, after: T.TxTable) {
    exists id :: id in ChangedRows(before, after)
                 && item == DriftItem(OrphanedPendingTransaction, ReportedKey(after.rows[id]), true)
  }

  ghost predicate TransactionsReported(items: seq<DriftItem>, before: T.TxTable, after: T.TxTable) {
    && Total(items, MissingTransactionRow) == |AddedRows(before, after)|
    && Total(items, OrphanedPendingTransaction) == |ChangedRows(before, after)|
    && (forall item: DriftItem | item.kind == MissingTransactionRow ::
          item in items
          <==> exists id :: id in AddedRows(before, after)
                            && item == DriftItem(MissingTransactionRow, ReportedKey(after.rows[id]), true))
    && (forall item: DriftItem | item.kind == OrphanedPendingTransaction ::
          item in items <==> ChangeItem(item, before, after))
  }

  lemma {:induction false} Bijection(a: set<nat>, b: set<nat>, f: map<nat, nat>)
    requires f.Keys == a && forall k | k in a :: f[k] in b
    requires forall j, k | j in a && k in a && j != k :: f[j] != f[k]
    requires forall y | y in b :: exists k :: k in a && f[k] == y
    ensures |a| == |b|
    decreases |a|
  {
    if a == {} {
      assert b == {};
    } else {
      var k :| k in a;
      var smaller := map j | j in a - {k} :: f[j];
      forall y | y in b - {f[k]} ensures exists j :: j in a - {k} && smaller[j] == y {
        var j :| j in a && f[j] == y;
        assert smaller[j] == y;
      }
      Bijection(a - {k}, b - {f[k]}, smaller);
    }
  }

  function SucceedTurns(rows: seq<T.TxSnapshot>, hs: seq<string>, n: nat): seq<seq<DriftItem>>
    requires n <= |hs|
  {
    seq(n, k requires 0 <= k < n => SucceedItem(T.RowFor(rows, hs[k]), hs[k]))
  }

  lemma {:induction false} SucceedItemsAreFlat(rows: seq<T.TxSnapshot>, hs: seq<string>, n: nat)
    requires n <= |hs|
    ensures SucceedItems(rows, hs, n) == Flat(SucceedTurns(rows, hs, n))
  {
    if n > 0 {
      SucceedItemsAreFlat(rows, hs, n - 1);
      assert SucceedTurns(rows, hs, n)[..n - 1] == SucceedTurns(rows, hs, n - 1);
    }
  }

  function OrphanTurns(rows: seq<T.TxSnapshot>, hs: seq<string>, now: int, n: nat): seq<seq<DriftItem>>
    requires n <= |rows|
  {
    seq(n, k requires 0 <= k < n =>
      if T.Orphaned(rows[k], hs, now) then [DriftItem(OrphanedPendingTransaction, rows[k].hash, true)] else [])
  }

  lemma {:induction false} OrphanItemsAreFlat(rows: seq<T.TxSnapshot>, hs: seq<string>, now: int, n: nat)
    requires n <= |rows|
    ensures OrphanItems(rows, hs, now, n) == Flat(OrphanTurns(rows, hs, now, n))
  {
    if n > 0 {
      OrphanItemsAreFlat(rows, hs, now, n - 1);
      assert OrphanTurns(rows, hs, now, n)[..n - 1] == OrphanTurns(rows, hs, now, n - 1);
    }
  }

  // ---- added rows

  function IndexOf(hs: seq<string>, h: string): (k: nat)
    ensures k <= |hs| && (h in hs ==> k < |hs| && hs[k] == h)
  {
    if hs == [] || hs[0] == h then 0 else 1 + IndexOf(hs[1..], h)
  }

  // The hash that an added row was backfilled for.
  lemma AddedRowIsBackfilled(t: T.TxTable, rows: seq<T.TxSnapshot>, hs: seq<string>, now: int, id: T.RowId)
    requires T.ValidTable(t) && T.Enumerates(rows, t) && T.ChainSet(hs)
    requires id in AddedRows(t, T.Pass(t, rows, hs, now))
    ensures var row := T.Pass(t, rows, hs, now).rows[id];
            && row.transactionHash.Some? && row.transactionHash.value in hs
            && T.BackfilledFor(row, rows, row.transactionHash.value, now)
            && ReportedKey(row) == row.transactionHash.value
  {
    T.PassAddsRow(t, rows, hs, now, id);
    var row := T.Pass(t, rows, hs, now).rows[id];
    var k :| 0 <= k < |hs| && T.BackfilledFor(row, rows, hs[k], now);
  }

  lemma MissingHashIsAdded(t: T.TxTable, rows: seq<T.TxSnapshot>, hs: seq<string>, now: int, k: nat)
    returns (id: T.RowId)
    requires T.ValidTable(t) && T.Enumerates(rows, t) && T.UniqueKeys(t) && T.ChainSet(hs)
    requires k < |hs| && T.RowFor(rows, hs[k]).None?
    ensures id in AddedRows(t, T.Pass(t, rows, hs, now))
    ensures T.Pass(t, rows, hs, now).rows[id].transactionHash == Some(hs[k])
  {
    T.LookupFindsKey(rows, t, hs[k]);
    forall other | other in t.rows ensures t.rows[other].transactionHash != Some(hs[k]) {
      assert T.Key(t.rows[other]) != Some(hs[k]);
    }
    id := T.SucceedInserts(t, rows, hs, now, |hs|, k);
    T.OrphanLoop(T.SucceedUpTo(t, rows, hs, now, |hs|), rows, hs, now, |rows|, id);
  }

  ghost function BackfilledHash(row: T.TxRow): string {
    if row.transactionHash.Some? then row.transactionHash.value else ""
  }

  lemma TurnOfAdded(t: T.TxTable, rows: seq<T.TxSnapshot>, hs: seq<string>, now: int, id: T.RowId)
    requires T.ValidTable(t) && T.Enumerates(rows, t) && T.ChainSet(hs)
    requires id in AddedRows(t, T.Pass(t, rows, hs, now))
    ensures var row := T.Pass(t, rows, hs, now).rows[id];
            var k := IndexOf(hs, BackfilledHash(row));
            && k < |hs| && hs[k] == BackfilledHash(row) && T.Key(row) == Some(hs[k])
            && k in Turns(SucceedTurns(rows, hs, |hs|), MissingTransactionRow)
  {
    AddedRowIsBackfilled(t, rows, hs, now, id);
  }

  lemma AddedRowsCounted(t: T.TxTable, rows: seq<T.TxSnapshot>, hs: seq<string>, now: int)
    requires T.ValidTable(t) && T.Enumerates(rows, t) && T.UniqueKeys(t) && T.ChainSet(hs)
    ensures |Turns(SucceedTurns(rows, hs, |hs|), MissingTransactionRow)|
            == |AddedRows(t, T.Pass(t, rows, hs, now))|
  {
    var added := AddedRows(t, T.Pass(t, rows, hs, now));
    var turns := Turns(SucceedTurns(rows, hs, |hs|), MissingTransactionRow);
    forall id | id in added ensures TurnIndex(t, rows, hs, now, id) in turns {
      TurnOfAdded(t, rows, hs, now, id);
    }
    var f := map id | id in added :: TurnIndex(t, rows, hs, now, id);
    forall a, b | a in added && b in added && a != b ensures f[a] != f[b] {
      AddedTurnsDiffer(t, rows, hs, now, a, b);
    }
    forall k | k in turns ensures exists id :: id in added && f[id] == k {
      var id := MissingHashIsAdded(t, rows, hs, now, k);
      TurnOfAdded(t, rows, hs, now, id);
      assert hs[f[id]] == hs[k];
    }
    Bijection(added, turns, f);
  }

  ghost function TurnIndex(t: T.TxTable, rows: seq<T.TxSnapshot>, hs: seq<string>, now: int, id: T.RowId): nat
    requires id in AddedRows(t, T.Pass(t, rows, hs, now))
  {
    IndexOf(hs, BackfilledHash(T.Pass(t, rows, hs, now).rows[id]))
  }

  lemma AddedTurnsDiffer(t: T.TxTable, rows: seq<T.TxSnapshot>, hs: seq<string>, now: int, a: T.RowId, b: T.RowId)
    requires T.ValidTable(t) && T.Enumerates(rows, t) && T.ChainSet(hs) && a != b
    requires a in AddedRows(t, T.Pass(t, rows, hs, now)) && b in AddedRows(t, T.Pass(t, rows, hs, now))
    ensures TurnIndex(t, rows, hs, now, a) != TurnIndex(t, rows, hs, now, b)
  {
    TurnOfAdded(t, rows, hs, now, a);
    TurnOfAdded(t, rows, hs, now, b);
    T.TwoNewRowsDiffer(t, rows, hs, now, a, b);
  }

  lemma AddedRowsReported(t: T.TxTable, rows: seq<T.TxSnapshot>, hs: seq<string>, now: int, item: DriftItem)
    requires T.ValidTable(t) && T.Enumerates(rows, t) && T.UniqueKeys(t) && T.ChainSet(hs)
    requires item.kind == MissingTransactionRow
    ensures var after := T.Pass(t, rows, hs, now);
            item in SucceedItems(rows, hs, |hs|)
            <==> exists id :: id in AddedRows(t, after)
                              && item == DriftItem(MissingTransactionRow, ReportedKey(after.rows[id]), true)
  {
    var after := T.Pass(t, rows, hs, now);
    if item in SucceedItems(rows, hs, |hs|) {
      SucceedItemsAreFlat(rows, hs, |hs|);
      var k := TurnOf(SucceedTurns(rows, hs, |hs|), item);
      var id := MissingHashIsAdded(t, rows, hs, now, k);
      AddedRowIsBackfilled(t, rows, hs, now, id);
      assert item == DriftItem(MissingTransactionRow, ReportedKey(after.rows[id]), true);
    }
    if id :| id in AddedRows(t, after) && item == DriftItem(MissingTransactionRow, ReportedKey(after.rows[id]), true) {
      AddedRowIsReported(t, rows, hs, now, id);
    }
  }

  lemma AddedRowIsReported(t: T.TxTable, rows: seq<T.TxSnapshot>, hs: seq<string>, now: int, id: T.RowId)
    requires T.ValidTable(t) && T.Enumerates(rows, t) && T.UniqueKeys(t) && T.ChainSet(hs)
    requires id in AddedRows(t, T.Pass(t, rows, hs, now))
    ensures DriftItem(MissingTransactionRow, ReportedKey(T.Pass(t, rows, hs, now).rows[id]), true)
            in SucceedItems(rows, hs, |hs|)
  {
    var turns := SucceedTurns(rows, hs, |hs|);
    SucceedItemsAreFlat(rows, hs, |hs|);
    AddedRowIsBackfilled(t, rows, hs, now, id);
    var j := IndexOf(hs, T.Pass(t, rows, hs, now).rows[id].transactionHash.value);
    ItemOfTurn(turns, j);
  }

  // ---- changed rows

  ghost function RowsTurned(before: T.TxTable, after: T.TxTable, status: T.TxStatus): set<T.RowId> {
    set id | id in ChangedRows(before, after) && after.rows[id].status == status
  }

  lemma ChangedRowsSplit(t: T.TxTable, rows: seq<T.TxSnapshot>, hs: seq<string>, now: int)
    requires T.ValidTable(t) && T.Enumerates(rows, t) && T.UniqueKeys(t)
    ensures var after := T.Pass(t, rows, hs, now);
            |ChangedRows(t, after)| == |RowsTurned(t, after, T.Success)| + |RowsTurned(t, after, T.Failed)|
  {
    var after := T.Pass(t, rows, hs, now);
    forall id | id in ChangedRows(t, after) ensures after.rows[id].status != T.Pending {
      T.PassRepairsRow(t, rows, hs, now, id);
    }
    assert ChangedRows(t, after) == RowsTurned(t, after, T.Success) + RowsTurned(t, after, T.Failed);
  }

  // A row is confirmed by the turn of its hash, and by no other.
  lemma ConfirmedByTurn(t: T.TxTable, rows: seq<T.TxSnapshot>, hs: seq<string>, now: int, k: nat)
    requires T.ValidTable(t) && T.Enumerates(rows, t) && T.UniqueKeys(t) && k < |hs|
    requires Reports(SucceedItem(T.RowFor(rows, hs[k]), hs[k]), OrphanedPendingTransaction)
    ensures var after, id := T.Pass(t, rows, hs, now), T.RowFor(rows, hs[k]).value.id;
            && id in RowsTurned(t, after, T.Success)
            && T.Key(t.rows[id]) == Some(hs[k]) && ReportedKey(after.rows[id]) == hs[k]
  {
    T.LookupFindsKey(rows, t, hs[k]);
    T.PassRepairsRow(t, rows, hs, now, T.RowFor(rows, hs[k]).value.id);
  }

  lemma TurnOfConfirmed(t: T.TxTable, rows: seq<T.TxSnapshot>, hs: seq<string>, now: int, id: T.RowId) returns (k: nat)
    requires T.ValidTable(t) && T.Enumerates(rows, t) && T.UniqueKeys(t)
    requires id in RowsTurned(t, T.Pass(t, rows, hs, now), T.Success)
    ensures k < |hs| && T.RowFor(rows, hs[k]).Some? && T.RowFor(rows, hs[k]).value.id == id
    ensures Reports(SucceedItem(T.RowFor(rows, hs[k]), hs[k]), OrphanedPendingTransaction)
  {
    T.PassRepairsRow(t, rows, hs, now, id);
    k :| k < |hs| && hs[k] == T.Key(t.rows[id]).value;
    T.LookupFindsKey(rows, t, hs[k]);
  }

  lemma OrphanedByTurn(t: T.TxTable, rows: seq<T.TxSnapshot>, hs: seq<string>, now: int, k: nat)
    requires T.ValidTable(t) && T.Enumerates(rows, t) && T.UniqueKeys(t)
    requires k < |rows| && T.Orphaned(rows[k], hs, now)
    ensures var after, id := T.Pass(t, rows, hs, now), rows[k].id;
            id in RowsTurned(t, after, T.Failed) && ReportedKey(after.rows[id]) == rows[k].hash
  {
    T.PassRepairsRow(t, rows, hs, now, rows[k].id);
  }

  lemma TurnOfOrphaned(t: T.TxTable, rows: seq<T.TxSnapshot>, hs: seq<string>, now: int, id: T.RowId) returns (k: nat)
    requires T.ValidTable(t) && T.Enumerates(rows, t) && T.UniqueKeys(t)
    requires id in RowsTurned(t, T.Pass(t, rows, hs, now), T.Failed)
    ensures k < |rows| && rows[k].id == id && T.Orphaned(rows[k], hs, now)
  {
    T.PassRepairsRow(t, rows, hs, now, id);
    k := T.SnapshotOfRow(rows, t, id);
  }

  lemma ChangedRowsCounted(t: T.TxTable, rows: seq<T.TxSnapshot>, hs: seq<string>, now: int)
    requires T.ValidTable(t) && T.Enumerates(rows, t) && T.UniqueKeys(t) && T.ChainSet(hs)
    ensures |Turns(SucceedTurns(rows, hs, |hs|), OrphanedPendingTransaction)|
            + |Turns(OrphanTurns(rows, hs, now, |rows|), OrphanedPendingTransaction)|
            == |ChangedRows(t, T.Pass(t, rows, hs, now))|
  {
    ConfirmedRowsCounted(t, rows, hs, now);
    OrphanedRowsCounted(t, rows, hs, now);
    ChangedRowsSplit(t, rows, hs, now);
  }

  lemma ConfirmedRowsCounted(t: T.TxTable, rows: seq<T.TxSnapshot>, hs: seq<string>, now: int)
    requires T.ValidTable(t) && T.Enumerates(rows, t) && T.UniqueKeys(t) && T.ChainSet(hs)
    ensures |Turns(SucceedTurns(rows, hs, |hs|), OrphanedPendingTransaction)|
            == |RowsTurned(t, T.Pass(t, rows, hs, now), T.Success)|
  {
    var ks := Turns(SucceedTurns(rows, hs, |hs|), OrphanedPendingTransaction);
    var ids := RowsTurned(t, T.Pass(t, rows, hs, now), T.Success);
    var f := map k | k in ks :: T.RowFor(rows, hs[k]).value.id;
    forall k | k in ks ensures f[k] in ids && T.Key(t.rows[f[k]]) == Some(hs[k]) {
      ConfirmedByTurn(t, rows, hs, now, k);
    }
    forall id | id in ids ensures exists k :: k in ks && f[k] == id {
      var k := TurnOfConfirmed(t, rows, hs, now, id);
      assert k in ks;
    }
    Bijection(ks, ids, f);
  }

  lemma OrphanedRowsCounted(t: T.TxTable, rows: seq<T.TxSnapshot>, hs: seq<string>, now: int)
    requires T.ValidTable(t) && T.Enumerates(rows, t) && T.UniqueKeys(t) && T.ChainSet(hs)
    ensures |Turns(OrphanTurns(rows, hs, now, |rows|), OrphanedPendingTransaction)|
            == |RowsTurned(t, T.Pass(t, rows, hs, now), T.Failed)|
  {
    var ks := set k: nat | k < |rows| && T.Orphaned(rows[k], hs, now);
    assert ks == Turns(OrphanTurns(rows, hs, now, |rows|), OrphanedPendingTransaction);
    OrphanedIndicesCounted(t, rows, hs, now, ks);
  }

  lemma OrphanedIndicesCounted(t: T.TxTable, rows: seq<T.TxSnapshot>, hs: seq<string>, now: int, ks: set<nat>)
    requires T.ValidTable(t) && T.Enumerates(rows, t) && T.UniqueKeys(t)
    requires forall k :: k in ks <==> 0 <= k < |rows| && T.Orphaned(rows[k], hs, now)
    ensures |ks| == |RowsTurned(t, T.Pass(t, rows, hs, now), T.Failed)|
  {
    var ids := RowsTurned(t, T.Pass(t, rows, hs, now), T.Failed);
    var f := map k | k in ks :: rows[k].id;
    forall k | k in ks ensures f[k] in ids {
      OrphanedByTurn(t, rows, hs, now, k);
    }
    forall id | id in ids ensures exists k :: k in ks && f[k] == id {
      var k := TurnOfOrphaned(t, rows, hs, now, id);
      assert k in ks;
    }
    Bijection(ks, ids, f);
  }

  lemma ChangedRowsReported(t: T.TxTable, rows: seq<T.TxSnapshot>, hs: seq<string>, now: int, item: DriftItem)
    requires T.ValidTable(t) && T.Enumerates(rows, t) && T.UniqueKeys(t) && T.ChainSet(hs)
    requires item.kind == OrphanedPendingTransaction
    ensures item in SucceedItems(rows, hs, |hs|) + OrphanItems(rows, hs, now, |rows|)
            <==> ChangeItem(item, t, T.Pass(t, rows, hs, now))
  {
    var after := T.Pass(t, rows, hs, now);
    if item in SucceedItems(rows, hs, |hs|) {
      ConfirmedItemMeansChange(t, rows, hs, now, item);
    }
    if item in OrphanItems(rows, hs, now, |rows|) {
      OrphanedItemMeansChange(t, rows, hs, now, item);
    }
    if ChangeItem(item, t, after) {
      var id :| id in ChangedRows(t, after)
                && item == DriftItem(OrphanedPendingTransaction, ReportedKey(after.rows[id]), true);
      ChangedRowHasItem(t, rows, hs, now, id);
    }
  }

  lemma ConfirmedItemMeansChange(t: T.TxTable, rows: seq<T.TxSnapshot>, hs: seq<string>, now: int, item: DriftItem)
    requires T.ValidTable(t) && T.Enumerates(rows, t) && T.UniqueKeys(t)
    requires item.kind == OrphanedPendingTransaction && item in SucceedItems(rows, hs, |hs|)
    ensures ChangeItem(item, t, T.Pass(t, rows, hs, now))
  {
    SucceedItemsAreFlat(rows, hs, |hs|);
    var k := TurnOf(SucceedTurns(rows, hs, |hs|), item);
    ConfirmedByTurn(t, rows, hs, now, k);
  }

  lemma OrphanedItemMeansChange(t: T.TxTable, rows: seq<T.TxSnapshot>, hs: seq<string>, now: int, item: DriftItem)
    requires T.ValidTable(t) && T.Enumerates(rows, t) && T.UniqueKeys(t)
    requires item.kind == OrphanedPendingTransaction && item in OrphanItems(rows, hs, now, |rows|)
    ensures ChangeItem(item, t, T.Pass(t, rows, hs, now))
  {
    OrphanItemsAreFlat(rows, hs, now, |rows|);
    var k := TurnOf(OrphanTurns(rows, hs, now, |rows|), item);
    OrphanedByTurn(t, rows, hs, now, k);
  }

  lemma ChangedRowHasItem(t: T.TxTable, rows: seq<T.TxSnapshot>, hs: seq<string>, now: int, id: T.RowId)
    requires T.ValidTable(t) && T.Enumerates(rows, t) && T.UniqueKeys(t) && T.ChainSet(hs)
    requires id in ChangedRows(t, T.Pass(t, rows, hs, now))
    ensures DriftItem(OrphanedPendingTransaction, ReportedKey(T.Pass(t, rows, hs, now).rows[id]), true)
            in SucceedItems(rows, hs, |hs|) + OrphanItems(rows, hs, now, |rows|)
  {
    SucceedItemsAreFlat(rows, hs, |hs|);
    OrphanItemsAreFlat(rows, hs, now, |rows|);
    T.PassRepairsRow(t, rows, hs, now, id);
    if T.Pass(t, rows, hs, now).rows[id].status == T.Success {
      var k := TurnOfConfirmed(t, rows, hs, now, id);
      ConfirmedByTurn(t, rows, hs, now, k);
      ItemOfTurn(SucceedTurns(rows, hs, |hs|), k);
    } else {
      var k := TurnOfOrphaned(t, rows, hs, now, id);
      OrphanedByTurn(t, rows, hs, now, k);
      ItemOfTurn(OrphanTurns(rows, hs, now, |rows|), k);
    }
  }

  lemma TransactionItemsReported(t: T.TxTable, rows: seq<T.TxSnapshot>, hs: seq<string>, now: int)
    requires T.ValidTable(t) && T.Enumerates(rows, t) && T.UniqueKeys(t) && T.ChainSet(hs)
    ensures TransactionsReported(SucceedItems(rows, hs, |hs|) + OrphanItems(rows, hs, now, |rows|),
                                 t, T.Pass(t, rows, hs, now))
  {
    TransactionItemsCounted(t, rows, hs, now);
    forall item: DriftItem
      ensures item.kind == MissingTransactionRow ==> item !in OrphanItems(rows, hs, now, |rows|)
    {
      OrphanItemsAreFlat(rows, hs, now, |rows|);
      var k := TurnOf(OrphanTurns(rows, hs, now, |rows|), item);
    }
    forall item: DriftItem | item.kind == MissingTransactionRow
      ensures item in SucceedItems(rows, hs, |hs|)
              <==> exists id :: id in AddedRows(t, T.Pass(t, rows, hs, now))
                     && item == DriftItem(MissingTransactionRow, ReportedKey(T.Pass(t, rows, hs, now).rows[id]), true)
    {
      AddedRowsReported(t, rows, hs, now, item);
    }
    forall item: DriftItem | item.kind == OrphanedPendingTransaction
      ensures item in SucceedItems(rows, hs, |hs|) + OrphanItems(rows, hs, now, |rows|)
              <==> ChangeItem(item, t, T.Pass(t, rows, hs, now))
    {
      ChangedRowsReported(t, rows, hs, now, item);
    }
  }

  lemma TransactionItemsCounted(t: T.TxTable, rows: seq<T.TxSnapshot>, hs: seq<string>, now: int)
    requires T.ValidTable(t) && T.Enumerates(rows, t) && T.UniqueKeys(t) && T.ChainSet(hs)
    ensures var items := SucceedItems(rows, hs, |hs|) + OrphanItems(rows, hs, now, |rows|);
            var after := T.Pass(t, rows, hs, now);
            && Total(items, MissingTransactionRow) == |AddedRows(t, after)|
            && Total(items, OrphanedPendingTransaction) == |ChangedRows(t, after)|
  {
    TransactionTurnsCounted(rows, hs, now, MissingTransactionRow);
    TransactionTurnsCounted(rows, hs, now, OrphanedPendingTransaction);
    assert Turns(OrphanTurns(rows, hs, now, |rows|), MissingTransactionRow) == {};
    AddedRowsCounted(t, rows, hs, now);
    ChangedRowsCounted(t, rows, hs, now);
  }

  lemma TransactionTurnsCounted(rows: seq<T.TxSnapshot>, hs: seq<string>, now: int, kind: DriftType)
    ensures Total(SucceedItems(rows, hs, |hs|) + OrphanItems(rows, hs, now, |rows|), kind)
            == |Turns(SucceedTurns(rows, hs, |hs|), kind)| + |Turns(OrphanTurns(rows, hs, now, |rows|), kind)|
  {
    SucceedItemsAreFlat(rows, hs, |hs|);
    OrphanItemsAreFlat(rows, hs, now, |rows|);
    FlatCountsTurns(SucceedTurns(rows, hs, |hs|), kind);
    FlatCountsTurns(OrphanTurns(rows, hs, now, |rows|), kind);
    TotalOfConcat(SucceedItems(rows, hs, |hs|), OrphanItems(rows, hs, now, |rows|), kind);
  }

  // ------------------------------------------------------------------
  // The whole report
  // ------------------------------------------------------------------

  // What a completed job reports, from the tables before it, the transactions
  // after it and the chain.
  ghost predicate ReportMeans(items: seq<DriftItem>, loans: L.LoanTable, before: T.TxTable, after: T.TxTable,
                              liquidity: B.LiquidityTable, cache: B.ReputationCache, chain: AuthoritativeState) {
    && LoansReported(items, loans, chain.loans)
    && TransactionsReported(items, before, after)
    && PositionsReported(items, liquidity, chain.positions)
    && ScoresReported(items, cache, chain.reputations)
  }

  ghost predicate LoanInStep(loans: L.LoanTable, c: L.ChainLoan) {
    exists id :: id in loans && loans[id].loanId == c.loanId && loans[id].status == c.status
  }

  // There was nothing to report.
  ghost predicate NoDrift(loans: L.LoanTable, before: T.TxTable, after: T.TxTable, liquidity: B.LiquidityTable,
                          cache: B.ReputationCache, chain: AuthoritativeState) {
    && (forall k | 0 <= k < |chain.loans| :: LoanInStep(loans, chain.loans[k]))
    && (forall id | id in after.rows :: id in before.rows && after.rows[id].status == before.rows[id].status)
    && (forall k | 0 <= k < |chain.positions| :: !StalePosition(liquidity, chain.positions[k]))
    && (forall k | 0 <= k < |chain.reputations| :: !StaleScore(cache, chain.reputations[k]))
  }

  ghost predicate KindsIn(items: seq<DriftItem>, kinds: set<DriftType>) {
    forall item | item in items :: item.kind in kinds
  }

  lemma LoanItemKinds(ds: seq<L.Decision>, chain: seq<L.ChainLoan>, t: L.LoanTable)
    requires |ds| == |chain|
    ensures KindsIn(LoanItems(ds, chain, t, |chain|), {StaleLoanStatus, MissingLoanRow, ProvisionalLoanId})
  {
    LoanItemsAreFlat(ds, chain, t, |chain|);
    forall item | item in LoanItems(ds, chain, t, |chain|)
      ensures item.kind in {StaleLoanStatus, MissingLoanRow, ProvisionalLoanId}
    {
      var k := TurnOf(LoanTurns(ds, chain, t, |chain|), item);
    }
  }

  lemma TransactionItemKinds(rows: seq<T.TxSnapshot>, hs: seq<string>, now: int)
    ensures KindsIn(SucceedItems(rows, hs, |hs|) + OrphanItems(rows, hs, now, |rows|),
                    {MissingTransactionRow, OrphanedPendingTransaction})
  {
    SucceedItemsAreFlat(rows, hs, |hs|);
    OrphanItemsAreFlat(rows, hs, now, |rows|);
    forall item | item in SucceedItems(rows, hs, |hs|)
      ensures item.kind in {MissingTransactionRow, OrphanedPendingTransaction}
    {
      var k := TurnOf(SucceedTurns(rows, hs, |hs|), item);
    }
    forall item | item in OrphanItems(rows, hs, now, |rows|)
      ensures item.kind in {MissingTransactionRow, OrphanedPendingTransaction}
    {
      var k := TurnOf(OrphanTurns(rows, hs, now, |rows|), item);
    }
  }

  lemma PositionItemKinds(rows: seq<B.LiquiditySnapshot>, ps: seq<Position>)
    ensures KindsIn(LiquidityItems(rows, ps, |ps|), {StaleLiquidityPosition})
  {
    LiquidityItemsAreFlat(rows, ps, |ps|);
    forall item | item in LiquidityItems(rows, ps, |ps|) ensures item.kind == StaleLiquidityPosition {
      var k := TurnOf(PositionTurns(rows, ps, |ps|), item);
    }
  }

  lemma ScoreItemKinds(cache: B.ReputationCache, rs: seq<Reputation>)
    ensures KindsIn(ReputationItems(cache, rs, |rs|), {StaleReputation})
  {
    ReputationItemsAreFlat(cache, rs, |rs|);
    forall item | item in ReputationItems(cache, rs, |rs|) ensures item.kind == StaleReputation {
      var k := TurnOf(ScoreTurns(cache, rs, |rs|), item);
    }
  }

  // The four parts, one after the other.
  lemma PartsMakeReport(loan: seq<DriftItem>, tx: seq<DriftItem>, position: seq<DriftItem>, score: seq<DriftItem>)
    requires KindsIn(loan, {StaleLoanStatus, MissingLoanRow, ProvisionalLoanId})
    requires KindsIn(tx, {MissingTransactionRow, OrphanedPendingTransaction})
    requires KindsIn(position, {StaleLiquidityPosition}) && KindsIn(score, {StaleReputation})
    ensures var all := loan + tx + position + score;
            && SameOf(loan, all, StaleLoanStatus) && SameOf(loan, all, MissingLoanRow)
            && SameOf(loan, all, ProvisionalLoanId)
            && SameOf(tx, all, MissingTransactionRow) && SameOf(tx, all, OrphanedPendingTransaction)
            && SameOf(position, all, StaleLiquidityPosition) && SameOf(score, all, StaleReputation)
  {
    var all := loan + tx + position + score;
    assert all == [] + loan + (tx + position + score);
    PartOfReport([], loan, tx + position + score, StaleLoanStatus);
    PartOfReport([], loan, tx + position + score, MissingLoanRow);
    PartOfReport([], loan, tx + position + score, ProvisionalLoanId);
    assert all == loan + tx + (position + score);
    PartOfReport(loan, tx, position + score, MissingTransactionRow);
    PartOfReport(loan, tx, position + score, OrphanedPendingTransaction);
    PartOfReport(loan + tx, position, score, StaleLiquidityPosition);
    assert all == loan + tx + position + score + [];
    PartOfReport(loan + tx + position, score, [], StaleReputation);
  }

  lemma ReportIsComplete(loan: seq<DriftItem>, tx: seq<DriftItem>, position: seq<DriftItem>, score: seq<DriftItem>,
                         loans: L.LoanTable, before: T.TxTable, after: T.TxTable, liquidity: B.LiquidityTable,
                         cache: B.ReputationCache, chain: AuthoritativeState)
    requires KindsIn(loan, {StaleLoanStatus, MissingLoanRow, ProvisionalLoanId})
    requires KindsIn(tx, {MissingTransactionRow, OrphanedPendingTransaction})
    requires KindsIn(position, {StaleLiquidityPosition}) && KindsIn(score, {StaleReputation})
    requires LoansReported(loan, loans, chain.loans) && TransactionsReported(tx, before, after)
    requires PositionsReported(position, liquidity, chain.positions)
    requires ScoresReported(score, cache, chain.reputations)
    ensures ReportMeans(loan + tx + position + score, loans, before, after, liquidity, cache, chain)
  {
    PartsMakeReport(loan, tx, position, score);
    LoansStayReported(loan, loan + tx + position + score, loans, chain.loans);
  }

  lemma LoansStayReported(items: seq<DriftItem>, all: seq<DriftItem>, t: L.LoanTable, chain: seq<L.ChainLoan>)
    requires SameOf(items, all, StaleLoanStatus) && SameOf(items, all, MissingLoanRow)
    requires SameOf(items, all, ProvisionalLoanId) && LoansReported(items, t, chain)
    ensures LoansReported(all, t, chain)
  {}

  // A report is empty exactly when there was no drift.
  lemma EmptyExactlyWhen(items: seq<DriftItem>, loans: L.LoanTable, before: T.TxTable, after: T.TxTable,
                         liquidity: B.LiquidityTable, cache: B.ReputationCache, chain: AuthoritativeState)
    requires L.UniqueLoanIds(loans) && ReportMeans(items, loans, before, after, liquidity, cache, chain)
    ensures items == [] <==> NoDrift(loans, before, after, liquidity, cache, chain)
  {
    CountersAddUp(items, |items|);
    assert items == [] <==>
        && StaleLoans(loans, chain.loans) == {} && ClaimableLoans(loans, chain.loans) == {}
        && MissingLoans(loans, chain.loans) == {} && AddedRows(before, after) == {} && ChangedRows(before, after) == {}
        && StalePositions(liquidity, chain.positions) == {} && StaleScores(cache, chain.reputations) == {} by {
      SevenTotals(items);
    }
    if NoDrift(loans, before, after, liquidity, cache, chain) {
      NoDriftEmptiesSets(loans, before, after, liquidity, cache, chain);
    }
    if items == [] {
      EmptySetsMeanNoDrift(loans, before, after, liquidity, cache, chain);
    }
  }

  lemma SevenTotals(items: seq<DriftItem>)
    ensures |items| == Total(items, MissingLoanRow) + Total(items, StaleLoanStatus) + Total(items, ProvisionalLoanId)
                       + Total(items, OrphanedPendingTransaction) + Total(items, MissingTransactionRow)
                       + Total(items, StaleLiquidityPosition) + Total(items, StaleReputation)
  {
    CountersAddUp(items, |items|);
    var n := |items|;
    assert CountAll(items, DRIFT_TYPES[7..], n) == 0;
    assert DRIFT_TYPES[6..][1..] == DRIFT_TYPES[7..];
    assert DRIFT_TYPES[5..][1..] == DRIFT_TYPES[6..];
    assert DRIFT_TYPES[4..][1..] == DRIFT_TYPES[5..];
    assert DRIFT_TYPES[3..][1..] == DRIFT_TYPES[4..];
    assert DRIFT_TYPES[2..][1..] == DRIFT_TYPES[3..];
    assert DRIFT_TYPES[1..][1..] == DRIFT_TYPES[2..];
    assert CountAll(items, DRIFT_TYPES[6..], n) == Total(items, StaleReputation);
    assert CountAll(items, DRIFT_TYPES[5..], n)
           == Total(items, StaleLiquidityPosition) + CountAll(items, DRIFT_TYPES[6..], n);
    assert CountAll(items, DRIFT_TYPES[4..], n)
           == Total(items, MissingTransactionRow) + CountAll(items, DRIFT_TYPES[5..], n);
    assert CountAll(items, DRIFT_TYPES[3..], n)
           == Total(items, OrphanedPendingTransaction) + CountAll(items, DRIFT_TYPES[4..], n);
    assert CountAll(items, DRIFT_TYPES[2..], n)
           == Total(items, ProvisionalLoanId) + CountAll(items, DRIFT_TYPES[3..], n);
    assert CountAll(items, DRIFT_TYPES[1..], n)
           == Total(items, StaleLoanStatus) + CountAll(items, DRIFT_TYPES[2..], n);
  }

  lemma NoDriftEmptiesSets(loans: L.LoanTable, before: T.TxTable, after: T.TxTable, liquidity: B.LiquidityTable,
                           cache: B.ReputationCache, chain: AuthoritativeState)
    requires L.UniqueLoanIds(loans) && NoDrift(loans, before, after, liquidity, cache, chain)
    ensures StaleLoans(loans, chain.loans) == {} && ClaimableLoans(loans, chain.loans) == {}
    ensures MissingLoans(loans, chain.loans) == {} && AddedRows(before, after) == {} && ChangedRows(before, after) == {}
    ensures StalePositions(liquidity, chain.positions) == {} && StaleScores(cache, chain.reputations) == {}
  {}

  lemma NotReportedMeansInStep(loans: L.LoanTable, c: L.ChainLoan)
    requires !StaleLoan(loans, c) && !ClaimableLoan(loans, c) && !MissingLoan(loans, c)
    ensures LoanInStep(loans, c)
  {
    var id :| id in loans && loans[id].loanId == c.loanId;
  }

  lemma EmptySetsMeanNoDrift(loans: L.LoanTable, before: T.TxTable, after: T.TxTable, liquidity: B.LiquidityTable,
                             cache: B.ReputationCache, chain: AuthoritativeState)
    requires StaleLoans(loans, chain.loans) == {} && ClaimableLoans(loans, chain.loans) == {}
    requires MissingLoans(loans, chain.loans) == {}
    requires AddedRows(before, after) == {} && ChangedRows(before, after) == {}
    requires StalePositions(liquidity, chain.positions) == {} && StaleScores(cache, chain.reputations) == {}
    ensures NoDrift(loans, before, after, liquidity, cache, chain)
  {
    forall k | 0 <= k < |chain.loans| ensures LoanInStep(loans, chain.loans[k]) {
      assert k !in StaleLoans(loans, chain.loans) && k !in ClaimableLoans(loans, chain.loans);
      assert k !in MissingLoans(loans, chain.loans);
      NotReportedMeansInStep(loans, chain.loans[k]);
    }
    forall id | id in after.rows ensures id in before.rows && after.rows[id].status == before.rows[id].status {
      assert id !in AddedRows(before, after) && id !in ChangedRows(before, after);
    }
    forall k | 0 <= k < |chain.positions| ensures !StalePosition(liquidity, chain.positions[k]) {
      assert k !in StalePositions(liquidity, chain.positions);
    }
    forall k | 0 <= k < |chain.reputations| ensures !StaleScore(cache, chain.reputations[k]) {
      assert k !in StaleScores(cache, chain.reputations);
    }
  }

  lemma ItemsCombine(loan: seq<DriftItem>, tx: seq<DriftItem>, position: seq<DriftItem>, score: seq<DriftItem>)
    requires LoanKinds(loan) && AllExplained(tx) && AllExplained(position) && AllExplained(score)
    ensures AllExplained(loan + tx + position + score)
    ensures tx == [] && position == [] && NoBalanceRepair(score) ==> NoBalanceRepair(loan + tx + position + score)
  {}

  // The tables before the job, and what it read of them.
  datatype Before =
    Before(loans: L.LoanTable, transactions: T.TxTable, liquidity: B.LiquidityTable, scores: B.ReputationCache)

  datatype Snapshots =
    Snapshots(loans: seq<L.LoanSnapshot>, transactions: seq<T.TxSnapshot>, positions: seq<B.LiquiditySnapshot>)

  ghost predicate ReadFrom(b: Before, s: Snapshots) {
    && L.UniqueLoanIds(b.loans) && L.Enumerates(s.loans, b.loans)
    && T.ValidTable(b.transactions) && T.UniqueKeys(b.transactions) && T.Enumerates(s.transactions, b.transactions)
    && B.OneRowPerWallet(b.liquidity) && B.Enumerates(s.positions, b.liquidity)
  }

  lemma PartsAreReported(b: Before, s: Snapshots, chain: AuthoritativeState, now: int)
    requires ReadFrom(b, s) && "" !in chain.hashes
    ensures var hs := LowerSet(chain.hashes);
            var loan := LoanItems(L.Decisions(chain.loans, s.loans), chain.loans, b.loans, |chain.loans|);
            var tx := SucceedItems(s.transactions, hs, |hs|)
                      + OrphanItems(s.transactions, hs, now, |s.transactions|);
            var position := LiquidityItems(s.positions, chain.positions, |chain.positions|);
            var score := ReputationItems(b.scores, chain.reputations, |chain.reputations|);
            ReportMeans(loan + tx + position + score, b.loans, b.transactions,
                        T.Pass(b.transactions, s.transactions, hs, now), b.liquidity, b.scores, chain)
  {
    var ds, hs := L.Decisions(chain.loans, s.loans), LowerSet(chain.hashes);
    L.DecisionsFit(s.loans, b.loans, chain.loans);
    LoanItemsReported(ds, chain.loans, b.loans);
    LoanItemKinds(ds, chain.loans, b.loans);
    LowerSetIsChainSet(chain.hashes);
    TransactionItemsReported(b.transactions, s.transactions, hs, now);
    TransactionItemKinds(s.transactions, hs, now);
    PositionItemsReported(s.positions, b.liquidity, chain.positions);
    PositionItemKinds(s.positions, chain.positions);
    ScoreItemsReported(b.scores, chain.reputations);
    ScoreItemKinds(b.scores, chain.reputations);
    ReportIsComplete(LoanItems(ds, chain.loans, b.loans, |chain.loans|),
                     SucceedItems(s.transactions, hs, |hs|) + OrphanItems(s.transactions, hs, now, |s.transactions|),
                     LiquidityItems(s.positions, chain.positions, |chain.positions|),
                     ReputationItems(b.scores, chain.reputations, |chain.reputations|),
                     b.loans, b.transactions, T.Pass(b.transactions, s.transactions, hs, now), b.liquidity, b.scores,
                     chain);
  }

  // The report counts its items, they are what the tables and the chain call for,
  // and it is empty exactly when there was no drift.
  ghost predicate Tells(report: DriftReport, b: Before, after: T.TxTable, chain: AuthoritativeState) {
    && Accounts(report) && AllExplained(report.items)
    && ReportMeans(report.items, b.loans, b.transactions, after, b.liquidity, b.scores, chain)
    && (report.driftCount == 0 <==> NoDrift(b.loans, b.transactions, after, b.liquidity, b.scores, chain))
  }

  // The items of the four parts, counted.
  method AssembleReport(loan: seq<DriftItem>, tx: seq<DriftItem>, position: seq<DriftItem>, score: seq<DriftItem>,
                        ghost b: Before, ghost s: Snapshots, ghost after: T.TxTable,
                        ghost chain: AuthoritativeState, ghost now: int)
    returns (report: DriftReport)
    requires ReadFrom(b, s) && "" !in chain.hashes
    requires loan == LoanItems(L.Decisions(chain.loans, s.loans), chain.loans, b.loans, |chain.loans|)
    requires tx == SucceedItems(s.transactions, LowerSet(chain.hashes), |LowerSet(chain.hashes)|)
                   + OrphanItems(s.transactions, LowerSet(chain.hashes), now, |s.transactions|)
    requires after == T.Pass(b.transactions, s.transactions, LowerSet(chain.hashes), now)
    requires position == LiquidityItems(s.positions, chain.positions, |chain.positions|)
    requires score == ReputationItems(b.scores, chain.reputations, |chain.reputations|)
    requires LoanKinds(loan) && AllExplained(tx) && AllExplained(position) && AllExplained(score)
    ensures report.items == loan + tx + position + score && Tells(report, b, after, chain)
    ensures tx == [] && position == [] && NoBalanceRepair(score) ==> NoBalanceRepair(report.items)
  {
    ItemsCombine(loan, tx, position, score);
    PartsAreReported(b, s, chain, now);
    report := MakeReport(loan + tx + position + score);
    EmptyExactlyWhen(report.items, b.loans, b.transactions, after, b.liquidity, b.scores, chain);
  }
}
