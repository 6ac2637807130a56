// The loan half of the state reconciliation job, as one pass over the chain
// loans against a snapshot of the `loans` table.
//
// The table is a map from primary keys to rows.  A snapshot is a sequence that
// lists every row once, in an order the database is free to choose, so a
// statement about all snapshots of a table is a statement about all orders.
module LoanReconciliation {
  import opened Common

  type RowId = nat

  datatype LoanRow = LoanRow(loanId: string, wallet: string, amount: real, status: string)

  datatype LoanSnapshot = LoanSnapshot(id: RowId, row: LoanRow)

  datatype ChainLoan =
    ChainLoan(loanId: string, wallet: string, status: string, principal: real, txHash: Option<string>)

  type LoanTable = map<RowId, LoanRow>

  // ------------------------------------------------------------------
  // Table, snapshot and chain shapes
  // ------------------------------------------------------------------

  ghost predicate Enumerates(rows: seq<LoanSnapshot>, t: LoanTable) {
    && (forall i | 0 <= i < |rows| :: rows[i].id in t && t[rows[i].id] == rows[i].row)
    && (forall id | id in t :: LoanSnapshot(id, t[id]) in rows)
    && DistinctIds(rows)
  }

  ghost predicate DistinctIds(rows: seq<LoanSnapshot>) {
    forall i, j | 0 <= i < j < |rows| :: rows[i].id != rows[j].id
  }

  // `loans.loan_id` is UNIQUE.
  ghost predicate UniqueLoanIds(t: LoanTable) {
    forall a, b | a in t && b in t && a != b :: t[a].loanId != t[b].loanId
  }

  // `loan_index.loan_id` is UNIQUE.
  ghost predicate UniqueChainIds(chain: seq<ChainLoan>) {
    forall i, j | 0 <= i < j < |chain| :: chain[i].loanId != chain[j].loanId
  }

  predicate StartsWith(text: string, prefix: string) {
    prefix == [] || (text != [] && text[0] == prefix[0] && StartsWith(text[1..], prefix[1..]))
  }

  predicate Provisional(loanId: string) {
    StartsWith(loanId, "loan_") || StartsWith(loanId, "pending_") || StartsWith(loanId, "pending-")
  }

  ghost predicate NoProvisionalChainId(chain: seq<ChainLoan>) {
    forall i | 0 <= i < |chain| :: !Provisional(chain[i].loanId)
  }

  ghost predicate AtMostOneProvisionalPerWallet(chain: seq<ChainLoan>) {
    forall i, j | 0 <= i < j < |chain| && chain[i].wallet == chain[j].wallet ::
      !(Provisional(chain[i].loanId) && Provisional(chain[j].loanId))
  }

  // ------------------------------------------------------------------
  // What one pass decides for one chain loan
  // ------------------------------------------------------------------

  datatype Decision =
    | UpToDate
    | StaleStatus(id: RowId)
    | Claim(id: RowId)
    | Missing

  function Abs(x: real): real {
    if x < 0.0 then -x else x
  }

  predicate AmountMatches(amount: real, principal: real) {
    || Abs(amount - principal) < 0.000001
    || Abs(amount * 0.8 - principal) < 0.000001
  }

  // A Map built from the snapshot keeps the last row of each loan id.
  function RowFor(rows: seq<LoanSnapshot>, loanId: string): (r: Option<LoanSnapshot>)
    ensures r.None? ==> forall s | s in rows :: s.row.loanId != loanId
    ensures r.Some? ==> r.value in rows && r.value.row.loanId == loanId
  {
    if rows == [] then None
    else if rows[|rows| - 1].row.loanId == loanId then Some(rows[|rows| - 1])
    else RowFor(rows[..|rows| - 1], loanId)
  }

  predicate IsCandidate(row: LoanRow, wallet: string) {
    Provisional(row.loanId) && row.wallet == wallet
  }

  function Candidates(rows: seq<LoanSnapshot>, wallet: string): (r: seq<LoanSnapshot>)
    ensures forall s :: s in r <==> s in rows && IsCandidate(s.row, wallet)
  {
    if rows == [] then []
    else if IsCandidate(rows[0].row, wallet) then [rows[0]] + Candidates(rows[1..], wallet)
    else Candidates(rows[1..], wallet)
  }

  function FirstMatch(candidates: seq<LoanSnapshot>, principal: real): (r: Option<LoanSnapshot>)
    ensures r.None? ==> forall s | s in candidates :: !AmountMatches(s.row.amount, principal)
    ensures r.Some? ==> r.value in candidates && AmountMatches(r.value.row.amount, principal)
  {
    if candidates == [] then None
    else if AmountMatches(candidates[0].row.amount, principal) then Some(candidates[0])
    else FirstMatch(candidates[1..], principal)
  }

  // The provisional row a chain loan without a row resolves, if any: the first
  // candidate with a matching amount, or else the only candidate.
  function Match(rows: seq<LoanSnapshot>, c: ChainLoan): Option<LoanSnapshot> {
    var candidates := Candidates(rows, c.wallet);
    var first := FirstMatch(candidates, c.principal);
    if first.Some? then first
    else if |candidates| == 1 then Some(candidates[0])
    else None
  }

  lemma MatchIsListed(rows: seq<LoanSnapshot>, c: ChainLoan)
    requires Match(rows, c).Some?
    ensures Match(rows, c).value in rows
  {
    var candidates := Candidates(rows, c.wallet);
    if FirstMatch(candidates, c.principal).None? {
      assert candidates[0] in candidates;
    }
  }

  function Decide(rows: seq<LoanSnapshot>, c: ChainLoan): Decision {
    match RowFor(rows, c.loanId)
    case Some(r) => if r.row.status != c.status then StaleStatus(r.id) else UpToDate
    case None =>
      match Match(rows, c)
      case Some(s) => Claim(s.id)
      case None => Missing
  }

  // `update ... where id = ?`
  function UpdateStatus(t: LoanTable, id: RowId, status: string): LoanTable {
    if id in t then t[id := t[id].(status := status)] else t
  }

  function ResolveProvisionalId(t: LoanTable, id: RowId, c: ChainLoan): LoanTable {
    if id in t then t[id := t[id].(loanId := c.loanId, status := c.status)] else t
  }

  function Apply(t: LoanTable, d: Decision, c: ChainLoan): LoanTable {
    match d
    case StaleStatus(id) => UpdateStatus(t, id, c.status)
    case Claim(id) => ResolveProvisionalId(t, id, c)
    case _ => t
  }

  // The decisions of one pass.  They read the snapshot only, so a row claimed
  // early in the pass is still offered to later chain loans.
  function Decisions(chain: seq<ChainLoan>, rows: seq<LoanSnapshot>): (ds: seq<Decision>)
    ensures |ds| == |chain|
    ensures forall i | 0 <= i < |chain| :: ds[i] == Decide(rows, chain[i])
  {
    seq(|chain|, i requires 0 <= i < |chain| => Decide(rows, chain[i]))
  }

  // The table after the first `n` decisions were carried out.
  function PassUpTo(chain: seq<ChainLoan>, ds: seq<Decision>, t: LoanTable, n: nat): LoanTable
    requires n <= |chain| == |ds|
  {
    if n == 0 then t
    else Apply(PassUpTo(chain, ds, t, n - 1), ds[n - 1], chain[n - 1])
  }

  function Pass(chain: seq<ChainLoan>, ds: seq<Decision>, t: LoanTable): LoanTable
    requires |ds| == |chain|
  {
    PassUpTo(chain, ds, t, |chain|)
  }

  // ------------------------------------------------------------------
  // Decisions in terms of the table alone
  // ------------------------------------------------------------------

  ghost predicate HasRow(t: LoanTable, loanId: string) {
    exists id | id in t :: t[id].loanId == loanId
  }

  // Some candidate is taken: one with a matching amount, or the only one.
  ghost predicate Claimable(t: LoanTable, c: ChainLoan) {
    !HasRow(t, c.loanId) && exists id | id in t :: Takes(t, c, id)
  }

  ghost predicate Takes(t: LoanTable, c: ChainLoan, id: RowId)
    requires id in t
  {
    && IsCandidate(t[id], c.wallet)
    && (|| -0.000001 < t[id].amount - c.principal < 0.000001
        || -0.000001 < t[id].amount * 0.8 - c.principal < 0.000001
        || forall other | other in t && IsCandidate(t[other], c.wallet) :: other == id)
  }

  ghost predicate Fits(t: LoanTable, c: ChainLoan, d: Decision) {
    match d
    case UpToDate => exists id | id in t :: t[id].loanId == c.loanId && t[id].status == c.status
    case StaleStatus(id) => id in t && t[id].loanId == c.loanId && t[id].status != c.status
    case Claim(id) => !HasRow(t, c.loanId) && id in t && Takes(t, c, id)
    case Missing => !HasRow(t, c.loanId) && !Claimable(t, c)
  }

  ghost predicate AllFit(t: LoanTable, chain: seq<ChainLoan>, ds: seq<Decision>) {
    && |ds| == |chain|
    && forall i {:trigger Fits(t, chain[i], ds[i])} | 0 <= i < |chain| :: Fits(t, chain[i], ds[i])
  }

  lemma {:induction false} CandidatesAreDistinct(rows: seq<LoanSnapshot>, wallet: string)
    requires DistinctIds(rows)
    ensures DistinctIds(Candidates(rows, wallet))
  {
    if rows != [] {
      var head, tail := rows[0], rows[1..];
      CandidatesAreDistinct(tail, wallet);
      var rest := Candidates(tail, wallet);
      forall j | 0 <= j < |rest|
        ensures rest[j].id != head.id
      {
        assert rest[j] in tail;
        var k :| 0 <= k < |tail| && tail[k] == rest[j];
        assert rows[k + 1] == rest[j];
      }
      assert DistinctIds([head] + rest);
    }
  }

  // Reading the rows in any order leads to a decision that fits the table; in
  // particular the order never decides whether a claim happens.
  lemma DecideFits(rows: seq<LoanSnapshot>, t: LoanTable, c: ChainLoan)
    requires Enumerates(rows, t)
    ensures Fits(t, c, Decide(rows, c))
  {
    forall id | id in t
      ensures LoanSnapshot(id, t[id]) in rows
    {}
    var found := RowFor(rows, c.loanId);
    if found.None? {
      var cs := Candidates(rows, c.wallet);
      CandidatesAreDistinct(rows, c.wallet);
      forall id | id in t && IsCandidate(t[id], c.wallet)
        ensures LoanSnapshot(id, t[id]) in cs
      {}
      forall i | 0 <= i < |cs|
        ensures cs[i].id in t && t[cs[i].id] == cs[i].row && IsCandidate(cs[i].row, c.wallet)
      {
        assert cs[i] in cs;
      }
      if FirstMatch(cs, c.principal).None? && |cs| > 1 {
        assert DistinctIds(cs) && cs[0].id != cs[1].id;
      }
    }
  }

  lemma DecisionsFit(rows: seq<LoanSnapshot>, t: LoanTable, chain: seq<ChainLoan>)
    requires Enumerates(rows, t)
    ensures AllFit(t, chain, Decisions(chain, rows))
  {
    forall i | 0 <= i < |chain|
      ensures Fits(t, chain[i], Decisions(chain, rows)[i])
    {
      DecideFits(rows, t, chain[i]);
    }
  }

  // ------------------------------------------------------------------
  // One pass
  // ------------------------------------------------------------------

  ghost predicate Claims(ds: seq<Decision>, k: int, id: RowId) {
    0 <= k < |ds| && ds[k] == Claim(id)
  }

  // What any prefix of a pass may do to a row: its wallet and amount stay, and
  // its loan id is its old one or that of the last chain loan that claimed it.
  lemma {:induction false} RowAfter(chain: seq<ChainLoan>, ds: seq<Decision>, t: LoanTable, n: nat, id: RowId)
    requires n <= |chain| == |ds| && id in t
    ensures id in PassUpTo(chain, ds, t, n)
    ensures var after := PassUpTo(chain, ds, t, n)[id];
            && after.wallet == t[id].wallet && after.amount == t[id].amount
            && ((forall k | 0 <= k < n :: !Claims(ds, k, id)) ==> after.loanId == t[id].loanId)
            && ((exists k | 0 <= k < n :: Claims(ds, k, id))
                  ==> exists k | 0 <= k < n :: Claims(ds, k, id) && after.loanId == chain[k].loanId)
  {
    if n > 0 {
      RowAfter(chain, ds, t, n - 1, id);
      if Claims(ds, n - 1, id) {
        assert PassUpTo(chain, ds, t, n)[id].loanId == chain[n - 1].loanId;
      } else {
        assert PassUpTo(chain, ds, t, n)[id].loanId == PassUpTo(chain, ds, t, n - 1)[id].loanId;
      }
    }
  }

  lemma {:induction false} KeysStay(chain: seq<ChainLoan>, ds: seq<Decision>, t: LoanTable, n: nat)
    requires n <= |chain| == |ds|
    ensures PassUpTo(chain, ds, t, n).Keys == t.Keys
  {
    if n > 0 {
      KeysStay(chain, ds, t, n - 1);
    }
  }

  // A claim gives its row an id that no row had when the pass began.
  ghost predicate FreshClaims(chain: seq<ChainLoan>, ds: seq<Decision>, t: LoanTable)
    requires |chain| == |ds|
  {
    forall k, id, other | Claims(ds, k, id) && other in t :: t[other].loanId != chain[k].loanId
  }

  lemma ClaimsAreFresh(chain: seq<ChainLoan>, ds: seq<Decision>, t: LoanTable)
    requires AllFit(t, chain, ds)
    ensures FreshClaims(chain, ds, t)
  {
    forall k, id, other | Claims(ds, k, id) && other in t
      ensures t[other].loanId != chain[k].loanId
    {
      assert Fits(t, chain[k], ds[k]);
    }
  }

  lemma RowsStayApart(chain: seq<ChainLoan>, ds: seq<Decision>, t: LoanTable, n: nat, a: RowId, b: RowId)
    requires n <= |chain| == |ds| && FreshClaims(chain, ds, t) && UniqueChainIds(chain)
    requires a in t && b in t && a != b && t[a].loanId != t[b].loanId
    requires PassUpTo(chain, ds, t, n).Keys == t.Keys
    ensures PassUpTo(chain, ds, t, n)[a].loanId != PassUpTo(chain, ds, t, n)[b].loanId
  {
    RowAfter(chain, ds, t, n, a);
    RowAfter(chain, ds, t, n, b);
  }

  // Loan ids stay unique after every single step of a pass, so the UNIQUE
  // constraint on `loans.loan_id` never rejects a repair.
  lemma LoanIdsStayUnique(chain: seq<ChainLoan>, ds: seq<Decision>, t: LoanTable, n: nat)
    requires n <= |chain| && AllFit(t, chain, ds) && UniqueLoanIds(t) && UniqueChainIds(chain)
    ensures UniqueLoanIds(PassUpTo(chain, ds, t, n))
  {
    var after := PassUpTo(chain, ds, t, n);
    KeysStay(chain, ds, t, n);
    ClaimsAreFresh(chain, ds, t);
    forall a, b | a in after && b in after && a != b
      ensures after[a].loanId != after[b].loanId
    {
      RowsStayApart(chain, ds, t, n, a, b);
    }
  }

  ghost predicate SomeClaim(ds: seq<Decision>) {
    exists k | 0 <= k < |ds| :: ds[k].Claim?
  }

  // The decision for a chain loan deals with the status of its row.
  ghost predicate StatusDecided(t: LoanTable, c: ChainLoan, d: Decision) {
    && (d.StaleStatus? ==> d.id in t && t[d.id].loanId == c.loanId)
    && forall id | id in t && t[id].loanId == c.loanId ::
         d == StaleStatus(id) || (d == UpToDate && t[id].status == c.status)
  }

  lemma StatusIsDecided(t: LoanTable, c: ChainLoan, d: Decision)
    requires UniqueLoanIds(t) && Fits(t, c, d)
    ensures StatusDecided(t, c, d)
  {
    forall id | id in t && t[id].loanId == c.loanId
      ensures d == StaleStatus(id) || (d == UpToDate && t[id].status == c.status)
    {
      assert HasRow(t, c.loanId);
    }
  }

  ghost predicate Writes(ds: seq<Decision>, k: int, id: RowId) {
    0 <= k < |ds| && (ds[k] == Claim(id) || ds[k] == StaleStatus(id))
  }

  ghost predicate LastClaim(ds: seq<Decision>, n: nat, k: int, id: RowId) {
    Claims(ds, k, id) && k < n && forall m | k < m < n :: !Claims(ds, m, id)
  }

  ghost predicate LastWrite(ds: seq<Decision>, n: nat, k: int, id: RowId) {
    Writes(ds, k, id) && k < n && forall m | k < m < n :: !Writes(ds, m, id)
  }

  // What any prefix of a pass leaves of a row: the loan id of the last chain loan
  // that claimed it and the status of the last one that wrote to it, or the old
  // ones.
  lemma {:induction false} RowSettles(chain: seq<ChainLoan>, ds: seq<Decision>, t: LoanTable, n: nat, id: RowId)
    requires n <= |chain| == |ds| && id in t
    ensures id in PassUpTo(chain, ds, t, n)
    ensures var after := PassUpTo(chain, ds, t, n)[id];
            && ((forall k | 0 <= k < n :: !Claims(ds, k, id)) ==> after.loanId == t[id].loanId)
            && (forall k | LastClaim(ds, n, k, id) :: after.loanId == chain[k].loanId)
            && ((forall k | 0 <= k < n :: !Writes(ds, k, id)) ==> after.status == t[id].status)
            && (forall k | LastWrite(ds, n, k, id) :: after.status == chain[k].status)
  {
    if n > 0 {
      RowSettles(chain, ds, t, n - 1, id);
      var before, after := PassUpTo(chain, ds, t, n - 1)[id], PassUpTo(chain, ds, t, n)[id];
      if Claims(ds, n - 1, id) {
        assert after == before.(loanId := chain[n - 1].loanId, status := chain[n - 1].status) && Writes(ds, n - 1, id);
      } else if Writes(ds, n - 1, id) {
        assert after == before.(status := chain[n - 1].status);
        assert forall k | LastClaim(ds, n, k, id) :: LastClaim(ds, n - 1, k, id);
      } else {
        assert after == before;
        assert forall k | LastClaim(ds, n, k, id) :: LastClaim(ds, n - 1, k, id);
        assert forall k | LastWrite(ds, n, k, id) :: LastWrite(ds, n - 1, k, id);
      }
    }
  }

  lemma {:induction false} SomeClaimIsLast(ds: seq<Decision>, n: nat, k: nat, id: RowId) returns (last: nat)
    requires k < n <= |ds| && Claims(ds, k, id)
    ensures LastClaim(ds, n, last, id)
    decreases n
  {
    if Claims(ds, n - 1, id) {
      last := n - 1;
    } else {
      last := SomeClaimIsLast(ds, n - 1, k, id);
    }
  }

  lemma {:induction false} SomeWriteIsLast(ds: seq<Decision>, n: nat, k: nat, id: RowId) returns (last: nat)
    requires k < n <= |ds| && Writes(ds, k, id)
    ensures LastWrite(ds, n, last, id) && k <= last
    decreases n
  {
    if Writes(ds, n - 1, id) {
      last := n - 1;
    } else {
      last := SomeWriteIsLast(ds, n - 1, k, id);
    }
  }

  // A row and a chain loan with the same loan id have the same status: every
  // chain loan that has a row is in step with it.
  ghost predicate StatusesAgree(chain: seq<ChainLoan>, t: LoanTable) {
    forall id, k | id in t && 0 <= k < |chain| ::
      t[id].loanId == chain[k].loanId ==> t[id].status == chain[k].status
  }

  // After its last claim, by chain loan `k`, the row `id` is given the status of
  // another chain loan `j`: the one that owned it under its old loan id.
  ghost predicate Overtaken(chain: seq<ChainLoan>, ds: seq<Decision>, k: int, j: int, id: RowId)
    requires |chain| == |ds|
  {
    LastClaim(ds, |ds|, k, id) && k < j < |ds| && ds[j] == StaleStatus(id) && chain[j].status != chain[k].status
  }

  ghost predicate NoneOvertaken(chain: seq<ChainLoan>, ds: seq<Decision>)
    requires |chain| == |ds|
  {
    forall k, j, id :: !Overtaken(chain, ds, k, j, id)
  }

  // Only one chain loan writes a stale status to a given row.
  lemma OneStaleStatus(chain: seq<ChainLoan>, ds: seq<Decision>, t: LoanTable, i: nat, j: nat, id: RowId)
    requires AllFit(t, chain, ds) && UniqueChainIds(chain) && i < |ds| && j < |ds|
    requires ds[i] == StaleStatus(id) && ds[j] == StaleStatus(id)
    ensures i == j
  {
    assert Fits(t, chain[i], ds[i]) && Fits(t, chain[j], ds[j]);
  }

  // A row that no chain loan claimed has the status of the chain loan it belongs to.
  lemma UnclaimedRowAgrees(chain: seq<ChainLoan>, ds: seq<Decision>, t: LoanTable, id: RowId, m: nat)
    requires AllFit(t, chain, ds) && UniqueLoanIds(t) && UniqueChainIds(chain) && id in t && m < |chain|
    requires t[id].loanId == chain[m].loanId && forall k | 0 <= k < |ds| :: !Claims(ds, k, id)
    ensures id in Pass(chain, ds, t) && Pass(chain, ds, t)[id].status == chain[m].status
  {
    RowSettles(chain, ds, t, |chain|, id);
    StatusIsDecided(t, chain[m], ds[m]);
    assert Fits(t, chain[m], ds[m]);
    forall k | 0 <= k < |ds| && Writes(ds, k, id) ensures k == m {
      assert Fits(t, chain[k], ds[k]);
    }
    if ds[m] == StaleStatus(id) {
      assert LastWrite(ds, |ds|, m, id);
    }
  }

  // A claimed row has the status of its last claimer, unless it was overtaken.
  lemma ClaimedRowAgreesExactlyWhen(chain: seq<ChainLoan>, ds: seq<Decision>, t: LoanTable, id: RowId, k: nat)
    requires AllFit(t, chain, ds) && UniqueChainIds(chain) && id in t && LastClaim(ds, |ds|, k, id)
    ensures id in Pass(chain, ds, t) && Pass(chain, ds, t)[id].loanId == chain[k].loanId
    ensures Pass(chain, ds, t)[id].status == chain[k].status <==> forall j :: !Overtaken(chain, ds, k, j, id)
  {
    RowSettles(chain, ds, t, |chain|, id);
    var w := SomeWriteIsLast(ds, |ds|, k, id);
    if j :| Overtaken(chain, ds, k, j, id) {
      assert !Claims(ds, w, id) by {
        if Claims(ds, w, id) {
          assert w == k && Writes(ds, j, id);
        }
      }
      OneStaleStatus(chain, ds, t, w, j, id);
    } else if w > k {
      assert !Claims(ds, w, id) && !Overtaken(chain, ds, k, w, id);
    }
  }

  // After a pass every chain loan that has a row has its status, exactly when no
  // row was overtaken.
  lemma StatusesAgreeExactlyWhen(chain: seq<ChainLoan>, ds: seq<Decision>, t: LoanTable)
    requires AllFit(t, chain, ds) && UniqueLoanIds(t) && UniqueChainIds(chain)
    ensures StatusesAgree(chain, Pass(chain, ds, t)) <==> NoneOvertaken(chain, ds)
  {
    var after := Pass(chain, ds, t);
    KeysStay(chain, ds, t, |chain|);
    if NoneOvertaken(chain, ds) {
      forall id, m | id in after && 0 <= m < |chain| && after[id].loanId == chain[m].loanId
        ensures after[id].status == chain[m].status
      {
        if k :| 0 <= k < |ds| && Claims(ds, k, id) {
          var last := SomeClaimIsLast(ds, |ds|, k, id);
          ClaimedRowAgreesExactlyWhen(chain, ds, t, id, last);
        } else {
          RowSettles(chain, ds, t, |chain|, id);
          UnclaimedRowAgrees(chain, ds, t, id, m);
        }
      }
    } else {
      var k, j, id :| Overtaken(chain, ds, k, j, id);
      assert Fits(t, chain[k], ds[k]);
      ClaimedRowAgreesExactlyWhen(chain, ds, t, id, k);
    }
  }

  // The chain loan that overtakes has a provisional id.
  lemma OvertakingIsProvisional(chain: seq<ChainLoan>, ds: seq<Decision>, t: LoanTable, k: nat, j: nat, id: RowId)
    requires AllFit(t, chain, ds) && Overtaken(chain, ds, k, j, id)
    ensures SomeClaim(ds) && Provisional(chain[j].loanId)
  {
    assert Fits(t, chain[k], ds[k]) && Fits(t, chain[j], ds[j]);
  }

  // Without a claim, or without a provisional chain id, no row is overtaken.
  lemma StatusesAgreeAfterPass(chain: seq<ChainLoan>, ds: seq<Decision>, t: LoanTable)
    requires AllFit(t, chain, ds) && UniqueLoanIds(t) && UniqueChainIds(chain)
    requires NoProvisionalChainId(chain) || !SomeClaim(ds)
    ensures StatusesAgree(chain, Pass(chain, ds, t))
  {
    forall k, j, id | Overtaken(chain, ds, k, j, id) ensures SomeClaim(ds) && Provisional(chain[j].loanId) {
      OvertakingIsProvisional(chain, ds, t, k, j, id);
    }
    StatusesAgreeExactlyWhen(chain, ds, t);
  }

  // A row that is overtaken: it sits under a provisional id that is on chain and
  // is claimed for the wallet's other loan first.  It ends with the id of that
  // loan and the status of the provisional one.
  lemma OvertakenRow(loanId: string, provisionalId: string, wallet: string, paid: string, active: string, old_: string)
    returns (chain: seq<ChainLoan>, t: LoanTable, rows: seq<LoanSnapshot>)
    requires !Provisional(loanId) && Provisional(provisionalId) && paid != active && old_ != active
    ensures Enumerates(rows, t) && UniqueLoanIds(t) && UniqueChainIds(chain) && AtMostOneProvisionalPerWallet(chain)
    ensures Pass(chain, Decisions(chain, rows), t) == map[0 := LoanRow(loanId, wallet, 1.0, active)]
    ensures |chain| == 2 && chain[0] == ChainLoan(loanId, wallet, paid, 1.0, None)
    ensures !StatusesAgree(chain, Pass(chain, Decisions(chain, rows), t))
  {
    chain := [ChainLoan(loanId, wallet, paid, 1.0, None), ChainLoan(provisionalId, wallet, active, 1.0, None)];
    var row := LoanRow(provisionalId, wallet, 1.0, old_);
    t, rows := map[0 := row], [LoanSnapshot(0, row)];
    assert rows[..0] == [] && rows[1..] == [];
    assert Candidates(rows, wallet) == rows;
    var ds := Decisions(chain, rows);
    assert ds[0] == Claim(0) && ds[1] == StaleStatus(0);
    assert PassUpTo(chain, ds, t, 1) == map[0 := LoanRow(loanId, wallet, 1.0, paid)];
    assert Pass(chain, ds, t) == map[0 := LoanRow(loanId, wallet, 1.0, active)];
  }
}
