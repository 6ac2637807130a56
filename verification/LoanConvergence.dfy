// Repeated passes of the loan reconciliation against a fixed chain state: when
// they stop repairing, and exactly for which chain states they do.
module LoanConvergence {
  import opened Common
  import opened LoanReconciliation

  // ------------------------------------------------------------------
  // Runs
  // ------------------------------------------------------------------

  // Consecutive fault-free passes.  Each one reads the table it starts from, in
  // an order of the database's choosing.
  ghost predicate Run(chain: seq<ChainLoan>, tables: seq<LoanTable>, snapshots: seq<seq<LoanSnapshot>>) {
    && |tables| == |snapshots| + 1
    && forall i {:trigger snapshots[i]} | 0 <= i < |snapshots| ::
         && Enumerates(snapshots[i], tables[i])
         && tables[i + 1] == Pass(chain, Decisions(chain, snapshots[i]), tables[i])
  }

  // The same with each pass given by decisions that fit its table.
  ghost predicate DecidedRun(chain: seq<ChainLoan>, tables: seq<LoanTable>, dss: seq<seq<Decision>>) {
    && |tables| == |dss| + 1
    && forall i {:trigger dss[i]} | 0 <= i < |dss| ::
         && AllFit(tables[i], chain, dss[i])
         && tables[i + 1] == Pass(chain, dss[i], tables[i])
  }

  lemma RunIsDecided(chain: seq<ChainLoan>, tables: seq<LoanTable>, snapshots: seq<seq<LoanSnapshot>>)
    returns (dss: seq<seq<Decision>>)
    requires Run(chain, tables, snapshots)
    ensures |dss| == |snapshots| && DecidedRun(chain, tables, dss)
    ensures forall i | 0 <= i < |dss| :: dss[i] == Decisions(chain, snapshots[i])
  {
    dss := seq(|snapshots|, i requires 0 <= i < |snapshots| => Decisions(chain, snapshots[i]));
    forall i | 0 <= i < |dss|
      ensures AllFit(tables[i], chain, dss[i])
    {
      DecisionsFit(snapshots[i], tables[i], chain);
    }
  }

  // The pass repairs nothing.
  ghost predicate Quiet(ds: seq<Decision>) {
    forall k | 0 <= k < |ds| :: ds[k].UpToDate? || ds[k].Missing?
  }

  // ------------------------------------------------------------------
  // The termination measure
  // ------------------------------------------------------------------

  ghost function ProvisionalRows(t: LoanTable): set<RowId> {
    set id | id in t && Provisional(t[id].loanId)
  }

  // The row already carries the id of a chain loan of its own wallet.
  ghost predicate Homed(chain: seq<ChainLoan>, row: LoanRow) {
    exists k | 0 <= k < |chain| :: chain[k].wallet == row.wallet && chain[k].loanId == row.loanId
  }

  ghost function HomelessRows(chain: seq<ChainLoan>, t: LoanTable): set<RowId> {
    set id | id in t && Provisional(t[id].loanId) && !Homed(chain, t[id])
  }

  // Without provisional chain ids a row is repaired once; otherwise it may be
  // homed under a provisional id first and leave that id later.
  ghost function Measure(chain: seq<ChainLoan>, t: LoanTable): nat {
    |ProvisionalRows(t)| + if NoProvisionalChainId(chain) then 0 else |HomelessRows(chain, t)|
  }

  lemma RowFate(chain: seq<ChainLoan>, ds: seq<Decision>, t: LoanTable, id: RowId)
    requires AllFit(t, chain, ds) && id in t
    ensures id in Pass(chain, ds, t)
    ensures var after := Pass(chain, ds, t)[id];
            && after.wallet == t[id].wallet && after.amount == t[id].amount
            && (if exists k :: Claims(ds, k, id)
                then Provisional(t[id].loanId) && Homed(chain, after) && after.loanId != t[id].loanId
                else after.loanId == t[id].loanId)
  {
    RowAfter(chain, ds, t, |chain|, id);
    if exists k :: Claims(ds, k, id) {
      var k :| Claims(ds, k, id) && Pass(chain, ds, t)[id].loanId == chain[k].loanId;
      assert Fits(t, chain[k], ds[k]);
    }
  }

  lemma ClaimLowersProvisionalRows(chain: seq<ChainLoan>, ds: seq<Decision>, t: LoanTable)
    requires AllFit(t, chain, ds) && NoProvisionalChainId(chain) && SomeClaim(ds)
    ensures |ProvisionalRows(Pass(chain, ds, t))| < |ProvisionalRows(t)|
  {
    var after := Pass(chain, ds, t);
    KeysStay(chain, ds, t, |chain|);
    forall id | id in t
      ensures Provisional(after[id].loanId) ==> Provisional(t[id].loanId) && !exists k :: Claims(ds, k, id)
    {
      RowFate(chain, ds, t, id);
    }
    var k :| 0 <= k < |ds| && ds[k].Claim?;
    assert Fits(t, chain[k], ds[k]) && Claims(ds, k, ds[k].id);
    StrictSubsetIsSmaller(ProvisionalRows(after), ProvisionalRows(t), ds[k].id);
  }

  // Any pass with a provisional repair strictly lowers the measure.
  lemma ClaimLowersMeasure(chain: seq<ChainLoan>, ds: seq<Decision>, t: LoanTable)
    requires AllFit(t, chain, ds) && AtMostOneProvisionalPerWallet(chain) && SomeClaim(ds)
    ensures Measure(chain, Pass(chain, ds, t)) < Measure(chain, t)
  {
    if NoProvisionalChainId(chain) {
      ClaimLowersProvisionalRows(chain, ds, t);
    } else {
      var after := Pass(chain, ds, t);
      KeysStay(chain, ds, t, |chain|);
      forall id | id in t
        ensures Provisional(after[id].loanId) ==> Provisional(t[id].loanId)
        ensures !Homed(chain, after[id]) ==> !Homed(chain, t[id]) && !exists k :: Claims(ds, k, id)
      {
        RowFate(chain, ds, t, id);
      }
      SubsetIsNoLarger(ProvisionalRows(after), ProvisionalRows(t));
      SubsetIsNoLarger(HomelessRows(chain, after), HomelessRows(chain, t));
      var k :| 0 <= k < |ds| && ds[k].Claim?;
      var id := ds[k].id;
      assert Fits(t, chain[k], ds[k]) && Claims(ds, k, id);
      RowFate(chain, ds, t, id);
      if Homed(chain, t[id]) {
        HomedRowLeavesProvisionalIds(chain, t[id], after[id]);
        StrictSubsetIsSmaller(ProvisionalRows(after), ProvisionalRows(t), id);
      } else {
        StrictSubsetIsSmaller(HomelessRows(chain, after), HomelessRows(chain, t), id);
      }
    }
  }

  // With one provisional chain id per wallet there is no second one to go to.
  lemma HomedRowLeavesProvisionalIds(chain: seq<ChainLoan>, before: LoanRow, after: LoanRow)
    requires AtMostOneProvisionalPerWallet(chain)
    requires Homed(chain, before) && Homed(chain, after)
    requires before.wallet == after.wallet && before.loanId != after.loanId && Provisional(before.loanId)
    ensures !Provisional(after.loanId)
  {
    var i :| 0 <= i < |chain| && chain[i].wallet == before.wallet && chain[i].loanId == before.loanId;
    var j :| 0 <= j < |chain| && chain[j].wallet == after.wallet && chain[j].loanId == after.loanId;
  }

  // ------------------------------------------------------------------
  // Once no row is claimed, none is claimed again
  // ------------------------------------------------------------------

  // Whether a chain loan can claim a row depends on the loan ids, wallets and
  // amounts of the table only.
  lemma ClaimableIgnoresStatuses(t: LoanTable, after: LoanTable, c: ChainLoan)
    requires t.Keys == after.Keys
    requires forall id | id in t ::
               after[id].loanId == t[id].loanId && after[id].wallet == t[id].wallet && after[id].amount == t[id].amount
    ensures Claimable(after, c) ==> Claimable(t, c)
  {
    if Claimable(after, c) {
      var id :| id in after && Takes(after, c, id);
      assert Takes(t, c, id);
    }
  }

  lemma ClaimMeansClaimable(t: LoanTable, c: ChainLoan, d: Decision)
    requires Fits(t, c, d)
    ensures d.Claim? <==> Claimable(t, c)
  {}

  lemma NoClaimPersists(chain: seq<ChainLoan>, ds: seq<Decision>, t: LoanTable, next: seq<Decision>)
    requires AllFit(t, chain, ds) && !SomeClaim(ds)
    requires AllFit(Pass(chain, ds, t), chain, next)
    ensures !SomeClaim(next)
  {
    var after := Pass(chain, ds, t);
    KeysStay(chain, ds, t, |chain|);
    forall id | id in t
      ensures after[id].loanId == t[id].loanId && after[id].wallet == t[id].wallet && after[id].amount == t[id].amount
    {
      RowAfter(chain, ds, t, |chain|, id);
    }
    forall k | 0 <= k < |next|
      ensures !next[k].Claim?
    {
      assert Fits(t, chain[k], ds[k]) && Fits(after, chain[k], next[k]);
      ClaimMeansClaimable(t, chain[k], ds[k]);
      ClaimMeansClaimable(after, chain[k], next[k]);
      ClaimableIgnoresStatuses(t, after, chain[k]);
    }
  }

  lemma {:induction false} QuietPassKeepsTable(chain: seq<ChainLoan>, ds: seq<Decision>, t: LoanTable, n: nat)
    requires n <= |chain| == |ds| && Quiet(ds)
    ensures PassUpTo(chain, ds, t, n) == t
  {
    if n > 0 {
      QuietPassKeepsTable(chain, ds, t, n - 1);
    }
  }

  // ------------------------------------------------------------------
  // Convergence
  // ------------------------------------------------------------------

  lemma {:induction false} RunKeepsLoanIdsUnique(chain: seq<ChainLoan>, tables: seq<LoanTable>,
                                                 dss: seq<seq<Decision>>, i: nat)
    requires DecidedRun(chain, tables, dss) && i <= |dss|
    requires UniqueChainIds(chain) && UniqueLoanIds(tables[0])
    ensures UniqueLoanIds(tables[i])
  {
    if i > 0 {
      RunKeepsLoanIdsUnique(chain, tables, dss, i - 1);
      LoanIdsStayUnique(chain, dss[i - 1], tables[i - 1], |chain|);
    }
  }

  // A claim can only follow a pass that claimed too.
  lemma ClaimFollowsClaim(chain: seq<ChainLoan>, tables: seq<LoanTable>, dss: seq<seq<Decision>>, i: nat)
    requires DecidedRun(chain, tables, dss) && 0 < i < |dss| && SomeClaim(dss[i])
    ensures SomeClaim(dss[i - 1])
  {
    if !SomeClaim(dss[i - 1]) {
      NoClaimPersists(chain, dss[i - 1], tables[i - 1], dss[i]);
    }
  }

  // A pass that still claims has paid for all passes before it.
  lemma {:induction false} ClaimingPassesAreBounded(chain: seq<ChainLoan>, tables: seq<LoanTable>,
                                                    dss: seq<seq<Decision>>, i: nat)
    requires DecidedRun(chain, tables, dss) && i < |dss|
    requires AtMostOneProvisionalPerWallet(chain) && SomeClaim(dss[i])
    ensures Measure(chain, tables[i + 1]) + i + 1 <= Measure(chain, tables[0])
  {
    ClaimLowersMeasure(chain, dss[i], tables[i]);
    if i > 0 {
      ClaimFollowsClaim(chain, tables, dss, i);
      ClaimingPassesAreBounded(chain, tables, dss, i - 1);
    }
  }

  // After a pass without a claim there is nothing left to repair.
  lemma NothingLeft(chain: seq<ChainLoan>, ds: seq<Decision>, t: LoanTable, next: seq<Decision>)
    requires AllFit(t, chain, ds) && AllFit(Pass(chain, ds, t), chain, next)
    requires UniqueChainIds(chain) && UniqueLoanIds(t) && !SomeClaim(ds)
    ensures Quiet(next)
  {
    NoClaimPersists(chain, ds, t, next);
    StatusesAgreeAfterPass(chain, ds, t);
    forall k | 0 <= k < |next|
      ensures next[k].UpToDate? || next[k].Missing?
    {
      assert Fits(Pass(chain, ds, t), chain[k], next[k]);
    }
  }

  // From pass number `Measure + 1` on, counting from zero, no pass repairs
  // anything, neither a loan id nor a status, and every chain loan that has a row
  // has its status.  With no provisional chain id the
  // measure is the number of provisional rows at the start.
  lemma PassesSettle(chain: seq<ChainLoan>, tables: seq<LoanTable>, snapshots: seq<seq<LoanSnapshot>>, i: nat)
    requires Run(chain, tables, snapshots)
    requires UniqueChainIds(chain) && UniqueLoanIds(tables[0]) && AtMostOneProvisionalPerWallet(chain)
    requires Measure(chain, tables[0]) < i < |snapshots|
    ensures Quiet(Decisions(chain, snapshots[i]))
    ensures tables[i + 1] == tables[i] && StatusesAgree(chain, tables[i])
  {
    var dss := RunIsDecided(chain, tables, snapshots);
    DecidedPassesSettle(chain, tables, dss, i);
  }

  lemma DecidedPassesSettle(chain: seq<ChainLoan>, tables: seq<LoanTable>, dss: seq<seq<Decision>>, i: nat)
    requires DecidedRun(chain, tables, dss)
    requires UniqueChainIds(chain) && UniqueLoanIds(tables[0]) && AtMostOneProvisionalPerWallet(chain)
    requires Measure(chain, tables[0]) < i < |dss|
    ensures Quiet(dss[i]) && tables[i + 1] == tables[i] && StatusesAgree(chain, tables[i])
  {
    assert !SomeClaim(dss[i - 1]) by {
      if SomeClaim(dss[i - 1]) {
        ClaimingPassesAreBounded(chain, tables, dss, i - 1);
      }
    }
    RunKeepsLoanIdsUnique(chain, tables, dss, i - 1);
    NothingLeft(chain, dss[i - 1], tables[i - 1], dss[i]);
    StatusesAgreeAfterPass(chain, dss[i - 1], tables[i - 1]);
    QuietPassKeepsTable(chain, dss[i], tables[i], |chain|);
  }

  // ------------------------------------------------------------------
  // The exact condition
  // ------------------------------------------------------------------

  // Whatever the table and the read orders, the passes come to rest.
  ghost predicate AlwaysSettles(chain: seq<ChainLoan>) {
    forall tables, snapshots, i: nat ::
      Run(chain, tables, snapshots) && UniqueLoanIds(tables[0]) && Measure(chain, tables[0]) < i < |snapshots|
      ==> Quiet(Decisions(chain, snapshots[i]))
  }

  // One row of wallet `w` sits under a provisional chain id of that wallet and
  // is the only provisional row; the other chain loans of `w` with ordinary ids
  // have rows of their own.
  ghost predicate Wandering(chain: seq<ChainLoan>, w: string, t: LoanTable, x: RowId) {
    && x in t && IsCandidate(t[x], w) && Homed(chain, t[x])
    && (forall id | id in t && id != x :: !Provisional(t[id].loanId))
    && (forall k | 0 <= k < |chain| && chain[k].wallet == w && !Provisional(chain[k].loanId) ::
          HasRow(t, chain[k].loanId))
  }

  // If the wallet has two provisional chain ids, the row is moved from one to
  // another by every pass.
  lemma WanderingPass(chain: seq<ChainLoan>, i: nat, j: nat, ds: seq<Decision>, t: LoanTable, x: RowId)
    requires i < j < |chain| && chain[i].wallet == chain[j].wallet && chain[i].loanId != chain[j].loanId
    requires Provisional(chain[i].loanId) && Provisional(chain[j].loanId)
    requires AllFit(t, chain, ds) && Wandering(chain, chain[i].wallet, t, x)
    ensures SomeClaim(ds) && Wandering(chain, chain[i].wallet, Pass(chain, ds, t), x)
  {
    var w, after := chain[i].wallet, Pass(chain, ds, t);
    KeysStay(chain, ds, t, |chain|);
    var other := if chain[i].loanId == t[x].loanId then j else i;
    assert !HasRow(t, chain[other].loanId) && Takes(t, chain[other], x);
    assert Fits(t, chain[other], ds[other]);
    ClaimMeansClaimable(t, chain[other], ds[other]);
    assert Claims(ds, other, x);
    forall id | id in t && id != x
      ensures after[id].loanId == t[id].loanId
    {
      RowFate(chain, ds, t, id);
    }
    RowAfter(chain, ds, t, |chain|, x);
    var k :| 0 <= k < |chain| && Claims(ds, k, x) && after[x].loanId == chain[k].loanId;
    assert Fits(t, chain[k], ds[k]);
    forall m | 0 <= m < |chain| && chain[m].wallet == w && !Provisional(chain[m].loanId)
      ensures HasRow(after, chain[m].loanId)
    {
      var id :| id in t && t[id].loanId == chain[m].loanId;
      assert after[id].loanId == chain[m].loanId;
    }
  }

  lemma {:induction false} WanderingForever(chain: seq<ChainLoan>, i: nat, j: nat, tables: seq<LoanTable>,
                                            dss: seq<seq<Decision>>, x: RowId, n: nat)
    requires i < j < |chain| && chain[i].wallet == chain[j].wallet && chain[i].loanId != chain[j].loanId
    requires Provisional(chain[i].loanId) && Provisional(chain[j].loanId)
    requires DecidedRun(chain, tables, dss) && Wandering(chain, chain[i].wallet, tables[0], x) && n < |dss|
    ensures SomeClaim(dss[n]) && Wandering(chain, chain[i].wallet, tables[n + 1], x)
  {
    if n > 0 {
      WanderingForever(chain, i, j, tables, dss, x, n - 1);
    }
    WanderingPass(chain, i, j, dss[n], tables[n], x);
  }

  // A table to wander in: a row for every other ordinary chain loan of the
  // wallet, and the wandering row itself.
  lemma WanderingTable(chain: seq<ChainLoan>, i: nat) returns (t: LoanTable)
    requires i < |chain| && UniqueChainIds(chain) && Provisional(chain[i].loanId)
    ensures UniqueLoanIds(t) && Wandering(chain, chain[i].wallet, t, i)
  {
    var w := chain[i].wallet;
    t := map k: RowId | k < |chain| && (k == i || (chain[k].wallet == w && !Provisional(chain[k].loanId))) ::
      LoanRow(chain[k].loanId, w, 0.0, chain[k].status);
    forall k | 0 <= k < |chain| && chain[k].wallet == w && !Provisional(chain[k].loanId)
      ensures HasRow(t, chain[k].loanId)
    {
      var id: RowId := k;
      assert id in t;
    }
  }

  lemma SnapshotGrows(t: LoanTable, id: RowId, rest: seq<LoanSnapshot>)
    requires id in t && Enumerates(rest, t - {id})
    ensures Enumerates([LoanSnapshot(id, t[id])] + rest, t)
  {
    var rows := [LoanSnapshot(id, t[id])] + rest;
    forall k | k in t
      ensures LoanSnapshot(k, t[k]) in rows
    {
      if k != id {
        assert k in t - {id} && LoanSnapshot(k, t[k]) in rest;
      }
    }
    assert forall i | 0 <= i < |rest| :: rest[i].id in t - {id};
  }

  lemma {:induction false} SnapshotExists(t: LoanTable) returns (rows: seq<LoanSnapshot>)
    ensures Enumerates(rows, t)
    decreases |t|
  {
    if t == map[] {
      rows := [];
    } else {
      var id :| id in t;
      var rest := SnapshotExists(t - {id});
      SnapshotGrows(t, id, rest);
      rows := [LoanSnapshot(id, t[id])] + rest;
    }
  }

  lemma {:induction false} RunExists(chain: seq<ChainLoan>, t: LoanTable, n: nat)
    returns (tables: seq<LoanTable>, snapshots: seq<seq<LoanSnapshot>>)
    ensures Run(chain, tables, snapshots) && tables[0] == t && |snapshots| == n
  {
    if n == 0 {
      tables, snapshots := [t], [];
    } else {
      tables, snapshots := RunExists(chain, t, n - 1);
      var rows := SnapshotExists(tables[n - 1]);
      tables := tables + [Pass(chain, Decisions(chain, rows), tables[n - 1])];
      snapshots := snapshots + [rows];
    }
  }

  // A wallet with two provisional chain ids: a run as long as one likes in
  // which every pass repairs a provisional row.
  lemma NeverSettles(chain: seq<ChainLoan>, i: nat, j: nat, n: nat)
    returns (tables: seq<LoanTable>, snapshots: seq<seq<LoanSnapshot>>)
    requires UniqueChainIds(chain) && i < j < |chain| && chain[i].wallet == chain[j].wallet
    requires Provisional(chain[i].loanId) && Provisional(chain[j].loanId)
    ensures Run(chain, tables, snapshots) && UniqueLoanIds(tables[0])
    ensures |snapshots| == n + Measure(chain, tables[0])
    ensures forall k | 0 <= k < |snapshots| :: SomeClaim(Decisions(chain, snapshots[k]))
  {
    var t := WanderingTable(chain, i);
    tables, snapshots := RunExists(chain, t, n + Measure(chain, t));
    var dss := RunIsDecided(chain, tables, snapshots);
    forall k | 0 <= k < |snapshots|
      ensures SomeClaim(dss[k])
    {
      WanderingForever(chain, i, j, tables, dss, i, k);
    }
  }

  lemma ClaimIsNotQuiet(ds: seq<Decision>)
    requires SomeClaim(ds)
    ensures !Quiet(ds)
  {}

  // Loan reconciliation comes to rest from every table exactly when no wallet
  // owns two chain loans with provisional ids.
  lemma SettlesExactlyWhen(chain: seq<ChainLoan>)
    requires UniqueChainIds(chain)
    ensures AlwaysSettles(chain) <==> AtMostOneProvisionalPerWallet(chain)
  {
    if AtMostOneProvisionalPerWallet(chain) {
      forall tables, snapshots, i: nat
        | Run(chain, tables, snapshots) && UniqueLoanIds(tables[0]) && Measure(chain, tables[0]) < i < |snapshots|
        ensures Quiet(Decisions(chain, snapshots[i]))
      {
        PassesSettle(chain, tables, snapshots, i);
      }
    } else {
      var i, j :| 0 <= i < j < |chain| && chain[i].wallet == chain[j].wallet
                  && Provisional(chain[i].loanId) && Provisional(chain[j].loanId);
      var tables, snapshots := NeverSettles(chain, i, j, 2);
      ClaimIsNotQuiet(Decisions(chain, snapshots[Measure(chain, tables[0]) + 1]));
    }
  }
}
