// The liquidity and reputation parts of the state reconciliation job.
module BalanceReconciliation {
  import opened Common
  import opened AuthoritativeReader

  type RowId = nat

  datatype LiquidityRow = LiquidityRow(wallet: string, amount: real)

  datatype LiquidityTable = LiquidityTable(rows: map<RowId, LiquidityRow>, nextId: RowId)

  datatype LiquiditySnapshot = LiquiditySnapshot(id: RowId, row: LiquidityRow)

  ghost predicate ValidTable(t: LiquidityTable) {
    forall id | id in t.rows :: id < t.nextId
  }

  ghost predicate OneRowPerWallet(t: LiquidityTable) {
    forall a, b | a in t.rows && b in t.rows && a != b :: t.rows[a].wallet != t.rows[b].wallet
  }

  ghost predicate Enumerates(rows: seq<LiquiditySnapshot>, t: LiquidityTable) {
    && (forall i | 0 <= i < |rows| :: rows[i].id in t.rows && t.rows[rows[i].id] == rows[i].row)
    && (forall id | id in t.rows :: exists i :: 0 <= i < |rows| && rows[i].id == id)
    && (forall i, j | 0 <= i < j < |rows| :: rows[i].id != rows[j].id)
  }

  // ------------------------------------------------------------------
  // Liquidity positions
  // ------------------------------------------------------------------

  // A Map built from the snapshot keeps the last row of each wallet.
  function RowFor(rows: seq<LiquiditySnapshot>, wallet: string): (r: Option<LiquiditySnapshot>)
    ensures r.None? ==> forall i | 0 <= i < |rows| :: rows[i].row.wallet != wallet
    ensures r.Some? ==> r.value in rows && r.value.row.wallet == wallet
  {
    if rows == [] then None
    else if rows[|rows| - 1].row.wallet == wallet then Some(rows[|rows| - 1])
    else RowFor(rows[..|rows| - 1], wallet)
  }

  predicate Stale(rows: seq<LiquiditySnapshot>, p: Position) {
    RowFor(rows, p.wallet).None? || RowFor(rows, p.wallet).value.row.amount != p.amount
  }

  function Step(t: LiquidityTable, rows: seq<LiquiditySnapshot>, p: Position): LiquidityTable {
    if !Stale(rows, p) then t
    else match RowFor(rows, p.wallet)
      case Some(r) =>
        if r.id in t.rows then t.(rows := t.rows[r.id := LiquidityRow(p.wallet, p.amount)]) else t
      case None =>
        LiquidityTable(t.rows[t.nextId := LiquidityRow(p.wallet, p.amount)], t.nextId + 1)
  }

  function PassUpTo(t: LiquidityTable, rows: seq<LiquiditySnapshot>, ps: seq<Position>, n: nat): LiquidityTable
    requires n <= |ps|
  {
    if n == 0 then t else Step(PassUpTo(t, rows, ps, n - 1), rows, ps[n - 1])
  }

  lemma LookupFindsWallet(rows: seq<LiquiditySnapshot>, t: LiquidityTable, wallet: string, id: RowId)
    requires Enumerates(rows, t) && OneRowPerWallet(t) && id in t.rows
    ensures t.rows[id].wallet == wallet <==> RowFor(rows, wallet) == Some(LiquiditySnapshot(id, t.rows[id]))
  {
    var i :| 0 <= i < |rows| && rows[i].id == id;
    var r := RowFor(rows, wallet);
    if r.Some? {
      var j :| 0 <= j < |rows| && rows[j] == r.value;
    }
  }

  ghost predicate HasPosition(ps: seq<Position>, n: nat, wallet: string, amount: real)
    requires n <= |ps|
  {
    exists k :: 0 <= k < n && ps[k] == Position(wallet, amount)
  }

  lemma StepOnOldRow(before: LiquidityTable, rows: seq<LiquiditySnapshot>, t: LiquidityTable, p: Position, id: RowId)
    requires ValidTable(before) && Enumerates(rows, t) && OneRowPerWallet(t) && id in t.rows && id in before.rows
    ensures var after := Step(before, rows, p);
            && ValidTable(after) && id in after.rows
            && after.rows[id] == if p.wallet == t.rows[id].wallet && p.amount != t.rows[id].amount
                                 then LiquidityRow(p.wallet, p.amount) else before.rows[id]
  {
    LookupFindsWallet(rows, t, p.wallet, id);
    var r := RowFor(rows, p.wallet);
    if r.Some? {
      var j :| 0 <= j < |rows| && rows[j] == r.value;
    }
  }

  // An old row keeps its wallet; it takes the amount of the position of that
  // wallet if there is one.
  lemma {:induction false} OldRow(t: LiquidityTable, rows: seq<LiquiditySnapshot>, ps: seq<Position>, n: nat, id: RowId)
    requires n <= |ps| && DistinctWallets(ps)
    requires ValidTable(t) && Enumerates(rows, t) && OneRowPerWallet(t) && id in t.rows
    ensures var after := PassUpTo(t, rows, ps, n);
            && ValidTable(after) && id in after.rows && after.rows[id].wallet == t.rows[id].wallet
            && (if exists k :: 0 <= k < n && ps[k].wallet == t.rows[id].wallet
                then HasPosition(ps, n, t.rows[id].wallet, after.rows[id].amount)
                else after.rows[id] == t.rows[id])
  {
    if n > 0 {
      OldRow(t, rows, ps, n - 1, id);
      StepOnOldRow(PassUpTo(t, rows, ps, n - 1), rows, t, ps[n - 1], id);
      if ps[n - 1].wallet == t.rows[id].wallet {
        assert forall k | 0 <= k < n - 1 :: ps[k].wallet != t.rows[id].wallet;
        assert ps[n - 1] == Position(t.rows[id].wallet, PassUpTo(t, rows, ps, n).rows[id].amount);
      }
    }
  }

  ghost predicate InsertedFor(row: LiquidityRow, rows: seq<LiquiditySnapshot>, p: Position) {
    row == LiquidityRow(p.wallet, p.amount) && RowFor(rows, p.wallet).None?
  }

  lemma {:induction false} NewRow(t: LiquidityTable, rows: seq<LiquiditySnapshot>, ps: seq<Position>, n: nat, id: RowId)
    requires n <= |ps| && id !in t.rows && id in PassUpTo(t, rows, ps, n).rows
    requires forall i | 0 <= i < |rows| :: rows[i].id in t.rows
    ensures exists k :: 0 <= k < n && InsertedFor(PassUpTo(t, rows, ps, n).rows[id], rows, ps[k])
  {
    if id in PassUpTo(t, rows, ps, n - 1).rows {
      if id != PassUpTo(t, rows, ps, n - 1).nextId || RowFor(rows, ps[n - 1].wallet).Some? {
        NewRow(t, rows, ps, n - 1, id);
      }
    }
  }

  lemma {:induction false} TwoNewRows(t: LiquidityTable, rows: seq<LiquiditySnapshot>, ps: seq<Position>, n: nat,
                                      a: RowId, b: RowId)
    requires n <= |ps| && DistinctWallets(ps) && ValidTable(t)
    requires forall i | 0 <= i < |rows| :: rows[i].id in t.rows
    requires a != b && a !in t.rows && b !in t.rows
    requires a in PassUpTo(t, rows, ps, n).rows && b in PassUpTo(t, rows, ps, n).rows
    ensures PassUpTo(t, rows, ps, n).rows[a].wallet != PassUpTo(t, rows, ps, n).rows[b].wallet
  {
    var before, after := PassUpTo(t, rows, ps, n - 1), PassUpTo(t, rows, ps, n);
    NextIdGrows(t, rows, ps, n - 1);
    if a in before.rows && b in before.rows {
      TwoNewRows(t, rows, ps, n - 1, a, b);
    } else {
      var old_ := if a in before.rows then a else b;
      NewRow(t, rows, ps, n - 1, old_);
      var k :| 0 <= k < n - 1 && InsertedFor(before.rows[old_], rows, ps[k]);
      assert after.rows[old_] == before.rows[old_];
    }
  }

  lemma {:induction false} NextIdGrows(t: LiquidityTable, rows: seq<LiquiditySnapshot>, ps: seq<Position>, n: nat)
    requires n <= |ps| && ValidTable(t)
    ensures var after := PassUpTo(t, rows, ps, n);
            ValidTable(after) && t.nextId <= after.nextId && t.rows.Keys <= after.rows.Keys
  {
    if n > 0 {
      NextIdGrows(t, rows, ps, n - 1);
    }
  }

  lemma {:induction false} Inserts(t: LiquidityTable, rows: seq<LiquiditySnapshot>, ps: seq<Position>, n: nat, k: nat)
    requires k < n <= |ps| && ValidTable(t) && RowFor(rows, ps[k].wallet).None?
    requires forall i | 0 <= i < |rows| :: rows[i].id in t.rows
    ensures var after := PassUpTo(t, rows, ps, n);
            exists id :: id in after.rows && id !in t.rows && InsertedFor(after.rows[id], rows, ps[k])
  {
    var before, after := PassUpTo(t, rows, ps, n - 1), PassUpTo(t, rows, ps, n);
    NextIdGrows(t, rows, ps, n - 1);
    if k < n - 1 {
      Inserts(t, rows, ps, n - 1, k);
      var id :| id in before.rows && id !in t.rows && InsertedFor(before.rows[id], rows, ps[k]);
      assert after.rows[id] == before.rows[id];
    } else {
      assert InsertedFor(after.rows[before.nextId], rows, ps[k]);
    }
  }

  ghost predicate HoldsPosition(t: LiquidityTable, p: Position) {
    exists id :: id in t.rows && t.rows[id] == LiquidityRow(p.wallet, p.amount)
  }

  ghost predicate InStep(t: LiquidityTable, ps: seq<Position>) {
    forall k | 0 <= k < |ps| :: HoldsPosition(t, ps[k])
  }

  lemma PassHoldsPosition(t: LiquidityTable, rows: seq<LiquiditySnapshot>, ps: seq<Position>, k: nat)
    requires DistinctWallets(ps) && ValidTable(t) && Enumerates(rows, t) && OneRowPerWallet(t) && k < |ps|
    ensures HoldsPosition(PassUpTo(t, rows, ps, |ps|), ps[k])
  {
    var r := RowFor(rows, ps[k].wallet);
    if r.Some? {
      var i :| 0 <= i < |rows| && rows[i] == r.value;
      OldRow(t, rows, ps, |ps|, r.value.id);
    } else {
      Inserts(t, rows, ps, |ps|, k);
    }
  }

  // After the pass the row of every position's wallet holds its amount.
  lemma PassBringsInStep(t: LiquidityTable, rows: seq<LiquiditySnapshot>, ps: seq<Position>)
    requires DistinctWallets(ps) && ValidTable(t) && Enumerates(rows, t) && OneRowPerWallet(t)
    ensures InStep(PassUpTo(t, rows, ps, |ps|), ps)
  {
    forall k | 0 <= k < |ps|
      ensures HoldsPosition(PassUpTo(t, rows, ps, |ps|), ps[k])
    {
      PassHoldsPosition(t, rows, ps, k);
    }
  }

  // A pass that no other job's insert comes between gives no wallet a second row.
  lemma PassKeepsOneRowPerWallet(t: LiquidityTable, rows: seq<LiquiditySnapshot>, ps: seq<Position>)
    requires DistinctWallets(ps) && ValidTable(t) && Enumerates(rows, t) && OneRowPerWallet(t)
    ensures ValidTable(PassUpTo(t, rows, ps, |ps|)) && OneRowPerWallet(PassUpTo(t, rows, ps, |ps|))
  {
    var after := PassUpTo(t, rows, ps, |ps|);
    NextIdGrows(t, rows, ps, |ps|);
    forall a, b | a in after.rows && b in after.rows && a != b
      ensures after.rows[a].wallet != after.rows[b].wallet
    {
      if a in t.rows && b in t.rows {
        OldRow(t, rows, ps, |ps|, a);
        OldRow(t, rows, ps, |ps|, b);
      } else if a !in t.rows && b !in t.rows {
        TwoNewRows(t, rows, ps, |ps|, a, b);
      } else {
        OldAndNewRow(t, rows, ps, if a in t.rows then a else b, if a in t.rows then b else a);
      }
    }
  }

  lemma OldAndNewRow(t: LiquidityTable, rows: seq<LiquiditySnapshot>, ps: seq<Position>, old_: RowId, new_: RowId)
    requires DistinctWallets(ps) && ValidTable(t) && Enumerates(rows, t) && OneRowPerWallet(t)
    requires old_ in t.rows && new_ !in t.rows && new_ in PassUpTo(t, rows, ps, |ps|).rows
    ensures old_ in PassUpTo(t, rows, ps, |ps|).rows
    ensures PassUpTo(t, rows, ps, |ps|).rows[old_].wallet != PassUpTo(t, rows, ps, |ps|).rows[new_].wallet
  {
    OldRow(t, rows, ps, |ps|, old_);
    NewRow(t, rows, ps, |ps|, new_);
    var k :| 0 <= k < |ps| && InsertedFor(PassUpTo(t, rows, ps, |ps|).rows[new_], rows, ps[k]);
    LookupFindsWallet(rows, t, ps[k].wallet, old_);
  }

  // A table in step has no stale position, in whatever order it is read.
  lemma InStepMeansNothingStale(t: LiquidityTable, rows: seq<LiquiditySnapshot>, ps: seq<Position>, k: nat)
    requires Enumerates(rows, t) && OneRowPerWallet(t) && InStep(t, ps) && k < |ps|
    ensures !Stale(rows, ps[k])
  {
    assert HoldsPosition(t, ps[k]);
    var id :| id in t.rows && t.rows[id] == LiquidityRow(ps[k].wallet, ps[k].amount);
    LookupFindsWallet(rows, t, ps[k].wallet, id);
  }

  // ------------------------------------------------------------------
  // Reputation cache
  // ------------------------------------------------------------------

  // `reputation_cache.wallet_address` is UNIQUE: the table is a map.
  type ReputationCache = map<string, int>

  function ScoreStep(cache: ReputationCache, r: Reputation): ReputationCache {
    if r.wallet in cache && cache[r.wallet] != r.score then cache[r.wallet := r.score] else cache
  }

  function ScoresUpTo(cache: ReputationCache, rs: seq<Reputation>, n: nat): ReputationCache
    requires n <= |rs|
  {
    if n == 0 then cache else ScoreStep(ScoresUpTo(cache, rs, n - 1), rs[n - 1])
  }

  // Every cached score of a wallet with a reputation becomes that reputation;
  // nothing else changes and no row is created.
  lemma {:induction false} ScoresFollowReputations(cache: ReputationCache, rs: seq<Reputation>, n: nat, w: string)
    requires n <= |rs| && DistinctReputations(rs)
    ensures ScoresUpTo(cache, rs, n).Keys == cache.Keys
    ensures w in cache ==>
              if exists i :: 0 <= i < n && rs[i].wallet == w
              then exists i :: 0 <= i < n && rs[i] == Reputation(w, ScoresUpTo(cache, rs, n)[w])
              else ScoresUpTo(cache, rs, n)[w] == cache[w]
  {
    if n > 0 {
      ScoresFollowReputations(cache, rs, n - 1, w);
      if w in cache && rs[n - 1].wallet == w {
        assert rs[n - 1] == Reputation(w, ScoresUpTo(cache, rs, n)[w]);
      }
    }
  }
}
