// The transaction half of the state reconciliation job: hashes seen on chain are
// marked successful or backfilled, and old pending rows that never reached the
// chain are marked failed.
module TransactionReconciliation {
  import opened Common

  type RowId = nat

  datatype TxStatus = Pending | Success | Failed

  datatype TxRow =
    TxRow(hash: Option<string>, transactionHash: Option<string>, status: TxStatus, submittedAt: int)

  // Primary keys are never reused: every row id is below `nextId`.
  datatype TxTable = TxTable(rows: map<RowId, TxRow>, nextId: RowId)

  datatype TxSnapshot = TxSnapshot(id: RowId, hash: string, status: TxStatus, submittedAt: int)

  const ORPHAN_AGE_MS := 30 * 60 * 1000

  ghost predicate ValidTable(t: TxTable) {
    forall id | id in t.rows :: id < t.nextId
  }

  // ------------------------------------------------------------------
  // Reading the table
  // ------------------------------------------------------------------

  function LowerChar(c: char): char {
    if 'A' <= c <= 'Z' then (c as int + 32) as char else c
  }

  function Lower(s: string): string {
    seq(|s|, i requires 0 <= i < |s| => LowerChar(s[i]))
  }

  // `transaction_hash ?? hash`, and rows whose value is empty are dropped.
  function SelectedHash(row: TxRow): Option<string> {
    var h := if row.transactionHash.Some? then row.transactionHash else row.hash;
    if h == Some("") then None else h
  }

  // The older column counts only where the newer one is absent, and an empty hash
  // not at all.
  lemma SelectedExactlyWhen(row: TxRow, h: string)
    ensures SelectedHash(row) == Some(h)
            <==> h != "" && (row.transactionHash == Some(h) || (row.transactionHash == None && row.hash == Some(h)))
  {}

  function Key(row: TxRow): Option<string> {
    match SelectedHash(row)
    case Some(h) => Some(Lower(h))
    case None => None
  }

  ghost predicate Enumerates(rows: seq<TxSnapshot>, t: TxTable) {
    && (forall i | 0 <= i < |rows| ::
          && rows[i].id in t.rows
          && SelectedHash(t.rows[rows[i].id]) == Some(rows[i].hash)
          && t.rows[rows[i].id].status == rows[i].status
          && t.rows[rows[i].id].submittedAt == rows[i].submittedAt)
    && (forall id | id in t.rows && Key(t.rows[id]).Some? :: exists i :: 0 <= i < |rows| && rows[i].id == id)
    && (forall i, j | 0 <= i < j < |rows| :: rows[i].id != rows[j].id)
  }

  // No two rows carry the same hash, upper and lower case alike.
  ghost predicate UniqueKeys(t: TxTable) {
    forall a, b | a in t.rows && b in t.rows && a != b && Key(t.rows[a]).Some? :: Key(t.rows[a]) != Key(t.rows[b])
  }

  ghost predicate ChainSet(hs: seq<string>) {
    && (forall i, j | 0 <= i < j < |hs| :: hs[i] != hs[j])
    && (forall i | 0 <= i < |hs| :: hs[i] != "" && Lower(hs[i]) == hs[i])
  }

  // The same character, or the same letter of the English alphabet in the other case.
  predicate SameLetter(a: char, b: char) {
    || a == b
    || ('A' <= a <= 'Z' && 'a' <= b <= 'z' && a as int - 'A' as int == b as int - 'a' as int)
    || ('a' <= a <= 'z' && 'A' <= b <= 'Z' && a as int - 'a' as int == b as int - 'A' as int)
  }

  // Lower case tells two hashes apart exactly when they differ in more than case.
  lemma SameLowerExactlyWhen(a: string, b: string)
    ensures Lower(a) == Lower(b) <==> |a| == |b| && forall i | 0 <= i < |a| :: SameLetter(a[i], b[i])
    ensures forall i | 0 <= i < |a| :: Lower(a)[i] == a[i] || 'A' <= a[i] <= 'Z'
  {
    if Lower(a) == Lower(b) {
      assert |Lower(a)| == |Lower(b)|;
      forall i | 0 <= i < |a| ensures SameLetter(a[i], b[i]) {
        assert Lower(a)[i] == Lower(b)[i];
      }
    }
    if |a| == |b| && forall i | 0 <= i < |a| :: SameLetter(a[i], b[i]) {
      assert forall i | 0 <= i < |a| :: Lower(a)[i] == Lower(b)[i];
    }
  }

  lemma LowerIsIdempotent(s: string)
    ensures Lower(Lower(s)) == Lower(s)
  {}

  // ------------------------------------------------------------------
  // The two loops
  // ------------------------------------------------------------------

  function RowFor(rows: seq<TxSnapshot>, h: string): (r: Option<TxSnapshot>)
    ensures r.None? ==> forall i | 0 <= i < |rows| :: Lower(rows[i].hash) != h
    ensures r.Some? ==> r.value in rows && Lower(r.value.hash) == h
  {
    if rows == [] then None
    else if Lower(rows[|rows| - 1].hash) == h then Some(rows[|rows| - 1])
    else RowFor(rows[..|rows| - 1], h)
  }

  function SetStatus(t: TxTable, id: RowId, status: TxStatus): TxTable {
    if id in t.rows then t.(rows := t.rows[id := t.rows[id].(status := status)]) else t
  }

  // Upsert on `transaction_hash` that leaves an existing row alone.
  function Backfill(t: TxTable, h: string, now: int): TxTable {
    if exists id | id in t.rows :: t.rows[id].transactionHash == Some(h) then t
    else TxTable(t.rows[t.nextId := TxRow(None, Some(h), Success, now)], t.nextId + 1)
  }

  function SucceedStep(t: TxTable, rows: seq<TxSnapshot>, h: string, now: int): TxTable {
    match RowFor(rows, h)
    case None => Backfill(t, h, now)
    case Some(r) => if r.status == Pending then SetStatus(t, r.id, Success) else t
  }

  function SucceedUpTo(t: TxTable, rows: seq<TxSnapshot>, hs: seq<string>, now: int, n: nat): TxTable
    requires n <= |hs|
  {
    if n == 0 then t else SucceedStep(SucceedUpTo(t, rows, hs, now, n - 1), rows, hs[n - 1], now)
  }

  predicate Orphaned(r: TxSnapshot, hs: seq<string>, now: int) {
    r.status == Pending && Lower(r.hash) !in hs && r.submittedAt < now - ORPHAN_AGE_MS
  }

  function OrphanUpTo(t: TxTable, rows: seq<TxSnapshot>, hs: seq<string>, now: int, n: nat): TxTable
    requires n <= |rows|
  {
    if n == 0 then t
    else
      var before := OrphanUpTo(t, rows, hs, now, n - 1);
      if Orphaned(rows[n - 1], hs, now) then SetStatus(before, rows[n - 1].id, Failed) else before
  }

  function Pass(t: TxTable, rows: seq<TxSnapshot>, hs: seq<string>, now: int): TxTable {
    OrphanUpTo(SucceedUpTo(t, rows, hs, now, |hs|), rows, hs, now, |rows|)
  }

  // A pass over this snapshot would report nothing.
  ghost predicate NoDrift(rows: seq<TxSnapshot>, hs: seq<string>, now: int) {
    && (forall i | 0 <= i < |hs| :: RowFor(rows, hs[i]).Some? && RowFor(rows, hs[i]).value.status != Pending)
    && (forall i | 0 <= i < |rows| :: !Orphaned(rows[i], hs, now))
  }

  // ------------------------------------------------------------------
  // What a pass means for one row
  // ------------------------------------------------------------------

  // Independent of the loops: what should become of a row.
  function Repaired(row: TxRow, hs: seq<string>, now: int): TxRow {
    if row.status != Pending || Key(row).None? then row
    else if Key(row).value in hs then row.(status := Success)
    else if row.submittedAt < now - 1_800_000 then row.(status := Failed)
    else row
  }

  lemma SnapshotOfRow(rows: seq<TxSnapshot>, t: TxTable, id: RowId) returns (i: nat)
    requires Enumerates(rows, t) && id in t.rows && Key(t.rows[id]).Some?
    ensures i < |rows| && rows[i].id == id
    ensures Key(t.rows[id]) == Some(Lower(rows[i].hash)) && t.rows[id].status == rows[i].status
  {
    i :| 0 <= i < |rows| && rows[i].id == id;
  }

  // The Map lookup finds the row of the hash and no other.
  lemma LookupFindsKey(rows: seq<TxSnapshot>, t: TxTable, h: string)
    requires Enumerates(rows, t) && UniqueKeys(t)
    ensures match RowFor(rows, h)
            case None => forall id | id in t.rows :: Key(t.rows[id]) != Some(h)
            case Some(r) => r.id in t.rows && Key(t.rows[r.id]) == Some(h) && t.rows[r.id].status == r.status
                            && forall id | id in t.rows && id != r.id :: Key(t.rows[id]) != Some(h)
  {
    if RowFor(rows, h).None? {
      forall id | id in t.rows
        ensures Key(t.rows[id]) != Some(h)
      {
        if Key(t.rows[id]).Some? {
          var i := SnapshotOfRow(rows, t, id);
        }
      }
    }
  }

  predicate Marks(rows: seq<TxSnapshot>, h: string, id: RowId) {
    RowFor(rows, h).Some? && RowFor(rows, h).value.id == id && RowFor(rows, h).value.status == Pending
  }

  // The first loop changes an old row only through a hash that finds it.
  lemma {:induction false} SucceedOldRow(t: TxTable, rows: seq<TxSnapshot>, hs: seq<string>, now: int, n: nat,
                                         id: RowId)
    requires n <= |hs| && ValidTable(t) && id in t.rows
    ensures var after := SucceedUpTo(t, rows, hs, now, n);
            && ValidTable(after) && id in after.rows
            && after.rows[id] == if exists k :: 0 <= k < n && Marks(rows, hs[k], id)
                                 then t.rows[id].(status := Success) else t.rows[id]
  {
    if n > 0 {
      SucceedOldRow(t, rows, hs, now, n - 1, id);
    }
  }

  predicate BackfilledFor(row: TxRow, rows: seq<TxSnapshot>, h: string, now: int) {
    row == TxRow(None, Some(h), Success, now) && RowFor(rows, h).None?
  }

  // Every new row belongs to a hash without a row, and no hash gets two.
  lemma {:induction false} SucceedNewRow(t: TxTable, rows: seq<TxSnapshot>, hs: seq<string>, now: int, n: nat,
                                         id: RowId)
    requires n <= |hs| && ValidTable(t) && id !in t.rows && id in SucceedUpTo(t, rows, hs, now, n).rows
    requires forall i | 0 <= i < |rows| :: rows[i].id in t.rows
    ensures exists k :: 0 <= k < n && BackfilledFor(SucceedUpTo(t, rows, hs, now, n).rows[id], rows, hs[k], now)
  {
    if n > 0 && id in SucceedUpTo(t, rows, hs, now, n - 1).rows {
      SucceedNewRow(t, rows, hs, now, n - 1, id);
    }
  }

  lemma {:induction false} NewRowsDiffer(t: TxTable, rows: seq<TxSnapshot>, hs: seq<string>, now: int, n: nat,
                                         a: RowId, b: RowId)
    requires n <= |hs| && ValidTable(t) && a != b && a !in t.rows && b !in t.rows
    requires a in SucceedUpTo(t, rows, hs, now, n).rows && b in SucceedUpTo(t, rows, hs, now, n).rows
    requires forall i | 0 <= i < |rows| :: rows[i].id in t.rows
    ensures SucceedUpTo(t, rows, hs, now, n).rows[a].transactionHash
            != SucceedUpTo(t, rows, hs, now, n).rows[b].transactionHash
  {
    if n > 0 {
      var before := SucceedUpTo(t, rows, hs, now, n - 1);
      if a in before.rows && b in before.rows {
        NewRowsDiffer(t, rows, hs, now, n - 1, a, b);
      }
    }
  }

  lemma {:induction false} NextIdGrows(t: TxTable, rows: seq<TxSnapshot>, hs: seq<string>, now: int, n: nat)
    requires n <= |hs| && ValidTable(t)
    ensures var after := SucceedUpTo(t, rows, hs, now, n);
            ValidTable(after) && t.nextId <= after.nextId && t.rows.Keys <= after.rows.Keys
  {
    if n > 0 {
      NextIdGrows(t, rows, hs, now, n - 1);
    }
  }

  // When its turn comes, a hash without a row in the table gets one.
  lemma SucceedInsertsNow(t: TxTable, rows: seq<TxSnapshot>, hs: seq<string>, now: int, k: nat) returns (id: RowId)
    requires k < |hs| && ValidTable(t) && RowFor(rows, hs[k]).None?
    requires forall i | 0 <= i < |rows| :: rows[i].id in t.rows
    requires forall id | id in t.rows :: t.rows[id].transactionHash != Some(hs[k])
    ensures var after := SucceedUpTo(t, rows, hs, now, k + 1);
            id in after.rows && id !in t.rows && BackfilledFor(after.rows[id], rows, hs[k], now)
  {
    var before := SucceedUpTo(t, rows, hs, now, k);
    if i :| i in before.rows && before.rows[i].transactionHash == Some(hs[k]) {
      id := i;
      if id in t.rows {
        SucceedOldRow(t, rows, hs, now, k, id);
        assert false;
      }
      SucceedNewRow(t, rows, hs, now, k, id);
    } else {
      NextIdGrows(t, rows, hs, now, k);
      id := before.nextId;
    }
  }

  lemma {:induction false} SucceedInserts(t: TxTable, rows: seq<TxSnapshot>, hs: seq<string>, now: int, n: nat, k: nat)
    returns (id: RowId)
    requires k < n <= |hs| && ValidTable(t) && RowFor(rows, hs[k]).None?
    requires forall i | 0 <= i < |rows| :: rows[i].id in t.rows
    requires forall id | id in t.rows :: t.rows[id].transactionHash != Some(hs[k])
    ensures var after := SucceedUpTo(t, rows, hs, now, n);
            id in after.rows && id !in t.rows && BackfilledFor(after.rows[id], rows, hs[k], now)
  {
    if k < n - 1 {
      id := SucceedInserts(t, rows, hs, now, n - 1, k);
      NextIdGrows(t, rows, hs, now, n - 1);
    } else {
      id := SucceedInsertsNow(t, rows, hs, now, k);
    }
  }

  // The second loop fails exactly the orphaned rows of the snapshot.
  lemma {:induction false} OrphanLoop(mid: TxTable, rows: seq<TxSnapshot>, hs: seq<string>, now: int, n: nat, id: RowId)
    requires n <= |rows| && id in mid.rows
    ensures var after := OrphanUpTo(mid, rows, hs, now, n);
            && after.nextId == mid.nextId && after.rows.Keys == mid.rows.Keys
            && after.rows[id] == if exists i :: 0 <= i < n && rows[i].id == id && Orphaned(rows[i], hs, now)
                                 then mid.rows[id].(status := Failed) else mid.rows[id]
  {
    if n > 0 {
      OrphanLoop(mid, rows, hs, now, n - 1, id);
    }
  }

  lemma {:induction false} OrphanLoopKeys(mid: TxTable, rows: seq<TxSnapshot>, hs: seq<string>, now: int, n: nat)
    requires n <= |rows|
    ensures OrphanUpTo(mid, rows, hs, now, n).rows.Keys == mid.rows.Keys
    ensures OrphanUpTo(mid, rows, hs, now, n).nextId == mid.nextId
  {
    if n > 0 {
      OrphanLoopKeys(mid, rows, hs, now, n - 1);
    }
  }

  // ------------------------------------------------------------------
  // One pass
  // ------------------------------------------------------------------

  lemma MarkedExactlyWhenOnChain(t: TxTable, rows: seq<TxSnapshot>, hs: seq<string>, id: RowId)
    requires Enumerates(rows, t) && UniqueKeys(t) && id in t.rows
    ensures (exists k :: 0 <= k < |hs| && Marks(rows, hs[k], id))
            <==> t.rows[id].status == Pending && Key(t.rows[id]).Some? && Key(t.rows[id]).value in hs
  {
    if t.rows[id].status == Pending && Key(t.rows[id]).Some? && Key(t.rows[id]).value in hs {
      var k :| 0 <= k < |hs| && hs[k] == Key(t.rows[id]).value;
      LookupFindsKey(rows, t, hs[k]);
      assert Marks(rows, hs[k], id);
    }
    forall k | 0 <= k < |hs| && Marks(rows, hs[k], id)
      ensures t.rows[id].status == Pending && Key(t.rows[id]) == Some(hs[k])
    {
      LookupFindsKey(rows, t, hs[k]);
    }
  }

  lemma OrphanedExactlyWhen(t: TxTable, rows: seq<TxSnapshot>, hs: seq<string>, now: int, id: RowId)
    requires Enumerates(rows, t) && id in t.rows
    ensures (exists i :: 0 <= i < |rows| && rows[i].id == id && Orphaned(rows[i], hs, now))
            <==> && t.rows[id].status == Pending && Key(t.rows[id]).Some? && Key(t.rows[id]).value !in hs
                 && t.rows[id].submittedAt < now - ORPHAN_AGE_MS
  {
    if Key(t.rows[id]).Some? {
      var i := SnapshotOfRow(rows, t, id);
    }
  }

  // Both loops together do to every row what `Repaired` says.
  lemma PassRepairsRow(t: TxTable, rows: seq<TxSnapshot>, hs: seq<string>, now: int, id: RowId)
    requires ValidTable(t) && Enumerates(rows, t) && UniqueKeys(t) && id in t.rows
    ensures id in Pass(t, rows, hs, now).rows
    ensures Pass(t, rows, hs, now).rows[id] == Repaired(t.rows[id], hs, now)
  {
    SucceedOldRow(t, rows, hs, now, |hs|, id);
    OrphanLoop(SucceedUpTo(t, rows, hs, now, |hs|), rows, hs, now, |rows|, id);
    MarkedExactlyWhenOnChain(t, rows, hs, id);
    OrphanedExactlyWhen(t, rows, hs, now, id);
  }

  lemma PassKeepsTableValid(t: TxTable, rows: seq<TxSnapshot>, hs: seq<string>, now: int)
    requires ValidTable(t)
    ensures ValidTable(Pass(t, rows, hs, now))
  {
    NextIdGrows(t, rows, hs, now, |hs|);
    OrphanLoopKeys(SucceedUpTo(t, rows, hs, now, |hs|), rows, hs, now, |rows|);
  }

  // Every other row of the result is a successful one for a chain hash that had
  // no row before.
  lemma PassAddsRow(t: TxTable, rows: seq<TxSnapshot>, hs: seq<string>, now: int, id: RowId)
    requires ValidTable(t) && Enumerates(rows, t) && id !in t.rows && id in Pass(t, rows, hs, now).rows
    ensures exists k :: 0 <= k < |hs| && BackfilledFor(Pass(t, rows, hs, now).rows[id], rows, hs[k], now)
  {
    var mid := SucceedUpTo(t, rows, hs, now, |hs|);
    OrphanLoopKeys(mid, rows, hs, now, |rows|);
    OrphanLoop(mid, rows, hs, now, |rows|, id);
    SucceedNewRow(t, rows, hs, now, |hs|, id);
  }

  ghost predicate Covered(t: TxTable, h: string) {
    exists id :: id in t.rows && Key(t.rows[id]) == Some(h) && t.rows[id].status != Pending
  }

  // Every chain hash ends the pass with a row that is no longer pending.
  lemma PassCoversChain(t: TxTable, rows: seq<TxSnapshot>, hs: seq<string>, now: int, k: nat)
    requires ChainSet(hs) && ValidTable(t) && Enumerates(rows, t) && UniqueKeys(t) && k < |hs|
    ensures Covered(Pass(t, rows, hs, now), hs[k])
  {
    LookupFindsKey(rows, t, hs[k]);
    if RowFor(rows, hs[k]).Some? {
      var id := RowFor(rows, hs[k]).value.id;
      PassRepairsRow(t, rows, hs, now, id);
      assert Key(Pass(t, rows, hs, now).rows[id]) == Some(hs[k]);
    } else {
      forall id | id in t.rows
        ensures t.rows[id].transactionHash != Some(hs[k])
      {
        assert Key(t.rows[id]) != Some(hs[k]);
      }
      var mid := SucceedUpTo(t, rows, hs, now, |hs|);
      var id := SucceedInserts(t, rows, hs, now, |hs|, k);
      OrphanLoop(mid, rows, hs, now, |rows|, id);
      assert Key(Pass(t, rows, hs, now).rows[id]) == Some(hs[k]);
    }
  }

  lemma OldAndNewRowDiffer(t: TxTable, rows: seq<TxSnapshot>, hs: seq<string>, now: int, old_: RowId, new_: RowId)
    requires ChainSet(hs) && ValidTable(t) && Enumerates(rows, t) && UniqueKeys(t)
    requires old_ in t.rows && new_ !in t.rows && new_ in Pass(t, rows, hs, now).rows
    ensures old_ in Pass(t, rows, hs, now).rows
    ensures Key(Pass(t, rows, hs, now).rows[old_]) != Key(Pass(t, rows, hs, now).rows[new_])
  {
    PassRepairsRow(t, rows, hs, now, old_);
    PassAddsRow(t, rows, hs, now, new_);
    var k :| 0 <= k < |hs| && BackfilledFor(Pass(t, rows, hs, now).rows[new_], rows, hs[k], now);
    LookupFindsKey(rows, t, hs[k]);
  }

  lemma TwoNewRowsDiffer(t: TxTable, rows: seq<TxSnapshot>, hs: seq<string>, now: int, a: RowId, b: RowId)
    requires ChainSet(hs) && ValidTable(t) && Enumerates(rows, t)
    requires a != b && a !in t.rows && b !in t.rows
    requires a in Pass(t, rows, hs, now).rows && b in Pass(t, rows, hs, now).rows
    ensures Key(Pass(t, rows, hs, now).rows[a]) != Key(Pass(t, rows, hs, now).rows[b])
  {
    var mid := SucceedUpTo(t, rows, hs, now, |hs|);
    OrphanLoopKeys(mid, rows, hs, now, |rows|);
    OrphanLoop(mid, rows, hs, now, |rows|, a);
    OrphanLoop(mid, rows, hs, now, |rows|, b);
    NewRowsDiffer(t, rows, hs, now, |hs|, a, b);
    PassAddsRow(t, rows, hs, now, a);
    PassAddsRow(t, rows, hs, now, b);
  }

  lemma PassKeepsKeysUnique(t: TxTable, rows: seq<TxSnapshot>, hs: seq<string>, now: int)
    requires ChainSet(hs) && ValidTable(t) && Enumerates(rows, t) && UniqueKeys(t)
    ensures UniqueKeys(Pass(t, rows, hs, now))
  {
    var after := Pass(t, rows, hs, now);
    forall a, b | a in after.rows && b in after.rows && a != b && Key(after.rows[a]).Some?
      ensures Key(after.rows[a]) != Key(after.rows[b])
    {
      if a in t.rows && b in t.rows {
        PassRepairsRow(t, rows, hs, now, a);
        PassRepairsRow(t, rows, hs, now, b);
      } else if a in t.rows {
        OldAndNewRowDiffer(t, rows, hs, now, a, b);
      } else if b in t.rows {
        OldAndNewRowDiffer(t, rows, hs, now, b, a);
      } else {
        TwoNewRowsDiffer(t, rows, hs, now, a, b);
      }
    }
  }

  // Nothing is left to do: every chain hash is covered and no row needs repair.
  ghost predicate InStep(t: TxTable, hs: seq<string>, now: int) {
    && (forall k | 0 <= k < |hs| :: Covered(t, hs[k]))
    && (forall id | id in t.rows :: Repaired(t.rows[id], hs, now) == t.rows[id])
  }

  lemma PassBringsInStep(t: TxTable, rows: seq<TxSnapshot>, hs: seq<string>, now: int)
    requires ChainSet(hs) && ValidTable(t) && Enumerates(rows, t) && UniqueKeys(t)
    ensures InStep(Pass(t, rows, hs, now), hs, now)
  {
    var after := Pass(t, rows, hs, now);
    forall k | 0 <= k < |hs|
      ensures Covered(after, hs[k])
    {
      PassCoversChain(t, rows, hs, now, k);
    }
    forall id | id in after.rows
      ensures Repaired(after.rows[id], hs, now) == after.rows[id]
    {
      if id in t.rows {
        PassRepairsRow(t, rows, hs, now, id);
      } else {
        PassAddsRow(t, rows, hs, now, id);
      }
    }
  }

  lemma InStepMeansNoDrift(t: TxTable, rows: seq<TxSnapshot>, hs: seq<string>, now: int)
    requires Enumerates(rows, t) && UniqueKeys(t) && InStep(t, hs, now)
    ensures NoDrift(rows, hs, now)
  {
    forall k | 0 <= k < |hs|
      ensures RowFor(rows, hs[k]).Some? && RowFor(rows, hs[k]).value.status != Pending
    {
      assert Covered(t, hs[k]);
      LookupFindsKey(rows, t, hs[k]);
    }
    forall i | 0 <= i < |rows|
      ensures !Orphaned(rows[i], hs, now)
    {
      var row := t.rows[rows[i].id];
      assert Key(row) == Some(Lower(rows[i].hash));
      assert Repaired(row, hs, now) == row;
    }
  }

  // A second pass at the same clock, over any snapshot of the table the first
  // one left, finds no drift.
  lemma SecondPassFindsNoDrift(t: TxTable, rows: seq<TxSnapshot>, hs: seq<string>, now: int, again: seq<TxSnapshot>)
    requires ChainSet(hs) && ValidTable(t) && Enumerates(rows, t) && UniqueKeys(t)
    requires Enumerates(again, Pass(t, rows, hs, now))
    ensures NoDrift(again, hs, now)
  {
    PassKeepsKeysUnique(t, rows, hs, now);
    PassBringsInStep(t, rows, hs, now);
    InStepMeansNoDrift(Pass(t, rows, hs, now), again, hs, now);
  }

  // No row is both marked successful and marked orphaned, whatever the table.
  lemma LoopsTouchDisjointRows(rows: seq<TxSnapshot>, hs: seq<string>, now: int, k: nat, i: nat)
    requires k < |hs| && i < |rows| && forall a, b | 0 <= a < b < |rows| :: rows[a].id != rows[b].id
    requires RowFor(rows, hs[k]).Some? && Orphaned(rows[i], hs, now)
    ensures RowFor(rows, hs[k]).value.id != rows[i].id
  {
    var r := RowFor(rows, hs[k]).value;
    var j :| 0 <= j < |rows| && rows[j] == r;
    assert hs[k] in hs;
  }

  // ------------------------------------------------------------------
  // Refused backfills
  // ------------------------------------------------------------------

  // The upsert of a backfill names `transaction_hash` as its conflict target.
  // PostgreSQL refuses it unless a unique index on exactly that column stands by;
  // the migrations create a partial one, which does not serve.  `arbiter` says
  // whether there is such an index.
  function FirstUncovered(rows: seq<TxSnapshot>, hs: seq<string>, k: nat): (first: nat)
    requires k <= |hs|
    ensures k <= first <= |hs|
    ensures forall i | k <= i < first :: RowFor(rows, hs[i]).Some?
    ensures first < |hs| ==> RowFor(rows, hs[first]).None?
    decreases |hs| - k
  {
    if k == |hs| || RowFor(rows, hs[k]).None? then k else FirstUncovered(rows, hs, k + 1)
  }

  // How far the first loop comes.
  function Reached(rows: seq<TxSnapshot>, hs: seq<string>, arbiter: bool): (n: nat)
    ensures n <= |hs|
  {
    if arbiter then |hs| else FirstUncovered(rows, hs, 0)
  }

  datatype Outcome = Outcome(table: TxTable, completed: bool)

  // A refused backfill raises an error, and nothing after it is done.
  function Attempt(t: TxTable, rows: seq<TxSnapshot>, hs: seq<string>, now: int, arbiter: bool): Outcome {
    var n := Reached(rows, hs, arbiter);
    if n == |hs| then Outcome(Pass(t, rows, hs, now), true)
    else Outcome(SucceedUpTo(t, rows, hs, now, n), false)
  }

  ghost predicate HasRow(t: TxTable, h: string) {
    exists id :: id in t.rows && Key(t.rows[id]) == Some(h)
  }

  // Without the index a pass completes exactly when every chain hash has a row
  // already: it never backfills.
  lemma CompletesExactlyWhen(t: TxTable, rows: seq<TxSnapshot>, hs: seq<string>, now: int, arbiter: bool)
    requires Enumerates(rows, t) && UniqueKeys(t)
    ensures Attempt(t, rows, hs, now, arbiter).completed <==> arbiter || forall k | 0 <= k < |hs| :: HasRow(t, hs[k])
  {
    forall k | 0 <= k < |hs|
      ensures HasRow(t, hs[k]) <==> RowFor(rows, hs[k]).Some?
    {
      LookupFindsKey(rows, t, hs[k]);
    }
  }

  lemma {:induction false} NoBackfillYet(t: TxTable, rows: seq<TxSnapshot>, hs: seq<string>, now: int, n: nat)
    requires n <= |hs| && forall i | 0 <= i < n :: RowFor(rows, hs[i]).Some?
    ensures SucceedUpTo(t, rows, hs, now, n).rows.Keys == t.rows.Keys
    ensures SucceedUpTo(t, rows, hs, now, n).nextId == t.nextId
  {
    if n > 0 {
      NoBackfillYet(t, rows, hs, now, n - 1);
    }
  }

  // What a pass that is cut short leaves: pending rows of the chain hashes before
  // the first one without a row are successful, everything else is as it was.
  lemma AbortLeaves(t: TxTable, rows: seq<TxSnapshot>, hs: seq<string>, now: int, id: RowId)
    requires ValidTable(t) && Enumerates(rows, t) && UniqueKeys(t) && id in t.rows
    requires !Attempt(t, rows, hs, now, false).completed
    ensures var after, n := Attempt(t, rows, hs, now, false).table, FirstUncovered(rows, hs, 0);
            && after.rows.Keys == t.rows.Keys && after.nextId == t.nextId
            && after.rows[id]
               == if t.rows[id].status == Pending && Key(t.rows[id]).Some? && Key(t.rows[id]).value in hs[..n]
                  then t.rows[id].(status := Success) else t.rows[id]
  {
    var n := FirstUncovered(rows, hs, 0);
    NoBackfillYet(t, rows, hs, now, n);
    SucceedOldRow(t, rows, hs, now, n, id);
    MarkedExactlyWhenOnChain(t, rows, hs[..n], id);
    assert forall k | 0 <= k < n :: hs[..n][k] == hs[k];
  }

  lemma AbortKeepsTable(t: TxTable, rows: seq<TxSnapshot>, hs: seq<string>, now: int)
    requires ValidTable(t) && Enumerates(rows, t) && UniqueKeys(t) && !Attempt(t, rows, hs, now, false).completed
    ensures ValidTable(Attempt(t, rows, hs, now, false).table) && UniqueKeys(Attempt(t, rows, hs, now, false).table)
    ensures forall h :: HasRow(Attempt(t, rows, hs, now, false).table, h) <==> HasRow(t, h)
  {
    var after := Attempt(t, rows, hs, now, false).table;
    NoBackfillYet(t, rows, hs, now, FirstUncovered(rows, hs, 0));
    forall id | id in t.rows
      ensures Key(after.rows[id]) == Key(t.rows[id])
    {
      AbortLeaves(t, rows, hs, now, id);
    }
    forall h ensures HasRow(after, h) <==> HasRow(t, h) {
      if id :| id in t.rows && Key(t.rows[id]) == Some(h) {
        assert Key(after.rows[id]) == Some(h);
      }
    }
  }

  // A pass that is cut short does not help the next one: it is cut short as well,
  // for every chain that still has the uncovered hash.
  lemma AbortPersists(t: TxTable, rows: seq<TxSnapshot>, hs: seq<string>, now: int,
                      again: seq<TxSnapshot>, more: seq<string>, later: int)
    requires ValidTable(t) && Enumerates(rows, t) && UniqueKeys(t) && !Attempt(t, rows, hs, now, false).completed
    requires Enumerates(again, Attempt(t, rows, hs, now, false).table)
    requires hs[FirstUncovered(rows, hs, 0)] in more
    ensures !Attempt(Attempt(t, rows, hs, now, false).table, again, more, later, false).completed
  {
    var after, h := Attempt(t, rows, hs, now, false).table, hs[FirstUncovered(rows, hs, 0)];
    AbortKeepsTable(t, rows, hs, now);
    LookupFindsKey(rows, t, h);
    assert !HasRow(after, h);
    CompletesExactlyWhen(after, again, more, later, false);
    var k :| 0 <= k < |more| && more[k] == h;
  }

  // A table in step lets every pass complete.
  lemma InStepCompletes(t: TxTable, rows: seq<TxSnapshot>, hs: seq<string>, now: int, arbiter: bool)
    requires Enumerates(rows, t) && UniqueKeys(t) && InStep(t, hs, now)
    ensures Attempt(t, rows, hs, now, arbiter).completed
  {
    CompletesExactlyWhen(t, rows, hs, now, arbiter);
    forall k | 0 <= k < |hs| ensures HasRow(t, hs[k]) {
      assert Covered(t, hs[k]);
    }
  }
}
