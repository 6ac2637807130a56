// Reconciliation jobs of several processes on the liquidity positions: each reads
// the table once and then updates or inserts position by position.  No constraint
// keeps a wallet from having two rows.
module LiquidityJobs {
  import opened Common
  import opened AuthoritativeReader
  import B = BalanceReconciliation

  datatype Job = Job(rows: seq<B.LiquiditySnapshot>, positions: seq<Position>, next: nat)

  datatype System = System(table: B.LiquidityTable, jobs: map<nat, Job>)

  datatype Step =
    | Start(who: nat, rows: seq<B.LiquiditySnapshot>, positions: seq<Position>)
    | Turn(who: nat)

  ghost predicate CanStart(s: System, step: Step) {
    step.Start? && step.who !in s.jobs && B.Enumerates(step.rows, s.table) && DistinctWallets(step.positions)
  }

  predicate CanTurn(s: System, step: Step) {
    step.Turn? && step.who in s.jobs && s.jobs[step.who].next < |s.jobs[step.who].positions|
  }

  ghost function Apply(s: System, step: Step): System {
    if CanStart(s, step) then s.(jobs := s.jobs[step.who := Job(step.rows, step.positions, 0)])
    else if CanTurn(s, step) then
      var job := s.jobs[step.who];
      System(B.Step(s.table, job.rows, job.positions[job.next]), s.jobs[step.who := job.(next := job.next + 1)])
    else s
  }

  ghost function Run(s: System, steps: seq<Step>): System {
    if steps == [] then s else Apply(Run(s, steps[..|steps| - 1]), steps[|steps| - 1])
  }

  // ------------------------------------------------------------------
  // The rows of a wallet
  // ------------------------------------------------------------------

  function RowsOf(t: B.LiquidityTable, wallet: string): set<B.RowId> {
    set id | id in t.rows && t.rows[id].wallet == wallet
  }

  ghost predicate Fits(t: B.LiquidityTable, job: Job) {
    && DistinctWallets(job.positions) && job.next <= |job.positions|
    && forall i | 0 <= i < |job.rows| ::
         job.rows[i].id in t.rows && t.rows[job.rows[i].id].wallet == job.rows[i].row.wallet
  }

  ghost predicate Inv(s: System) {
    B.ValidTable(s.table) && forall who | who in s.jobs :: Fits(s.table, s.jobs[who])
  }

  // The turn inserts a row for the wallet.
  ghost predicate Inserts(s: System, step: Step, wallet: string) {
    && CanTurn(s, step)
    && var job := s.jobs[step.who];
       job.positions[job.next].wallet == wallet && B.RowFor(job.rows, wallet).None?
  }

  lemma TurnOnRows(t: B.LiquidityTable, job: Job, wallet: string)
    requires B.ValidTable(t) && Fits(t, job) && job.next < |job.positions|
    ensures var p := job.positions[job.next];
            var after := B.Step(t, job.rows, p);
            && B.ValidTable(after)
            && (forall id | id in t.rows :: id in after.rows && after.rows[id].wallet == t.rows[id].wallet)
            && RowsOf(after, wallet)
               == RowsOf(t, wallet) + if p.wallet == wallet && B.RowFor(job.rows, wallet).None? then {t.nextId} else {}
  {
    var p := job.positions[job.next];
    var r := B.RowFor(job.rows, p.wallet);
    if r.Some? {
      var i :| 0 <= i < |job.rows| && job.rows[i] == r.value;
    }
  }

  lemma StepOnRows(s: System, step: Step, wallet: string)
    requires Inv(s)
    ensures var after := Apply(s, step);
            && Inv(after)
            && RowsOf(after.table, wallet)
               == RowsOf(s.table, wallet) + if Inserts(s, step, wallet) then {s.table.nextId} else {}
    ensures s.table.nextId !in RowsOf(s.table, wallet)
  {
    if CanTurn(s, step) {
      TurnOnRows(s.table, s.jobs[step.who], wallet);
    }
  }

  lemma {:induction false} RowsOnlyGrow(s: System, steps: seq<Step>, wallet: string)
    requires Inv(s)
    ensures Inv(Run(s, steps)) && RowsOf(s.table, wallet) <= RowsOf(Run(s, steps).table, wallet)
  {
    if steps != [] {
      RowsOnlyGrow(s, steps[..|steps| - 1], wallet);
      StepOnRows(Run(s, steps[..|steps| - 1]), steps[|steps| - 1], wallet);
    }
  }

  // ------------------------------------------------------------------
  // Two rows of one wallet
  // ------------------------------------------------------------------

  // An insert for a wallet that has a row by then.
  ghost predicate LateInsert(s: System, steps: seq<Step>, i: nat, wallet: string) {
    i < |steps| && Inserts(Run(s, steps[..i]), steps[i], wallet) && RowsOf(Run(s, steps[..i]).table, wallet) != {}
  }

  // Over every run of any number of jobs: a wallet ends with more than one row
  // exactly when some insert for it is late.
  lemma {:induction false} DuplicatedExactlyWhen(s: System, steps: seq<Step>, wallet: string)
    requires Inv(s) && |RowsOf(s.table, wallet)| <= 1
    ensures |RowsOf(Run(s, steps).table, wallet)| > 1 <==> exists i: nat :: LateInsert(s, steps, i, wallet)
  {
    if steps != [] {
      var n := |steps| - 1;
      var front := steps[..n];
      DuplicatedExactlyWhen(s, front, wallet);
      LateBefore(s, steps, wallet);
      RowsOnlyGrow(s, front, wallet);
      StepOnRows(Run(s, front), steps[n], wallet);
      OneRowMore(Run(s, front), steps[n], wallet);
    }
  }

  lemma LateBefore(s: System, steps: seq<Step>, wallet: string)
    requires steps != []
    ensures var front := steps[..|steps| - 1];
            (exists i: nat :: LateInsert(s, steps, i, wallet))
            <==> (exists i: nat :: LateInsert(s, front, i, wallet)) || LateInsert(s, steps, |front|, wallet)
  {
    var front := steps[..|steps| - 1];
    forall i: nat | i < |front| ensures LateInsert(s, steps, i, wallet) <==> LateInsert(s, front, i, wallet) {
      assert front[..i] == steps[..i];
    }
  }

  lemma OneRowMore(s: System, step: Step, wallet: string)
    requires Inv(s)
    ensures |RowsOf(Apply(s, step).table, wallet)|
            == |RowsOf(s.table, wallet)| + if Inserts(s, step, wallet) then 1 else 0
    ensures RowsOf(s.table, wallet) == {} <==> |RowsOf(s.table, wallet)| == 0
  {
    StepOnRows(s, step, wallet);
  }

  // ------------------------------------------------------------------
  // Late inserts need overlapping jobs
  // ------------------------------------------------------------------

  ghost predicate Starts(steps: seq<Step>, k: nat, who: nat) {
    k < |steps| && steps[k].Start? && steps[k].who == who
  }

  ghost predicate InsertedBetween(s: System, steps: seq<Step>, k: nat, n: nat, wallet: string, other: nat) {
    exists m: nat :: k < m < n <= |steps| && InsertsAt(s, steps, m, wallet) && steps[m].who != other
  }

  ghost predicate InsertsAt(s: System, steps: seq<Step>, m: nat, wallet: string) {
    m < |steps| && Inserts(Run(s, steps[..m]), steps[m], wallet)
  }

  // What the snapshot of a job says of a wallet: it has no row until, after the
  // start of the job, one is inserted by another job, or this one had its turn.
  ghost predicate SnapshotHolds(s: System, steps: seq<Step>, k: nat, who: nat, wallet: string) {
    && Starts(steps, k, who) && who in Run(s, steps).jobs
    && var job := Run(s, steps).jobs[who];
       && job.next <= |job.positions|
       && (B.RowFor(job.rows, wallet).None? ==>
             || RowsOf(Run(s, steps).table, wallet) == {}
             || InsertedBetween(s, steps, k, |steps|, wallet, who)
             || exists q: nat :: q < job.next && job.positions[q].wallet == wallet)
  }

  lemma {:induction false} SnapshotsHold(s: System, steps: seq<Step>, who: nat, wallet: string) returns (k: nat)
    requires Inv(s) && who !in s.jobs && who in Run(s, steps).jobs
    ensures SnapshotHolds(s, steps, k, who, wallet)
  {
    var n := |steps| - 1;
    var front := steps[..n];
    var before := Run(s, front);
    RowsOnlyGrow(s, front, wallet);
    StepOnRows(before, steps[n], wallet);
    if who in before.jobs {
      k := SnapshotsHold(s, front, who, wallet);
      InsertedBefore(s, steps, k, wallet, who);
      SnapshotHoldsOn(s, steps, k, who, wallet);
    } else {
      k := n;
      StartedNow(before, steps[n], wallet);
    }
  }

  lemma StartedNow(s: System, step: Step, wallet: string)
    requires CanStart(s, step)
    ensures B.RowFor(step.rows, wallet).None? ==> RowsOf(s.table, wallet) == {}
  {}

  lemma InsertedBefore(s: System, steps: seq<Step>, k: nat, wallet: string, other: nat)
    requires steps != []
    ensures InsertedBetween(s, steps[..|steps| - 1], k, |steps| - 1, wallet, other)
            ==> InsertedBetween(s, steps, k, |steps|, wallet, other)
  {
    var front := steps[..|steps| - 1];
    if InsertedBetween(s, front, k, |front|, wallet, other) {
      var m: nat :| k < m < |front| && InsertsAt(s, front, m, wallet) && front[m].who != other;
      assert front[..m] == steps[..m];
      assert InsertsAt(s, steps, m, wallet) && steps[m].who != other;
    }
  }

  lemma SnapshotHoldsOn(s: System, steps: seq<Step>, k: nat, who: nat, wallet: string)
    requires steps != [] && Inv(Run(s, steps[..|steps| - 1]))
    requires SnapshotHolds(s, steps[..|steps| - 1], k, who, wallet)
    requires InsertedBetween(s, steps[..|steps| - 1], k, |steps| - 1, wallet, who)
             ==> InsertedBetween(s, steps, k, |steps|, wallet, who)
    ensures SnapshotHolds(s, steps, k, who, wallet)
  {
    var n := |steps| - 1;
    var front := steps[..n];
    var before, after := Run(s, front), Run(s, steps);
    StepOnRows(before, steps[n], wallet);
    var job := before.jobs[who];
    assert who in after.jobs && after.jobs[who].rows == job.rows && after.jobs[who].positions == job.positions;
    if B.RowFor(job.rows, wallet).None? {
      if q: nat :| q < job.next && job.positions[q].wallet == wallet {
        assert q < after.jobs[who].next;
      } else if Inserts(before, steps[n], wallet) {
        if steps[n].who == who {
          assert after.jobs[who].positions[job.next].wallet == wallet && job.next < after.jobs[who].next;
        } else {
          assert InsertsAt(s, steps, n, wallet);
        }
      }
    }
  }

  // A late insert is made by a job that started before another one inserted the row
  // it did not see.
  lemma LateInsertsOverlap(s: System, steps: seq<Step>, i: nat, wallet: string) returns (k: nat)
    requires Inv(s) && LateInsert(s, steps, i, wallet) && steps[i].who !in s.jobs
    ensures Starts(steps, k, steps[i].who) && InsertedBetween(s, steps, k, i, wallet, steps[i].who)
  {
    var front, who := steps[..i], steps[i].who;
    RowsOnlyGrow(s, front, wallet);
    k := SnapshotsHold(s, front, who, wallet);
    var job := Run(s, front).jobs[who];
    assert Fits(Run(s, front).table, job);
    if q: nat :| q < job.next && job.positions[q].wallet == wallet {
      assert false;
    }
    var m: nat :| k < m < i && InsertsAt(s, front, m, wallet) && front[m].who != who;
    assert front[..m] == steps[..m];
    assert InsertsAt(s, steps, m, wallet) && steps[m].who != who;
  }

  // Two jobs that both start from an empty table both insert.
  lemma OverlappingJobsDuplicate(wallet: string, amount: real)
    ensures var p := Position(wallet, amount);
            var steps := [Start(0, [], [p]), Start(1, [], [p]), Turn(0), Turn(1)];
            Run(System(B.LiquidityTable(map[], 0), map[]), steps).table.rows
            == map[0 := B.LiquidityRow(wallet, amount), 1 := B.LiquidityRow(wallet, amount)]
  {
    var p := Position(wallet, amount);
    var steps := [Start(0, [], [p]), Start(1, [], [p]), Turn(0), Turn(1)];
    var s := System(B.LiquidityTable(map[], 0), map[]);
    assert steps[..3][..2] == steps[..2] && steps[..2][..1] == steps[..1] && steps[..1][..0] == [];
    var s2 := System(s.table, map[0 := Job([], [p], 0), 1 := Job([], [p], 0)]);
    assert Run(s, steps[..1]) == System(s.table, map[0 := Job([], [p], 0)]);
    assert Run(s, steps[..2]) == s2;
    assert Run(s, steps[..3]).table == B.Step(s.table, [], p);
  }

  // ------------------------------------------------------------------
  // What a second row means
  // ------------------------------------------------------------------

  // What the backend shows as invested: it asks for a single row, and takes an
  // error for nothing.
  ghost predicate Shows(t: B.LiquidityTable, wallet: string, amount: real) {
    if |RowsOf(t, wallet)| == 1 then forall id | id in RowsOf(t, wallet) :: t.rows[id].amount == amount
    else amount == 0.0
  }

  // Once a wallet has two rows nothing is shown for it any more, in every run of
  // every number of jobs.
  lemma DuplicatedShowsNothing(s: System, steps: seq<Step>, wallet: string, amount: real)
    requires Inv(s) && |RowsOf(s.table, wallet)| > 1
    ensures Shows(Run(s, steps).table, wallet, amount) <==> amount == 0.0
  {
    RowsOnlyGrow(s, steps, wallet);
    SubsetIsNoLarger(RowsOf(s.table, wallet), RowsOf(Run(s, steps).table, wallet));
  }

  // And of the rows of a wallet a pass changes at most the one it reads last.
  lemma {:induction false} PassChangesOneRow(t: B.LiquidityTable, rows: seq<B.LiquiditySnapshot>, ps: seq<Position>,
                                             n: nat, id: B.RowId)
    requires n <= |ps| && B.ValidTable(t) && B.Enumerates(rows, t) && id in t.rows
    ensures var after := B.PassUpTo(t, rows, ps, n);
            && B.ValidTable(after) && id in after.rows && t.nextId <= after.nextId
            && (after.rows[id] != t.rows[id] ==>
                  B.RowFor(rows, t.rows[id].wallet) == Some(B.LiquiditySnapshot(id, t.rows[id])))
  {
    if n > 0 {
      PassChangesOneRow(t, rows, ps, n - 1, id);
      var r := B.RowFor(rows, ps[n - 1].wallet);
      if r.Some? {
        var i :| 0 <= i < |rows| && rows[i] == r.value;
      }
    }
  }
}
