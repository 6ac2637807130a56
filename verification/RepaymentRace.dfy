// Several checker workers applying repayments to one loan at once: each reads
// the balance and later writes it back less its amount, with no guard between.
// Amounts and balances are in whole cents, so no rounding takes part.
module RepaymentRace {
  import opened Common

  datatype Phase = Ready | Holding(balance: nat) | Done

  datatype Race = Race(balance: nat, phases: seq<Phase>)

  datatype Step = Read(worker: nat) | Write(worker: nat)

  function Start(balance: nat, amounts: seq<nat>): Race {
    Race(balance, seq(|amounts|, _ => Ready))
  }

  // A step that is not enabled does nothing.
  function Apply(race: Race, step: Step, amounts: seq<nat>): Race
    requires |race.phases| == |amounts|
  {
    var w := step.worker;
    if w >= |amounts| then race
    else if step.Read? then
      if race.phases[w].Ready? then race.(phases := race.phases[w := Holding(race.balance)]) else race
    else
      if race.phases[w].Holding?
      then Race(Max(0, race.phases[w].balance - amounts[w]), race.phases[w := Done]) else race
  }

  ghost function Run(balance: nat, amounts: seq<nat>, steps: seq<Step>): (race: Race)
    ensures |race.phases| == |amounts|
  {
    if steps == [] then Start(balance, amounts)
    else Apply(Run(balance, amounts, steps[..|steps| - 1]), steps[|steps| - 1], amounts)
  }

  ghost predicate Complete(race: Race) {
    forall w | 0 <= w < |race.phases| :: race.phases[w] == Done
  }

  // Whichever way the workers interleave, no repayment is lost.
  ghost predicate NothingLost(balance: nat, amounts: seq<nat>) {
    forall steps: seq<Step> | Complete(Run(balance, amounts, steps)) ::
      Run(balance, amounts, steps).balance == Max(0, balance - Sum(amounts))
  }

  // One repayment, or repayments none of which changes the outcome of another.
  ghost predicate Harmless(balance: nat, amounts: seq<nat>) {
    || |amounts| <= 1
    || (forall w | 0 <= w < |amounts| :: amounts[w] >= balance)
    || (forall w | 0 <= w < |amounts| :: amounts[w] == 0)
  }

  lemma {:induction false} SumCovers(amounts: seq<nat>, w: nat)
    requires w < |amounts|
    ensures amounts[w] <= Sum(amounts)
    ensures (exists v :: 0 <= v < |amounts| && v != w && amounts[v] > 0) ==> amounts[w] < Sum(amounts)
  {
    var last := |amounts| - 1;
    if w < last {
      SumCovers(amounts[..last], w);
    } else if v :| 0 <= v < last && amounts[v] > 0 {
      SumCovers(amounts[..last], v);
    }
  }

  lemma {:induction false} SumOfZeros(amounts: seq<nat>)
    requires forall w | 0 <= w < |amounts| :: amounts[w] == 0
    ensures Sum(amounts) == 0
  {
    if amounts != [] {
      SumOfZeros(amounts[..|amounts| - 1]);
    }
  }

  // ------------------------------------------------------------------
  // Harmless races
  // ------------------------------------------------------------------

  // Until the first write every worker sees the initial balance; what a write
  // leaves is final in a harmless race.
  ghost predicate OnCourse(balance: nat, amounts: seq<nat>, race: Race) {
    && |race.phases| == |amounts|
    && race.balance <= balance
    && (forall w | 0 <= w < |race.phases| && race.phases[w].Holding? :: race.phases[w].balance <= balance)
    && (Done !in race.phases ==>
          && race.balance == balance
          && forall w | 0 <= w < |race.phases| && race.phases[w].Holding? :: race.phases[w].balance == balance)
    && (Done in race.phases ==> race.balance == Max(0, balance - Sum(amounts)))
    && ((forall w | 0 <= w < |amounts| :: amounts[w] == 0) ==>
          forall w | 0 <= w < |race.phases| && race.phases[w].Holding? :: race.phases[w].balance == balance)
  }

  lemma WriteStaysOnCourse(balance: nat, amounts: seq<nat>, race: Race, w: nat)
    requires Harmless(balance, amounts) && OnCourse(balance, amounts, race)
    requires w < |amounts| && race.phases[w].Holding?
    ensures Max(0, race.phases[w].balance - amounts[w]) == Max(0, balance - Sum(amounts))
  {
    SumCovers(amounts, w);
    if forall v | 0 <= v < |amounts| :: amounts[v] == 0 {
      SumOfZeros(amounts);
    } else if |amounts| == 1 {
      assert amounts[..0] == [];
      assert Done !in race.phases;
    }
  }

  lemma {:induction false} HarmlessRuns(balance: nat, amounts: seq<nat>, steps: seq<Step>)
    requires Harmless(balance, amounts)
    ensures OnCourse(balance, amounts, Run(balance, amounts, steps))
  {
    if steps != [] {
      HarmlessRuns(balance, amounts, steps[..|steps| - 1]);
      var race, step := Run(balance, amounts, steps[..|steps| - 1]), steps[|steps| - 1];
      var after := Run(balance, amounts, steps);
      if step.Write? && step.worker < |amounts| && race.phases[step.worker].Holding? {
        WriteStaysOnCourse(balance, amounts, race, step.worker);
        assert after.phases[step.worker] == Done;
      } else if after != race {
        assert Done in after.phases ==> Done in race.phases;
        assert Done in race.phases ==> Done in after.phases by {
          if w :| 0 <= w < |race.phases| && race.phases[w] == Done { assert after.phases[w] == Done; }
        }
        if forall w | 0 <= w < |amounts| :: amounts[w] == 0 {
          SumOfZeros(amounts);
        }
      }
    }
  }

  // ------------------------------------------------------------------
  // The others
  // ------------------------------------------------------------------

  function Reads(n: nat): (steps: seq<Step>)
    ensures |steps| == n
  {
    if n == 0 then [] else Reads(n - 1) + [Read(n - 1)]
  }

  // Everybody reads, then everybody but `last` writes.
  function WritesButFor(n: nat, last: nat, total: nat): (steps: seq<Step>)
    requires n <= total
  {
    if n == 0 then Reads(total)
    else if n - 1 == last then WritesButFor(n - 1, last, total)
    else WritesButFor(n - 1, last, total) + [Write(n - 1)]
  }

  lemma {:induction false} AfterReads(balance: nat, amounts: seq<nat>, n: nat)
    requires n <= |amounts|
    ensures var race := Run(balance, amounts, Reads(n));
            race.balance == balance
            && forall w | 0 <= w < |amounts| :: race.phases[w] == if w < n then Holding(balance) else Ready
  {
    if n > 0 {
      AfterReads(balance, amounts, n - 1);
      assert Reads(n)[..n - 1] == Reads(n - 1);
    }
  }

  lemma {:induction false} AfterWrites(balance: nat, amounts: seq<nat>, n: nat, last: nat)
    requires n <= |amounts| && last < |amounts|
    ensures var race := Run(balance, amounts, WritesButFor(n, last, |amounts|));
            forall w | 0 <= w < |amounts| :: race.phases[w] == if w < n && w != last then Done else Holding(balance)
  {
    if n == 0 {
      AfterReads(balance, amounts, |amounts|);
    } else {
      AfterWrites(balance, amounts, n - 1, last);
      assert Run(balance, amounts, WritesButFor(n - 1, last, |amounts|)).phases[n - 1] == Holding(balance);
      var steps := WritesButFor(n, last, |amounts|);
      var before := WritesButFor(n - 1, last, |amounts|);
      if n - 1 != last {
        assert steps == before + [Write(n - 1)];
        assert steps[..|steps| - 1] == before && steps[|steps| - 1] == Write(n - 1);
        var race := Run(balance, amounts, before);
        assert Run(balance, amounts, steps) == Apply(race, Write(n - 1), amounts);
        assert Run(balance, amounts, steps).phases == race.phases[n - 1 := Done];
      }
    }
  }

  // When everybody has read before anybody writes, the last write is all that
  // remains.
  lemma LastWriteWins(balance: nat, amounts: seq<nat>, last: nat) returns (steps: seq<Step>)
    requires last < |amounts|
    ensures Complete(Run(balance, amounts, steps))
    ensures Run(balance, amounts, steps).balance == Max(0, balance - amounts[last])
  {
    var before := WritesButFor(|amounts|, last, |amounts|);
    AfterWrites(balance, amounts, |amounts|, last);
    assert Run(balance, amounts, WritesButFor(|amounts|, last, |amounts|)).phases[last] == Holding(balance);
    steps := before + [Write(last)];
    assert steps[..|steps| - 1] == before && steps[|steps| - 1] == Write(last);
    var race := Run(balance, amounts, before);
    assert Run(balance, amounts, steps) == Apply(race, Write(last), amounts);
    assert Run(balance, amounts, steps).phases == race.phases[last := Done];
  }

  // The balance is right in every interleaving exactly when the race is
  // harmless; in particular not for any two repayments smaller than the balance.
  lemma NothingIsLostExactlyWhen(balance: nat, amounts: seq<nat>)
    ensures NothingLost(balance, amounts) <==> Harmless(balance, amounts)
  {
    if Harmless(balance, amounts) {
      forall steps: seq<Step> | Complete(Run(balance, amounts, steps))
        ensures Run(balance, amounts, steps).balance == Max(0, balance - Sum(amounts))
      {
        HarmlessRuns(balance, amounts, steps);
        var race := Run(balance, amounts, steps);
        if amounts != [] {
          assert race.phases[0] == Done;
        }
      }
    } else {
      var w :| 0 <= w < |amounts| && amounts[w] < balance;
      var v :| 0 <= v < |amounts| && amounts[v] > 0;
      var last := if amounts[w] < Sum(amounts) then w else if w == 0 then 1 else 0;
      SumCovers(amounts, w);
      SumCovers(amounts, v);
      SumCovers(amounts, last);
      var steps := LastWriteWins(balance, amounts, last);
      assert Run(balance, amounts, steps).balance != Max(0, balance - Sum(amounts));
    }
  }
}
