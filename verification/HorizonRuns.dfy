// The Horizon client over whole runs: calls one after the other, and calls that
// overlap at their awaits.
module HorizonRuns {
  import opened Common
  import opened HorizonFailover

  // The errors an endpoint produced since it last answered.
  function Errors(log: seq<Outcome>): nat {
    if log == [] then 0
    else match log[|log| - 1]
      case Answer => 0
      case EndpointError => Errors(log[..|log| - 1]) + 1
      case OtherError => Errors(log[..|log| - 1])
  }

  lemma ErrorsGrow(log: seq<Outcome>, o: Outcome)
    ensures Errors(log + [o]) == match o
                                 case Answer => 0
                                 case EndpointError => Errors(log) + 1
                                 case OtherError => Errors(log)
  {
    assert (log + [o])[..|log|] == log;
  }

  // ------------------------------------------------------------------
  // Calls one after the other
  // ------------------------------------------------------------------

  datatype Client = Client(breakers: seq<Breaker>, current: nat)

  ghost predicate ValidClient(c: Client) {
    c.current < |c.breakers|
  }

  function CallOn(c: Client, script: seq<Visit>): Client
    requires |script| == |c.breakers| && c.current < |c.breakers|
  {
    var call := CallFrom(c.breakers, c.current, script, 0);
    Client(call.breakers, if call.result.Served? then call.result.index else c.current)
  }

  // The visit at which a call contacts endpoint `e`, if it does.
  function ContactOf(c: Client, script: seq<Visit>, e: nat): Option<Visit>
    requires |script| == |c.breakers| && c.current < |c.breakers| && e < |c.breakers|
  {
    var i := Turn(c.current, e, |c.breakers|);
    if i <= Stop(c.breakers, c.current, script, 0) && !Cooling(c.breakers[e], script[i].checkedAt)
    then Some(script[i]) else None
  }

  lemma CallThroughContact(c: Client, script: seq<Visit>, e: nat)
    requires |script| == |c.breakers| && ValidClient(c) && e < |c.breakers|
    ensures var after := CallOn(c, script);
            && ValidClient(after) && |after.breakers| == |c.breakers|
            && after.breakers[e] == match ContactOf(c, script, e)
                                    case None => c.breakers[e]
                                    case Some(v) => Visited(c.breakers[e], v)
  {
    CallMeans(c.breakers, c.current, script);
    var i := Turn(c.current, e, |c.breakers|);
    assert CallOn(c, script).breakers[Index(c.current, i, |c.breakers|)]
        == BreakerAfter(c.breakers, c.current, script, i);
  }

  ghost predicate Scripts(c: Client, calls: seq<seq<Visit>>) {
    forall k | 0 <= k < |calls| :: |calls[k]| == |c.breakers|
  }

  ghost function After(c: Client, calls: seq<seq<Visit>>): (after: Client)
    requires ValidClient(c) && Scripts(c, calls)
    ensures ValidClient(after) && |after.breakers| == |c.breakers|
  {
    if calls == [] then c
    else
      var before, last := After(c, calls[..|calls| - 1]), calls[|calls| - 1];
      CallThroughContact(before, last, 0);
      CallOn(before, last)
  }

  // All contacts of endpoint `e` in a run, in order.
  ghost function Contacts(c: Client, calls: seq<seq<Visit>>, e: nat): seq<Visit>
    requires ValidClient(c) && Scripts(c, calls) && e < |c.breakers|
  {
    if calls == [] then []
    else
      var front, last := calls[..|calls| - 1], calls[|calls| - 1];
      Contacts(c, front, e) + match ContactOf(After(c, front), last, e) case None => [] case Some(v) => [v]
  }

  function Outcomes(log: seq<Visit>): (os: seq<Outcome>)
    ensures |os| == |log|
  {
    seq(|log|, i requires 0 <= i < |log| => log[i].outcome)
  }

  // What the breaker of an endpoint knows about its contacts.
  ghost predicate Remembers(b: Breaker, log: seq<Visit>) {
    && Agrees(b, Errors(Outcomes(log)))
    && (b.status == Open ==> log != [] && b.cooldownUntil == Some(log[|log| - 1].doneAt + COOLDOWN_MS))
    && (log != [] && log[|log| - 1].outcome == EndpointError && Errors(Outcomes(log)) >= MAX_FAILURES
        ==> b.status == Open)
  }

  // A contact that opened the breaker, or kept it open, is followed by a rest:
  // the next contact comes no sooner than the cooldown allows.
  ghost predicate Rested(log: seq<Visit>, k: nat)
    requires k + 1 < |log|
  {
    log[k].outcome == EndpointError && Errors(Outcomes(log[..k + 1])) >= MAX_FAILURES
    ==> log[k + 1].checkedAt >= log[k].doneAt + COOLDOWN_MS
  }

  lemma RememberMore(b: Breaker, log: seq<Visit>, v: Visit)
    requires Remembers(b, log) && !Cooling(b, v.checkedAt)
    requires forall k: nat | k + 1 < |log| :: Rested(log, k)
    ensures Remembers(Visited(b, v), log + [v])
    ensures forall k: nat | k + 1 < |log + [v]| :: Rested(log + [v], k)
  {
    var next := log + [v];
    assert Outcomes(next) == Outcomes(log) + [v.outcome];
    ErrorsGrow(Outcomes(log), v.outcome);
    forall k: nat | k + 1 < |next|
      ensures Rested(next, k)
    {
      assert next[..k + 1] == log[..k + 1];
      if k + 1 < |log| {
        assert Rested(log, k);
      } else {
        assert log[..k + 1] == log;
      }
    }
  }

  // In every run of calls from a fresh endpoint, its breaker counts the errors
  // since its last answer and no contact falls into a cooldown.
  lemma {:induction false} BreakerRemembersRun(c: Client, calls: seq<seq<Visit>>, e: nat)
    requires ValidClient(c) && Scripts(c, calls) && e < |c.breakers| && c.breakers[e] == FRESH
    ensures Remembers(After(c, calls).breakers[e], Contacts(c, calls, e))
    ensures forall k: nat | k + 1 < |Contacts(c, calls, e)| :: Rested(Contacts(c, calls, e), k)
  {
    if calls != [] {
      var front, last := calls[..|calls| - 1], calls[|calls| - 1];
      BreakerRemembersRun(c, front, e);
      var before := After(c, front);
      CallThroughContact(before, last, e);
      var contact := ContactOf(before, last, e);
      if contact.Some? {
        RememberMore(before.breakers[e], Contacts(c, front, e), contact.value);
      } else {
        assert Contacts(c, calls, e) == Contacts(c, front, e);
      }
    }
  }

  ghost function ResultAt(c: Client, calls: seq<seq<Visit>>, k: nat): Result
    requires ValidClient(c) && Scripts(c, calls) && k < |calls|
  {
    var before := After(c, calls[..k]);
    CallFrom(before.breakers, before.current, calls[k], 0).result
  }

  lemma {:induction false} UnservedKeepPreference(c: Client, calls: seq<seq<Visit>>, k: nat)
    requires ValidClient(c) && Scripts(c, calls) && k <= |calls|
    requires forall j: nat | k <= j < |calls| :: !ResultAt(c, calls, j).Served?
    ensures After(c, calls).current == After(c, calls[..k]).current
  {
    var n := |calls| - 1;
    if k == |calls| {
      assert calls[..k] == calls;
    } else {
      forall j: nat | j <= n ensures calls[..n][..j] == calls[..j] {}
      forall j: nat | k <= j < n ensures !ResultAt(c, calls[..n], j).Served? {
        assert !ResultAt(c, calls, j).Served?;
      }
      UnservedKeepPreference(c, calls[..n], k);
      assert !ResultAt(c, calls, n).Served?;
    }
  }

  // A run starts its next call with the endpoint that served last.
  lemma LastServerIsPreferred(c: Client, calls: seq<seq<Visit>>, k: nat)
    requires ValidClient(c) && Scripts(c, calls) && k < |calls| && ResultAt(c, calls, k).Served?
    requires forall j: nat | k < j < |calls| :: !ResultAt(c, calls, j).Served?
    ensures After(c, calls).current == ResultAt(c, calls, k).index
  {
    UnservedKeepPreference(c, calls, k + 1);
    assert calls[..k + 1][..k] == calls[..k];
  }

  // ------------------------------------------------------------------
  // How often a dead endpoint is contacted
  // ------------------------------------------------------------------

  ghost predicate AlwaysFails(c: Client, calls: seq<seq<Visit>>, e: nat)
    requires ValidClient(c) && Scripts(c, calls) && e < |c.breakers|
  {
    forall k | 0 <= k < |Contacts(c, calls, e)| :: Contacts(c, calls, e)[k].outcome == EndpointError
  }

  lemma {:induction false} OnlyErrors(log: seq<Outcome>)
    requires forall k | 0 <= k < |log| :: log[k] == EndpointError
    ensures Errors(log) == |log|
  {
    if log != [] {
      OnlyErrors(log[..|log| - 1]);
    }
  }

  lemma {:induction false} ContactsSpread(log: seq<Visit>, k: nat)
    requires 2 <= k < |log| && forall j | 0 <= j < |log| :: log[j].outcome == EndpointError
    requires forall j | 0 <= j < |log| :: log[j].checkedAt <= log[j].doneAt
    requires forall j: nat | j + 1 < |log| :: Rested(log, j)
    ensures log[k].checkedAt >= log[2].checkedAt + (k - 2) * COOLDOWN_MS
  {
    if k > 2 {
      ContactsSpread(log, k - 1);
      assert Rested(log, k - 1);
      OnlyErrors(Outcomes(log[..k]));
    }
  }

  // An endpoint that never answers is contacted at most 3 + T / 30000 times,
  // T being the time since its third contact.
  lemma DeadEndpointContacts(c: Client, calls: seq<seq<Visit>>, e: nat, now: nat)
    requires ValidClient(c) && Scripts(c, calls) && e < |c.breakers| && c.breakers[e] == FRESH
    requires AlwaysFails(c, calls, e)
    requires forall k | 0 <= k < |Contacts(c, calls, e)| ::
               Contacts(c, calls, e)[k].checkedAt <= Contacts(c, calls, e)[k].doneAt
    requires forall k | 0 <= k < |Contacts(c, calls, e)| :: Contacts(c, calls, e)[k].checkedAt <= now
    ensures var log := Contacts(c, calls, e);
            |log| > 3 ==> |log| <= 3 + (now - log[2].checkedAt) / 30_000
  {
    var log := Contacts(c, calls, e);
    if |log| > 3 {
      BreakerRemembersRun(c, calls, e);
      ContactsSpread(log, |log| - 1);
      assert now - log[2].checkedAt >= (|log| - 3) * COOLDOWN_MS;
    }
  }

  // ------------------------------------------------------------------
  // Calls that overlap
  // ------------------------------------------------------------------

  // A call in flight: where it started, which turn it is at and whether it is
  // waiting for the endpoint of that turn.
  datatype Flight = Flight(start: nat, turn: nat, waiting: bool)

  datatype Step =
    | Begin(call: nat)
    | Check(call: nat, now: nat)
    | Complete(call: nat, outcome: Outcome, now: nat)

  // `log[e]` lists what the contacts of endpoint `e` came to, in the order in
  // which they were completed.
  datatype System = System(breakers: seq<Breaker>, current: nat, flights: map<nat, Flight>, log: seq<seq<Outcome>>)

  ghost predicate WellFormed(s: System) {
    && s.current < |s.breakers| == |s.log|
    && forall call | call in s.flights :: s.flights[call].start < |s.breakers| && s.flights[call].turn < |s.breakers|
  }

  function EndFlight(s: System, call: nat): System {
    s.(flights := map k | k in s.flights && k != call :: s.flights[k])
  }

  // The next turn of the call, or "all unavailable" when there is none.
  function NextTurn(s: System, call: nat): System
    requires call in s.flights
  {
    var f := s.flights[call];
    if f.turn + 1 < |s.breakers| then s.(flights := s.flights[call := Flight(f.start, f.turn + 1, false)])
    else EndFlight(s, call)
  }

  // One step of one call; a step that is not enabled does nothing.
  function Apply(s: System, step: Step): (after: System)
    requires 0 < |s.breakers| == |s.log|
    ensures |after.breakers| == |after.log| == |s.breakers|
  {
    match step
    case Begin(call) =>
      if call in s.flights then s else s.(flights := s.flights[call := Flight(s.current, 0, false)])
    case Check(call, now) =>
      if call !in s.flights || s.flights[call].waiting then s
      else
        var f := s.flights[call];
        var idx := Index(f.start, f.turn, |s.breakers|);
        if Cooling(s.breakers[idx], now) then NextTurn(s, call)
        else s.(breakers := s.breakers[idx := Admit(s.breakers[idx])],
                flights := s.flights[call := f.(waiting := true)])
    case Complete(call, outcome, now) =>
      if call !in s.flights || !s.flights[call].waiting then s
      else
        var f := s.flights[call];
        var idx := Index(f.start, f.turn, |s.breakers|);
        var logged := s.(log := s.log[idx := s.log[idx] + [outcome]]);
        match outcome
        case Answer => EndFlight(logged.(breakers := s.breakers[idx := FRESH], current := idx), call)
        case OtherError => EndFlight(logged, call)
        case EndpointError => NextTurn(logged.(breakers := s.breakers[idx := Fail(s.breakers[idx], now)]), call)
  }

  // Every breaker agrees with the log of its endpoint.
  ghost predicate Consistent(s: System) {
    && WellFormed(s)
    && forall e | 0 <= e < |s.breakers| :: Agrees(s.breakers[e], Errors(s.log[e]))
  }

  lemma StepKeepsConsistent(s: System, step: Step)
    requires Consistent(s)
    ensures Consistent(Apply(s, step))
  {
    if step.Complete? && step.call in s.flights && s.flights[step.call].waiting {
      var f := s.flights[step.call];
      var idx := Index(f.start, f.turn, |s.breakers|);
      ErrorsGrow(s.log[idx], step.outcome);
    }
  }

  function Initial(endpoints: nat): System {
    System(seq(endpoints, _ => FRESH), 0, map[], seq(endpoints, _ => []))
  }

  ghost function Run(endpoints: nat, steps: seq<Step>): (s: System)
    requires endpoints > 0
    ensures |s.breakers| == |s.log| == endpoints
  {
    if steps == [] then Initial(endpoints)
    else Apply(Run(endpoints, steps[..|steps| - 1]), steps[|steps| - 1])
  }

  // In every interleaving of any number of calls, each breaker's failure count
  // is the number of endpoint errors since the last answer of its endpoint, it
  // is closed exactly while that number is below three, and it has a cooldown
  // exactly when it is not closed.
  lemma {:induction false} EveryInterleavingIsConsistent(endpoints: nat, steps: seq<Step>)
    requires endpoints > 0
    ensures Consistent(Run(endpoints, steps))
  {
    if steps != [] {
      EveryInterleavingIsConsistent(endpoints, steps[..|steps| - 1]);
      StepKeepsConsistent(Run(endpoints, steps[..|steps| - 1]), steps[|steps| - 1]);
    }
  }

  // ------------------------------------------------------------------
  // A call that nothing interrupts
  // ------------------------------------------------------------------

  // The remaining turns of one call, with no step of another in between.
  ghost function FlyFrom(s: System, call: nat, script: seq<Visit>, i: nat): System
    requires 0 < |s.breakers| == |s.log| && i <= |script|
    decreases |script| - i
  {
    if i == |script| then s else FlyFrom(OneTurn(s, call, script[i]), call, script, i + 1)
  }

  function OneTurn(s: System, call: nat, v: Visit): (after: System)
    requires 0 < |s.breakers| == |s.log|
    ensures |after.breakers| == |after.log| == |s.breakers|
  {
    Apply(Apply(s, Check(call, v.checkedAt)), Complete(call, v.outcome, v.doneAt))
  }

  lemma {:induction false} EndedFlightIsQuiet(s: System, call: nat, script: seq<Visit>, i: nat)
    requires 0 < |s.breakers| == |s.log| && i <= |script| && call !in s.flights
    ensures FlyFrom(s, call, script, i) == s
    decreases |script| - i
  {
    if i < |script| {
      EndedFlightIsQuiet(s, call, script, i + 1);
    }
  }

  // One turn: the endpoint's breaker is visited, and the call moves on exactly when
  // the endpoint was cooling or failed and another one is left.
  lemma TurnOfFlight(s: System, call: nat, v: Visit)
    requires WellFormed(s) && call in s.flights && !s.flights[call].waiting
    ensures var after, f, n := OneTurn(s, call, v), s.flights[call], |s.breakers|;
            var idx := Index(f.start, f.turn, n);
            var moves := Cooling(s.breakers[idx], v.checkedAt) || v.outcome == EndpointError;
            && after.breakers == s.breakers[idx := Visited(s.breakers[idx], v)]
            && after.current == (if !moves && v.outcome == Answer then idx else s.current)
            && after.flights == if moves && f.turn + 1 < n then s.flights[call := Flight(f.start, f.turn + 1, false)]
                                else s.flights - {call}
  {
    var f := s.flights[call];
    var idx := Index(f.start, f.turn, |s.breakers|);
    if Cooling(s.breakers[idx], v.checkedAt) {
      assert s.breakers[idx := s.breakers[idx]] == s.breakers;
    } else {
      var checked := Apply(s, Check(call, v.checkedAt));
      assert checked.flights[call] == Flight(f.start, f.turn, true);
      if v.outcome == OtherError {
        assert OneTurn(s, call, v).breakers == checked.breakers;
      }
    }
  }

  lemma {:induction false} FlightIsCallFrom(s: System, call: nat, script: seq<Visit>, start: nat, i: nat)
    requires WellFormed(s) && |script| == |s.breakers| && i < |script|
    requires call in s.flights && s.flights[call] == Flight(start, i, false)
    ensures var after, c := FlyFrom(s, call, script, i), CallFrom(s.breakers, start, script, i);
            && after.breakers == c.breakers && after.flights == s.flights - {call}
            && after.current == if c.result.Served? then c.result.index else s.current
    decreases |script| - i
  {
    var after := OneTurn(s, call, script[i]);
    TurnOfFlight(s, call, script[i]);
    CallUnfolds(s.breakers, start, script, i);
    if call in after.flights {
      FlightIsCallFrom(after, call, script, start, i + 1);
      assert after.flights - {call} == s.flights - {call};
    } else {
      EndedFlightIsQuiet(after, call, script, i + 1);
    }
  }

  // A call of the interleaved model that no other call interrupts is the call of
  // the client: same breakers, same preference, and the others stay where they are.
  lemma UndisturbedFlightIsCall(s: System, call: nat, script: seq<Visit>)
    requires WellFormed(s) && |script| == |s.breakers| && call !in s.flights
    ensures var after := FlyFrom(Apply(s, Begin(call)), call, script, 0);
            && Client(after.breakers, after.current) == CallOn(Client(s.breakers, s.current), script)
            && after.flights == s.flights
  {
    var begun := Apply(s, Begin(call));
    assert begun.flights - {call} == s.flights;
    FlightIsCallFrom(begun, call, script, s.current, 0);
  }
}
