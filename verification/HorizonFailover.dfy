// The Horizon client: one circuit breaker per endpoint, a preferred endpoint
// and failover in cyclic order.
module HorizonFailover {
  import opened Common

  datatype Status = Closed | Open | HalfOpen

  datatype Breaker = Breaker(status: Status, failureCount: nat, cooldownUntil: Option<nat>)

  const MAX_FAILURES := 3
  const COOLDOWN_MS := 30_000

  // How an endpoint reacts when it is contacted: it answers, it fails with an
  // error that is the endpoint's fault, or with one that is not.
  datatype Outcome = Answer | EndpointError | OtherError

  // One visit of an endpoint: when its breaker is looked at, how it would react
  // and when that reaction would be complete.
  datatype Visit = Visit(checkedAt: nat, outcome: Outcome, doneAt: nat)

  datatype Result = Served(index: nat) | Rethrown(index: nat) | AllUnavailable

  // ------------------------------------------------------------------
  // One breaker
  // ------------------------------------------------------------------

  const FRESH := Breaker(Closed, 0, None)

  predicate Cooling(b: Breaker, now: nat) {
    b.status == Open && b.cooldownUntil.Some? && b.cooldownUntil.value != 0 && now < b.cooldownUntil.value
  }

  function Admit(b: Breaker): Breaker {
    if b.status == Open then b.(status := HalfOpen) else b
  }

  function Fail(b: Breaker, now: nat): Breaker {
    var failed := b.(failureCount := b.failureCount + 1);
    if failed.failureCount >= MAX_FAILURES
    then failed.(status := Open, cooldownUntil := Some(now + COOLDOWN_MS))
    else failed
  }

  // The breaker agrees with the number of endpoint errors since the last answer.
  predicate Agrees(b: Breaker, errors: nat) {
    && b.failureCount == errors
    && (b.status == Closed <==> errors < MAX_FAILURES)
    && (b.status == Closed <==> b.cooldownUntil.None?)
    && (b.cooldownUntil.Some? ==> b.cooldownUntil.value > 0)
  }

  // A failure makes an endpoint cool down exactly when it is at least the third since
  // the last answer, and for thirty seconds.
  lemma CoolsExactlyWhen(b: Breaker, errors: nat, at: nat, now: nat)
    requires Agrees(b, errors)
    ensures Cooling(Fail(b, at), now) <==> errors >= 2 && now < at + 30_000
    ensures !Cooling(FRESH, now)
  {}

  // ------------------------------------------------------------------
  // One call
  // ------------------------------------------------------------------

  function Index(start: nat, i: nat, n: nat): (idx: nat)
    requires n > 0
    ensures idx < n
  {
    (start + i) % n
  }

  // What one visit does to the breaker.
  function Visited(b: Breaker, v: Visit): Breaker {
    if Cooling(b, v.checkedAt) then b
    else match v.outcome
      case Answer => FRESH
      case OtherError => Admit(b)
      case EndpointError => Fail(Admit(b), v.doneAt)
  }

  datatype Call = Call(breakers: seq<Breaker>, result: Result)

  function CallFrom(bs: seq<Breaker>, start: nat, script: seq<Visit>, i: nat): Call
    requires i <= |bs| == |script| && |bs| > 0
    decreases |bs| - i
  {
    if i == |bs| then Call(bs, AllUnavailable)
    else
      var idx, v := Index(start, i, |bs|), script[i];
      if Cooling(bs[idx], v.checkedAt) then CallFrom(bs, start, script, i + 1)
      else
        match v.outcome
        case Answer => Call(bs[idx := FRESH], Served(idx))
        case OtherError => Call(bs[idx := Admit(bs[idx])], Rethrown(idx))
        case EndpointError => CallFrom(bs[idx := Fail(Admit(bs[idx]), v.doneAt)], start, script, i + 1)
  }

  lemma IndexIsInjective(start: nat, i: nat, j: nat, n: nat)
    requires start < n && i < n && j < n && i != j
    ensures Index(start, i, n) != Index(start, j, n)
  {
    IndexUnfolds(start, i, n);
    IndexUnfolds(start, j, n);
  }

  lemma IndexUnfolds(start: nat, i: nat, n: nat)
    requires start < n && i < n
    ensures Index(start, i, n) == if start + i < n then start + i else start + i - n
  {}

  // Every endpoint has its turn.
  function Turn(start: nat, e: nat, n: nat): (i: nat)
    requires start < n && e < n
    ensures i < n && Index(start, i, n) == e
  {
    var i := if start <= e then e - start else n + e - start;
    IndexUnfolds(start, i, n);
    i
  }

  // The call moves on from its `i`-th visit.
  predicate MovesOn(bs: seq<Breaker>, start: nat, script: seq<Visit>, i: nat)
    requires i < |bs| == |script|
  {
    Cooling(bs[Index(start, i, |bs|)], script[i].checkedAt) || script[i].outcome == EndpointError
  }

  // The visit at which the call ends, or the number of endpoints if none does.
  function Stop(bs: seq<Breaker>, start: nat, script: seq<Visit>, i: nat): (k: nat)
    requires i <= |bs| == |script|
    ensures i <= k <= |bs|
    ensures forall j | i <= j < k :: MovesOn(bs, start, script, j)
    ensures k < |bs| ==> !MovesOn(bs, start, script, k)
    decreases |bs| - i
  {
    if i == |bs| || !MovesOn(bs, start, script, i) then i else Stop(bs, start, script, i + 1)
  }

  // What a whole call does to one breaker, given the turn of its endpoint.
  function BreakerAfter(bs: seq<Breaker>, start: nat, script: seq<Visit>, i: nat): Breaker
    requires i < |bs| == |script|
  {
    var b := bs[Index(start, i, |bs|)];
    if i <= Stop(bs, start, script, 0) then Visited(b, script[i]) else b
  }

  ghost predicate SameFrom(bs: seq<Breaker>, orig: seq<Breaker>, start: nat, i: nat)
    requires |bs| == |orig|
  {
    forall j | i <= j < |bs| :: bs[Index(start, j, |bs|)] == orig[Index(start, j, |bs|)]
  }

  // From its `i`-th visit on, a call over breakers that still have their
  // original state behaves as the closed form over the originals says.
  lemma {:induction false} CallFromMeans(bs: seq<Breaker>, orig: seq<Breaker>, start: nat, script: seq<Visit>, i: nat)
    requires i <= |bs| == |script| == |orig| && start < |bs| && SameFrom(bs, orig, start, i)
    requires i <= Stop(orig, start, script, 0)
    requires forall j | 0 <= j < i :: bs[Index(start, j, |bs|)] == BreakerAfter(orig, start, script, j)
    ensures var c := CallFrom(bs, start, script, i);
            var stop := Stop(orig, start, script, 0);
            && |c.breakers| == |bs|
            && c.result == (if stop == |bs| then AllUnavailable
                            else if script[stop].outcome == Answer then Served(Index(start, stop, |bs|))
                            else Rethrown(Index(start, stop, |bs|)))
            && forall j | 0 <= j < |bs| :: c.breakers[Index(start, j, |bs|)] == BreakerAfter(orig, start, script, j)
    decreases |bs| - i
  {
    var stop := Stop(orig, start, script, 0);
    if i < |bs| {
      var idx := Index(start, i, |bs|);
      forall j | 0 <= j < |bs| && j != i
        ensures Index(start, j, |bs|) != idx
      {
        IndexIsInjective(start, i, j, |bs|);
      }
      assert bs[idx] == orig[idx];
      if i < stop {
        assert MovesOn(orig, start, script, i);
        CallFromMeans(if Cooling(bs[idx], script[i].checkedAt) then bs
                      else bs[idx := Fail(Admit(bs[idx]), script[i].doneAt)], orig, start, script, i + 1);
      }
    }
  }

  // A whole call: it is served by the first endpoint that is not cooling and
  // answers, it reports "all unavailable" exactly when every endpoint was
  // cooling or failed, and each breaker changes through its own visit only.
  lemma CallMeans(bs: seq<Breaker>, start: nat, script: seq<Visit>)
    requires |bs| == |script| && start < |bs|
    ensures var c := CallFrom(bs, start, script, 0);
            var stop := Stop(bs, start, script, 0);
            && |c.breakers| == |bs|
            && (c.result == AllUnavailable <==> forall i | 0 <= i < |bs| :: MovesOn(bs, start, script, i))
            && (c.result.Served? <==> stop < |bs| && script[stop].outcome == Answer)
            && (stop < |bs| ==> c.result != AllUnavailable && c.result.index == Index(start, stop, |bs|))
            && forall j | 0 <= j < |bs| :: c.breakers[Index(start, j, |bs|)] == BreakerAfter(bs, start, script, j)
  {
    CallFromMeans(bs, bs, start, script, 0);
  }

  // ------------------------------------------------------------------
  // The client
  // ------------------------------------------------------------------

  class HorizonClient {
    const states: array<Breaker>
    var currentIndex: nat

    constructor (endpoints: nat)
      requires endpoints > 0
      ensures fresh(states) && Valid() && currentIndex == 0
      ensures states.Length == endpoints && forall i | 0 <= i < endpoints :: states[i] == FRESH
    {
      states := new Breaker[endpoints](_ => FRESH);
      currentIndex := 0;
    }

    ghost predicate Valid()
      reads this
    {
      currentIndex < states.Length
    }

    // One turn of the loop: skip a cooling endpoint, otherwise contact it.
    method TryEndpoint(idx: nat, v: Visit) returns (ended: Option<Result>)
      requires idx < states.Length
      modifies this`currentIndex, states
      ensures |states[..]| == |old(states[..])|
      ensures ended.None? <==> Cooling(old(states[idx]), v.checkedAt) || v.outcome == EndpointError
      ensures ended.Some? ==> ended.value == if v.outcome == Answer then Served(idx) else Rethrown(idx)
      ensures currentIndex == if ended == Some(Served(idx)) then idx else old(currentIndex)
      ensures states[..] == old(states[..])[idx := Visited(old(states[idx]), v)]
    {
      if states[idx].status == Open {
        if Cooling(states[idx], v.checkedAt) {
          return None;
        }
        states[idx] := states[idx].(status := HalfOpen);
      }
      match v.outcome {
        case Answer =>
          states[idx] := FRESH;
          currentIndex := idx;
          return Some(Served(idx));
        case OtherError =>
          return Some(Rethrown(idx));
        case EndpointError =>
          states[idx] := Fail(states[idx], v.doneAt);
          return None;
      }
    }

    method WithFailover(script: seq<Visit>) returns (result: Result)
      requires Valid() && |script| == states.Length
      modifies this`currentIndex, states
      ensures Valid()
      ensures Call(states[..], result) == CallFrom(old(states[..]), old(currentIndex), script, 0)
      ensures currentIndex == if result.Served? then result.index else old(currentIndex)
    {
      var n := states.Length;
      var startIndex := currentIndex;
      var tried := {};
      ghost var call := CallFrom(states[..], startIndex, script, 0);
      for i := 0 to n
        invariant currentIndex == startIndex
        invariant TriedFirst(startIndex, n, tried, i)
        invariant CallFrom(states[..], startIndex, script, i) == call
      {
        var idx := Index(startIndex, i, n);
        assert idx !in tried;
        if idx in tried {
          continue;
        }
        MarkTried(startIndex, i, n, tried);
        tried := tried + {idx};
        CallUnfolds(states[..], startIndex, script, i);
        var ended := TryEndpoint(idx, script[i]);
        if ended.Some? {
          return ended.value;
        }
      }
      result := AllUnavailable;
    }
  }

  lemma CallUnfolds(bs: seq<Breaker>, start: nat, script: seq<Visit>, i: nat)
    requires i < |bs| == |script|
    ensures var idx, v := Index(start, i, |bs|), script[i];
            var after := bs[idx := Visited(bs[idx], v)];
            CallFrom(bs, start, script, i) ==
            if Cooling(bs[idx], v.checkedAt) || v.outcome == EndpointError then CallFrom(after, start, script, i + 1)
            else Call(after, if v.outcome == Answer then Served(idx) else Rethrown(idx))
  {
    var idx := Index(start, i, |bs|);
    assert bs[idx := bs[idx]] == bs;
  }

  ghost predicate TriedFirst(start: nat, n: nat, tried: set<nat>, i: nat)
    requires n > 0
  {
    forall k | 0 <= k < n :: Index(start, k, n) in tried <==> k < i
  }

  lemma MarkTried(start: nat, i: nat, n: nat, tried: set<nat>)
    requires start < n && i < n && TriedFirst(start, n, tried, i)
    ensures TriedFirst(start, n, tried + {Index(start, i, n)}, i + 1)
  {
    forall k | 0 <= k < n && k != i
      ensures Index(start, k, n) != Index(start, i, n)
    {
      IndexIsInjective(start, k, i, n);
    }
  }
}
