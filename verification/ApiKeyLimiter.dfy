// The request counters of the API key guard: one per key and one per IP, each a
// cache entry whose time to live starts again with every accepted request.
//
// A request is one step here, as when no other one comes between its read and its
// write of the counter; `OverlappingRequests` is about those that overlap.
//
// Times are in the unit the cache counts its time to live in.
module ApiKeyLimiter {
  import opened Common

  const WINDOW := 60
  const MAX_PER_KEY := 60
  const MAX_PER_IP := 30

  datatype Counter = Counter(count: nat, expiresAt: int)

  // Whether the cache still has an entry at the very instant it expires is up to
  // the cache: `lingers` decides that case.
  datatype Request = Request(key: string, now: int, lingers: bool)

  function Current(entry: Option<Counter>, r: Request): nat {
    if entry.Some? && (r.now < entry.value.expiresAt || (r.now == entry.value.expiresAt && r.lingers))
    then entry.value.count else 0
  }

  predicate Accepts(entry: Option<Counter>, r: Request, max: nat) {
    Current(entry, r) < max
  }

  function After(entry: Option<Counter>, r: Request, max: nat): Option<Counter> {
    if Accepts(entry, r, max) then Some(Counter(Current(entry, r) + 1, r.now + WINDOW)) else entry
  }

  // The counter of `key` once `requests`, of any keys, have been seen.
  function EntryAfter(requests: seq<Request>, key: string, max: nat): Option<Counter> {
    if requests == [] then None
    else
      var before, last := EntryAfter(requests[..|requests| - 1], key, max), requests[|requests| - 1];
      if last.key == key then After(before, last, max) else before
  }

  predicate Accepted(requests: seq<Request>, i: nat, max: nat)
    requires i < |requests|
  {
    Accepts(EntryAfter(requests[..i], requests[i].key, max), requests[i], max)
  }

  // How many of the first `n` requests of `key` were accepted in [from, to].
  function AcceptedIn(requests: seq<Request>, n: nat, key: string, from: int, to: int, max: nat): nat
    requires n <= |requests|
  {
    if n == 0 then 0
    else
      AcceptedIn(requests, n - 1, key, from, to, max)
      + if requests[n - 1].key == key && from <= requests[n - 1].now <= to && Accepted(requests, n - 1, max) then 1
        else 0
  }

  function TimeOf(r: Request): int {
    r.now
  }

  // ------------------------------------------------------------------
  // The bound
  // ------------------------------------------------------------------

  // While the interval lasts, the counter covers every request accepted in it.
  ghost predicate Covers(entry: Option<Counter>, accepted: nat, from: int, max: nat) {
    && accepted <= max
    && (accepted > 0 ==> entry.Some? && entry.value.expiresAt >= from + WINDOW && entry.value.count >= accepted)
  }

  lemma {:induction false} CounterCovers(requests: seq<Request>, n: nat, key: string, from: int, to: int, max: nat)
    requires n <= |requests| && ClockGoesForward(requests, TimeOf) && to - from < WINDOW
    ensures AcceptedIn(requests, n, key, from, to, max) <= max
    ensures n > 0 && requests[n - 1].now < from ==> AcceptedIn(requests, n, key, from, to, max) == 0
    ensures n == 0 || requests[n - 1].now <= to ==>
              Covers(EntryAfter(requests[..n], key, max), AcceptedIn(requests, n, key, from, to, max), from, max)
  {
    if n > 0 {
      CounterCovers(requests, n - 1, key, from, to, max);
      assert requests[..n][..n - 1] == requests[..n - 1];
    }
  }

  // In any interval shorter than the window, at most `max` requests of a key are
  // accepted.
  lemma AtMostMaxInAnyWindow(requests: seq<Request>, key: string, from: int, to: int, max: nat)
    requires ClockGoesForward(requests, TimeOf) && to - from < 60
    ensures AcceptedIn(requests, |requests|, key, from, to, max) <= max
  {
    CounterCovers(requests, |requests|, key, from, to, max);
  }

  // ------------------------------------------------------------------
  // What a rejection means
  // ------------------------------------------------------------------

  ghost predicate LastAcceptedAt(requests: seq<Request>, i: nat, key: string, max: nat) {
    && i < |requests| && requests[i].key == key && Accepted(requests, i, max)
    && forall j | i < j < |requests| && requests[j].key == key :: !Accepted(requests, j, max)
  }

  lemma {:induction false} EntryRemembersLast(requests: seq<Request>, key: string, max: nat) returns (i: nat)
    requires EntryAfter(requests, key, max).Some?
    ensures LastAcceptedAt(requests, i, key, max)
    ensures EntryAfter(requests, key, max).value.expiresAt == requests[i].now + WINDOW
  {
    var n := |requests| - 1;
    var front, last := requests[..n], requests[n];
    if last.key == key && Accepted(requests, n, max) {
      i := n;
    } else {
      assert EntryAfter(requests, key, max) == EntryAfter(front, key, max);
      i := EntryRemembersLast(front, key, max);
      assert front[..i] == requests[..i];
      forall j | i < j < |requests| && requests[j].key == key ensures !Accepted(requests, j, max) {
        if j < n {
          assert front[..j] == requests[..j];
          assert !Accepted(front, j, max);
        }
      }
    }
  }

  // Rejections do not prolong the wait: a key is rejected only within one window
  // of the last request that was accepted.
  lemma RejectionFollowsAcceptance(requests: seq<Request>, r: Request, max: nat) returns (i: nat)
    requires max > 0 && !Accepts(EntryAfter(requests, r.key, max), r, max)
    ensures LastAcceptedAt(requests, i, r.key, max) && r.now <= requests[i].now + WINDOW
  {
    i := EntryRemembersLast(requests, r.key, max);
  }

  // ------------------------------------------------------------------
  // What the counter counts
  // ------------------------------------------------------------------

  // The accepted requests of a key, in order.
  function AcceptedOf(requests: seq<Request>, key: string, max: nat): seq<Request> {
    if requests == [] then []
    else
      var n := |requests| - 1;
      var front := AcceptedOf(requests[..n], key, max);
      if requests[n].key == key && Accepted(requests, n, max) then front + [requests[n]] else front
  }

  // `r` comes after a pause of a whole window.
  predicate Pauses(previous: Request, r: Request) {
    r.now > previous.now + 60 || (r.now == previous.now + 60 && !r.lingers)
  }

  // How many requests at the end follow one another without a pause.
  function Streak(accepted: seq<Request>): nat {
    if accepted == [] then 0
    else
      var n := |accepted| - 1;
      if n == 0 || Pauses(accepted[n - 1], accepted[n]) then 1 else Streak(accepted[..n]) + 1
  }

  lemma {:induction false} StreakIsLongest(accepted: seq<Request>)
    requires accepted != []
    ensures 1 <= Streak(accepted) <= |accepted|
    ensures forall i | |accepted| - Streak(accepted) < i < |accepted| :: !Pauses(accepted[i - 1], accepted[i])
    ensures Streak(accepted) < |accepted| ==>
              var i := |accepted| - Streak(accepted);
              Pauses(accepted[i - 1], accepted[i])
  {
    var n := |accepted| - 1;
    if n > 0 && !Pauses(accepted[n - 1], accepted[n]) {
      var front := accepted[..n];
      StreakIsLongest(front);
      forall i | |accepted| - Streak(accepted) < i < |accepted| ensures !Pauses(accepted[i - 1], accepted[i]) {
        assert i < n ==> front[i - 1] == accepted[i - 1] && front[i] == accepted[i];
      }
    }
  }

  // For every history: the counter of a key is the number of accepted requests
  // since the last one that followed a pause, and it lives for a window after the
  // last one.
  lemma {:induction false} CounterIsStreak(requests: seq<Request>, key: string, max: nat)
    ensures var accepted := AcceptedOf(requests, key, max);
            && Streak(accepted) <= max
            && EntryAfter(requests, key, max)
               == if accepted == [] then None
                  else Some(Counter(Streak(accepted), accepted[|accepted| - 1].now + WINDOW))
  {
    if requests != [] {
      var n := |requests| - 1;
      var r := requests[n];
      CounterIsStreak(requests[..n], key, max);
      var before := AcceptedOf(requests[..n], key, max);
      if r.key == key && Accepted(requests, n, max) {
        var accepted := AcceptedOf(requests, key, max);
        assert accepted == before + [r] && accepted[..|before|] == before;
        if before != [] {
          assert accepted[|before| - 1] == before[|before| - 1];
        }
      }
    }
  }

  // For every history: a request is rejected exactly when it comes without a
  // pause after a streak of `max` accepted ones.
  lemma RejectedExactlyWhen(requests: seq<Request>, r: Request, max: nat)
    requires max > 0
    ensures var accepted := AcceptedOf(requests, r.key, max);
            !Accepts(EntryAfter(requests, r.key, max), r, max)
            <==> Streak(accepted) == max && accepted != [] && !Pauses(accepted[|accepted| - 1], r)
  {
    CounterIsStreak(requests, r.key, max);
  }

  // ------------------------------------------------------------------
  // A steady client
  // ------------------------------------------------------------------

  function Steady(key: string, gap: nat, n: nat): (requests: seq<Request>)
    ensures |requests| == n
  {
    if n == 0 then [] else Steady(key, gap, n - 1) + [Request(key, (n - 1) * gap, false)]
  }

  lemma {:induction false} SteadyCount(key: string, gap: nat, n: nat, max: nat)
    requires 0 < n <= max && gap < WINDOW
    ensures EntryAfter(Steady(key, gap, n), key, max) == Some(Counter(n, (n - 1) * gap + WINDOW))
  {
    var requests := Steady(key, gap, n);
    assert requests[..n - 1] == Steady(key, gap, n - 1);
    if n > 1 {
      SteadyCount(key, gap, n - 1, max);
      assert (n - 1) * gap == (n - 2) * gap + gap;
    }
  }

  // An instance: a client that keeps one pace gets its `max + 1`st request
  // accepted exactly when it pauses for a window, however slow it is otherwise.
  lemma SteadyClientIsAcceptedExactlyWhen(key: string, gap: nat, max: nat)
    requires max > 0
    ensures Accepts(EntryAfter(Steady(key, gap, max), key, max), Request(key, max * gap, false), max) <==> gap >= 60
  {
    if gap < WINDOW {
      SteadyCount(key, gap, max, max);
      assert max * gap == (max - 1) * gap + gap;
    } else {
      SlowClient(key, gap, max, max);
      assert max * gap == (max - 1) * gap + gap;
    }
  }

  lemma {:induction false} SlowClient(key: string, gap: nat, n: nat, max: nat)
    requires 0 < n && gap >= WINDOW && max > 0
    ensures EntryAfter(Steady(key, gap, n), key, max) == Some(Counter(1, (n - 1) * gap + WINDOW))
  {
    var requests := Steady(key, gap, n);
    assert requests[..n - 1] == Steady(key, gap, n - 1);
    if n > 1 {
      SlowClient(key, gap, n - 1, max);
      assert (n - 1) * gap == (n - 2) * gap + gap;
    }
  }

  // ------------------------------------------------------------------
  // The guard
  // ------------------------------------------------------------------

  class ApiKeyGuard {
    var rates: map<string, Counter>
    var ipRates: map<string, Counter>

    constructor ()
      ensures rates == map[] && ipRates == map[]
    {
      rates, ipRates := map[], map[];
    }

    function Rate(key: string): Option<Counter>
      reads this`rates
    {
      if key in rates then Some(rates[key]) else None
    }

    function IpRate(ip: string): Option<Counter>
      reads this`ipRates
    {
      if ip in ipRates then Some(ipRates[ip]) else None
    }

    // False for "too many requests".
    method EnforceRateLimit(r: Request) returns (ok: bool)
      modifies this`rates
      ensures ok <==> Accepts(old(Rate(r.key)), r, 60)
      ensures Rate(r.key) == After(old(Rate(r.key)), r, 60)
      ensures forall k | k != r.key :: Rate(k) == old(Rate(k))
    {
      var current := Current(Rate(r.key), r);
      if current >= MAX_PER_KEY {
        return false;
      }
      rates := rates[r.key := Counter(current + 1, r.now + WINDOW)];
      ok := true;
    }

    method EnforceIpRateLimit(r: Request) returns (ok: bool)
      modifies this`ipRates
      ensures r.key in {"", "unknown"} ==> ok && ipRates == old(ipRates)
      ensures r.key !in {"", "unknown"} ==> (ok <==> Accepts(old(IpRate(r.key)), r, 30))
      ensures r.key !in {"", "unknown"} ==> IpRate(r.key) == After(old(IpRate(r.key)), r, 30)
      ensures forall k | k != r.key :: IpRate(k) == old(IpRate(k))
    {
      if r.key == "" || r.key == "unknown" {
        return true;
      }
      var current := Current(IpRate(r.key), r);
      if current >= MAX_PER_IP {
        return false;
      }
      ipRates := ipRates[r.key := Counter(current + 1, r.now + WINDOW)];
      ok := true;
    }
  }
}
