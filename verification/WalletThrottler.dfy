// The throttle on signature verification: per wallet, a counter that starts over
// with the first request after its window.
module WalletThrottler {
  import opened Common

  const LIMIT := 5
  const TTL := 60_000

  datatype Entry = Entry(count: nat, expiresAt: int)

  datatype Request = Request(tracker: string, now: int)

  predicate Restarts(entry: Option<Entry>, now: int) {
    entry.None? || now > entry.value.expiresAt
  }

  // A rejected request counts as well.
  function After(entry: Option<Entry>, now: int): Entry {
    if Restarts(entry, now) then Entry(1, now + TTL) else entry.value.(count := entry.value.count + 1)
  }

  predicate Accepts(entry: Option<Entry>, now: int) {
    Restarts(entry, now) || entry.value.count + 1 <= LIMIT
  }

  function EntryAfter(requests: seq<Request>, tracker: string): Option<Entry> {
    if requests == [] then None
    else
      var before, last := EntryAfter(requests[..|requests| - 1], tracker), requests[|requests| - 1];
      if last.tracker == tracker then Some(After(before, last.now)) else before
  }

  predicate Accepted(requests: seq<Request>, i: nat)
    requires i < |requests|
  {
    Accepts(EntryAfter(requests[..i], requests[i].tracker), requests[i].now)
  }

  function AcceptedIn(requests: seq<Request>, n: nat, tracker: string, from: int, to: int): nat
    requires n <= |requests|
  {
    if n == 0 then 0
    else
      AcceptedIn(requests, n - 1, tracker, from, to)
      + if requests[n - 1].tracker == tracker && from <= requests[n - 1].now <= to && Accepted(requests, n - 1)
        then 1 else 0
  }

  function TimeOf(r: Request): int {
    r.now
  }

  // ------------------------------------------------------------------
  // The bound
  // ------------------------------------------------------------------

  // Requests accepted in [from, from + TTL], as long as the interval lasts: all
  // of the current window but its first if the window began before, otherwise
  // those of the current window and at most four of the one before.
  ghost predicate Covers(entry: Option<Entry>, accepted: nat, from: int, clock: int) {
    match entry
    case None => accepted == 0
    case Some(e) =>
      var start := e.expiresAt - TTL;
      && e.count >= 1 && start <= clock
      && accepted <= Min(e.count, LIMIT) + if start < from then -1 else LIMIT - 1
  }

  lemma {:induction false} EntryCovers(requests: seq<Request>, n: nat, tracker: string, from: int)
    requires n <= |requests| && ClockGoesForward(requests, TimeOf)
    ensures AcceptedIn(requests, n, tracker, from, from + TTL) <= 2 * LIMIT - 1
    ensures n > 0 && requests[n - 1].now < from ==> AcceptedIn(requests, n, tracker, from, from + TTL) == 0
    ensures var clock := if n == 0 then from else requests[n - 1].now;
            clock <= from + TTL ==>
              Covers(EntryAfter(requests[..n], tracker), AcceptedIn(requests, n, tracker, from, from + TTL), from,
                     clock)
  {
    if n > 0 {
      EntryCovers(requests, n - 1, tracker, from);
      assert requests[..n][..n - 1] == requests[..n - 1];
    }
  }

  // In any interval as long as the window, at most nine requests of a tracker
  // are accepted: one fewer than two full windows.
  lemma AtMostNineInAnyInterval(requests: seq<Request>, tracker: string, from: int)
    requires ClockGoesForward(requests, TimeOf)
    ensures AcceptedIn(requests, |requests|, tracker, from, from + 60_000) <= 9
  {
    EntryCovers(requests, |requests|, tracker, from);
  }

  // And within one window exactly five: the first after a pause, and four more.
  lemma {:induction false} FreshWindowTakesFive(requests: seq<Request>, tracker: string, n: nat)
    requires n <= |requests|
    requires forall i | 0 <= i < n :: requests[i].tracker == tracker && 0 <= requests[i].now <= 60_000
    requires n > 0 ==> requests[0].now == 0
    ensures AcceptedIn(requests, n, tracker, 0, 60_000) == if n <= 5 then n else 5
    ensures n > 0 ==> EntryAfter(requests[..n], tracker) == Some(Entry(n, 60_000))
  {
    if n > 0 {
      FreshWindowTakesFive(requests, tracker, n - 1);
      assert requests[..n][..n - 1] == requests[..n - 1];
    }
  }

  // Nine are reached: one request opens the window, four use it up at its very
  // end, and five come in the next.
  function Burst(tracker: string): seq<Request> {
    [Request(tracker, 0), Request(tracker, TTL), Request(tracker, TTL), Request(tracker, TTL), Request(tracker, TTL),
     Request(tracker, TTL + 1), Request(tracker, TTL + 1), Request(tracker, TTL + 1), Request(tracker, TTL + 1),
     Request(tracker, TTL + 1)]
  }

  lemma {:induction false} BurstEntry(tracker: string, n: nat)
    requires 0 < n <= 10
    ensures EntryAfter(Burst(tracker)[..n], tracker)
            == Some(if n <= 5 then Entry(n, TTL) else Entry(n - 5, 2 * TTL + 1))
  {
    var requests := Burst(tracker);
    assert requests[..n][..n - 1] == requests[..n - 1];
    if n > 1 {
      BurstEntry(tracker, n - 1);
    }
  }

  lemma {:induction false} BurstCount(tracker: string, n: nat)
    requires n <= 10
    ensures ClockGoesForward(Burst(tracker), TimeOf)
    ensures AcceptedIn(Burst(tracker), n, tracker, 1, 1 + TTL) == if n == 0 then 0 else n - 1
  {
    if n > 0 {
      BurstCount(tracker, n - 1);
      if n > 1 {
        BurstEntry(tracker, n - 1);
      }
    }
  }

  lemma BurstReachesNine(tracker: string)
    ensures AcceptedIn(Burst(tracker), |Burst(tracker)|, tracker, 1, 60_001) == 9
  {
    BurstCount(tracker, 10);
  }

  // ------------------------------------------------------------------
  // Independence
  // ------------------------------------------------------------------

  function Own(requests: seq<Request>, tracker: string): seq<Request> {
    if requests == [] then []
    else
      var front, last := Own(requests[..|requests| - 1], tracker), requests[|requests| - 1];
      if last.tracker == tracker then front + [last] else front
  }

  // The requests of the tracker, each as often as it was sent, and no others.
  lemma {:induction false} OwnAreItsRequests(requests: seq<Request>, tracker: string, r: Request)
    ensures multiset(Own(requests, tracker))[r] == if r.tracker == tracker then multiset(requests)[r] else 0
  {
    if requests != [] {
      OwnAreItsRequests(requests[..|requests| - 1], tracker, r);
      assert requests == requests[..|requests| - 1] + [requests[|requests| - 1]];
    }
  }

  // What others send has no influence: the state of a tracker, and so the answer
  // to its next request, is that of its own requests alone.
  lemma {:induction false} OthersDoNotMatter(requests: seq<Request>, tracker: string)
    ensures EntryAfter(requests, tracker) == EntryAfter(Own(requests, tracker), tracker)
  {
    if requests != [] {
      OthersDoNotMatter(requests[..|requests| - 1], tracker);
      var own := Own(requests, tracker);
      if requests[|requests| - 1].tracker == tracker {
        assert own[..|own| - 1] == Own(requests[..|requests| - 1], tracker);
      }
    }
  }

  // ------------------------------------------------------------------
  // The guard
  // ------------------------------------------------------------------

  // The request fields that the tracker is taken from; `forwarded` is the first
  // address of the header, when there is one.
  datatype Origin =
    Origin(bodyWallet: Option<string>, userWallet: Option<string>, ip: string, forwarded: Option<string>)

  function GetTracker(o: Origin): string {
    var wallet := if o.bodyWallet.Some? then o.bodyWallet else o.userWallet;
    if wallet.Some? && wallet.value != "" then "wallet:" + wallet.value
    else if o.ip != "" then o.ip
    else if o.forwarded.Some? then o.forwarded.value
    else "unknown"
  }

  // Where the tracker comes from.  An empty wallet in the body hides the wallet of the
  // user.
  lemma TrackerExactlyWhen(o: Origin, w: string)
    ensures w != "" && (o.bodyWallet == Some(w) || (o.bodyWallet == None && o.userWallet == Some(w)))
            ==> GetTracker(o) == "wallet:" + w
    ensures (o.bodyWallet == Some("") || (o.bodyWallet == None && (o.userWallet == None || o.userWallet == Some(""))))
            ==> GetTracker(o) == if o.ip != "" then o.ip
                                 else if o.forwarded == None then "unknown" else o.forwarded.value
  {}

  // Two wallets in the body never share a tracker.
  lemma WalletsHaveTheirOwn(a: Origin, b: Origin, v: string, w: string)
    requires a.bodyWallet == Some(v) && b.bodyWallet == Some(w) && v != "" && w != ""
    ensures GetTracker(a) == GetTracker(b) <==> v == w
  {
    assert GetTracker(a)[7..] == v && GetTracker(b)[7..] == w;
  }

  class AuthWalletThrottlerGuard {
    var hits: map<string, Entry>

    constructor ()
      ensures hits == map[]
    {
      hits := map[];
    }

    function Hits(tracker: string): Option<Entry>
      reads this
    {
      if tracker in hits then Some(hits[tracker]) else None
    }

    method CanActivate(origin: Origin, now: int) returns (ok: bool)
      modifies this
      ensures ok <==> Accepts(old(Hits(GetTracker(origin))), now)
      ensures var tracker := GetTracker(origin);
              ok <==> || tracker !in old(hits) || now > old(hits)[tracker].expiresAt
                      || old(hits)[tracker].count < 5
      ensures hits == old(hits)[GetTracker(origin) := After(old(Hits(GetTracker(origin))), now)]
    {
      var tracker := GetTracker(origin);
      if tracker !in hits || now > hits[tracker].expiresAt {
        hits := hits[tracker := Entry(1, now + TTL)];
        return true;
      }
      var count := hits[tracker].count + 1;
      hits := hits[tracker := hits[tracker].(count := count)];
      ok := count <= LIMIT;
    }
  }
}
