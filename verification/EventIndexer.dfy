// The indexing cycle of one contract: where it starts, what it fetches, and
// where it leaves the cursor.
module EventIndexer {
  import opened Common
  import opened EventTables

  const RETENTION_BUFFER := 100_000
  const CATCH_UP_BUFFER := 1_000
  const PAGE := 100

  // A contract event as the network reports it; the parser knows four kinds.
  datatype Raw = Recognised(event: Event) | Unrecognised(at: nat)

  function LedgerOf(raw: Raw): nat {
    match raw
    case Recognised(event) => event.ledger
    case Unrecognised(at) => at
  }

  // Persisting an undated loan fails; the cycle skips such an event.
  predicate Indexable(raw: Raw) {
    raw.Recognised? && (raw.event.Created? ==> raw.event.dated)
  }

  datatype Indexer = Indexer(tables: Tables, cursor: int)

  // How the database and the network answer during one cycle: whether the stored
  // cursor can be read, what the events call returns, and whether the cursor can be
  // saved at the end.  `visible` counts the events of the contract that exist when
  // the page is fetched.  A heal or a correction that cannot be saved leaves what
  // `NoTip` and `Unreachable` leave.
  datatype Answer =
    | NoTip
    | Served(cursorRead: bool, tip: nat, visible: nat, saved: bool)
    | OutOfRange(cursorRead: bool, tip: nat, lowest: nat)
    | Unreachable(cursorRead: bool, tip: nat)

  // ------------------------------------------------------------------
  // The cycle
  // ------------------------------------------------------------------

  function StartOf(cursor: int): int {
    if cursor > 0 then cursor + 1 else 1
  }

  predicate Stale(cursor: int, tip: nat) {
    StartOf(cursor) < tip - RETENTION_BUFFER
  }

  function HealedStart(cursor: int, tip: nat): int {
    if Stale(cursor, tip) then tip - CATCH_UP_BUFFER else StartOf(cursor)
  }

  // A cursor that cannot be read is taken for 0.
  function CursorRead(cursor: int, answer: Answer): int
    requires !answer.NoTip?
  {
    if answer.cursorRead then cursor else 0
  }

  predicate Heals(cursor: int, answer: Answer)
    requires !answer.NoTip?
  {
    Stale(CursorRead(cursor, answer), answer.tip)
  }

  function StartFor(cursor: int, answer: Answer): int
    requires !answer.NoTip?
  {
    HealedStart(CursorRead(cursor, answer), answer.tip)
  }

  // The stored cursor when nothing but the heal is saved.
  function CursorUnsaved(cursor: int, answer: Answer): int
    requires !answer.NoTip?
  {
    if Heals(cursor, answer) then answer.tip - CATCH_UP_BUFFER - 1 else cursor
  }

  // How many events come before ledger `start`; events are in ledger order.
  function CountBefore(chain: seq<Raw>, start: int): (n: nat)
    ensures n <= |chain|
    ensures forall i | 0 <= i < n :: LedgerOf(chain[i]) < start
    ensures n < |chain| ==> LedgerOf(chain[n]) >= start
  {
    if chain == [] || LedgerOf(chain[0]) >= start then 0 else 1 + CountBefore(chain[1..], start)
  }

  // One page from the network.
  function Page(chain: seq<Raw>, start: int): (page: seq<Raw>)
    ensures |page| <= PAGE
  {
    var rest := chain[CountBefore(chain, start)..];
    if |rest| <= PAGE then rest else rest[..PAGE]
  }

  function Fetch(chain: seq<Raw>, start: int, tip: nat): seq<Raw> {
    if start > tip then [] else Page(chain, start)
  }

  function PersistRaw(t: Tables, raw: Raw): Tables {
    if raw.Recognised? then Persist(t, raw.event) else t
  }

  function PersistPage(t: Tables, page: seq<Raw>): Tables {
    if page == [] then t else PersistRaw(PersistPage(t, page[..|page| - 1]), page[|page| - 1])
  }

  // The highest ledger among the start and the events that were persisted.
  function Highest(page: seq<Raw>, start: int): int {
    if page == [] then start
    else
      var raw := page[|page| - 1];
      var before := Highest(page[..|page| - 1], start);
      if Indexable(raw) then Max(before, LedgerOf(raw)) else before
  }

  function Cycle(all: seq<Raw>, s: Indexer, answer: Answer): Indexer
    requires answer.Served? ==> answer.visible <= |all|
  {
    if answer.NoTip? then s
    else
      var start := StartFor(s.cursor, answer);
      if Unsaved(answer) then
        Indexer(PersistPage(s.tables, Fetch(all[..answer.visible], start, answer.tip)), CursorUnsaved(s.cursor, answer))
      else if start > answer.tip then Indexer(s.tables, answer.tip)
      else
        match answer
        case OutOfRange(_, _, lowest) => Indexer(s.tables, lowest - 1)
        case Unreachable(_, _) => Indexer(s.tables, CursorUnsaved(s.cursor, answer))
        case Served(_, tip, visible, _) =>
          var page := Fetch(all[..visible], start, tip);
          if page == [] then Indexer(s.tables, tip)
          else Indexer(PersistPage(s.tables, page), Max(Highest(page, start), tip))
  }

  // A contract that is not configured is skipped.
  function CycleOf(contract: string, all: seq<Raw>, s: Indexer, answer: Answer): Indexer
    requires answer.Served? ==> answer.visible <= |all|
  {
    if contract == "" then s else Cycle(all, s, answer)
  }

  // ------------------------------------------------------------------
  // The cursor
  // ------------------------------------------------------------------

  predicate Unsaved(answer: Answer) {
    answer.Served? && !answer.saved
  }

  // The cycle moves the cursor back: the tip is behind it and so is all that is
  // persisted, a range error names a lowest ledger at or before it, or a heal that
  // takes it for 0 ends before it.
  predicate FallsBack(all: seq<Raw>, cursor: int, answer: Answer)
    requires answer.Served? ==> answer.visible <= |all|
  {
    !answer.NoTip? &&
    var start := StartFor(cursor, answer);
    if Unsaved(answer) then !answer.cursorRead && CursorUnsaved(cursor, answer) < cursor
    else if start > answer.tip then answer.tip < cursor
    else
      match answer
      case OutOfRange(_, _, lowest) => lowest - 1 < cursor
      case Unreachable(read, tip) => !read && CursorUnsaved(cursor, answer) < cursor
      case Served(read, tip, visible, _) =>
        !read && tip < cursor && forall raw | raw in Fetch(all[..visible], start, tip) && Indexable(raw) ::
          LedgerOf(raw) < cursor
  }

  lemma CursorFallsExactlyWhen(all: seq<Raw>, s: Indexer, answer: Answer)
    requires answer.Served? ==> answer.visible <= |all|
    ensures Cycle(all, s, answer).cursor < s.cursor <==> FallsBack(all, s.cursor, answer)
    ensures answer.Served? && answer.saved ==> Cycle(all, s, answer).cursor >= answer.tip
  {
    if answer.Served? {
      var start := StartFor(s.cursor, answer);
      HighestIsBelow(Fetch(all[..answer.visible], start, answer.tip), start, s.cursor);
    }
  }

  // A cursor is healed exactly when more than 100,001 ledgers have closed since, and
  // the cycle then starts 1,000 below the tip; one that cannot be read counts as 0.
  // Where nothing but the heal is saved, it is the heal that stays.
  lemma HealsExactlyWhen(all: seq<Raw>, s: Indexer, answer: Answer)
    requires s.cursor >= 0 && !answer.NoTip? && (answer.Served? ==> answer.visible <= |all|)
    ensures var known := if answer.cursorRead then s.cursor else 0;
            var healed := answer.tip - known > 100_001;
            var start := if healed then answer.tip - 1_000 else known + 1;
            var after := Cycle(all, s, answer);
            && StartFor(s.cursor, answer) == start
            && (Unsaved(answer) || (answer.Unreachable? && start <= answer.tip)
                ==> after.cursor == if healed then answer.tip - 1_001 else s.cursor)
            && (start > answer.tip && !Unsaved(answer) ==> after.cursor == answer.tip)
            && (answer.OutOfRange? && start <= answer.tip ==> after.cursor == answer.lowest - 1)
  {}

  lemma {:induction false} HighestIsBelow(page: seq<Raw>, start: int, bound: int)
    ensures Highest(page, start) < bound
            <==> start < bound && forall raw | raw in page && Indexable(raw) :: LedgerOf(raw) < bound
  {
    if page != [] {
      var front, last := page[..|page| - 1], page[|page| - 1];
      HighestIsBelow(front, start, bound);
      assert page == front + [last];
    }
  }

  lemma {:induction false} HighestIsReached(page: seq<Raw>, start: int)
    ensures Highest(page, start) >= start
    ensures Highest(page, start) == start || exists i :: 0 <= i < |page| && LedgerOf(page[i]) == Highest(page, start)
  {
    if page != [] {
      HighestIsReached(page[..|page| - 1], start);
    }
  }

  // ------------------------------------------------------------------
  // What is fetched
  // ------------------------------------------------------------------

  ghost predicate InOrder(all: seq<Raw>) {
    && (forall i, j | 0 <= i < j < |all| :: LedgerOf(all[i]) <= LedgerOf(all[j]))
    && (forall i | 0 <= i < |all| :: LedgerOf(all[i]) >= 1)
  }

  // The network answers with complete ledgers: an event that is not visible yet
  // comes in a later ledger than the tip and than every visible one.
  ghost predicate Consistent(all: seq<Raw>, answer: Answer) {
    answer.Served? ==>
      && answer.visible <= |all|
      && forall k | answer.visible <= k < |all| ::
           && LedgerOf(all[k]) > answer.tip
           && forall i | 0 <= i < answer.visible :: LedgerOf(all[i]) < LedgerOf(all[k])
  }

  function PageOf(all: seq<Raw>, s: Indexer, answer: Answer): seq<Raw>
    requires answer.Served? ==> answer.visible <= |all|
  {
    if answer.Served? then Fetch(all[..answer.visible], StartFor(s.cursor, answer), answer.tip) else []
  }

  lemma CyclePersistsPage(all: seq<Raw>, s: Indexer, answer: Answer)
    requires answer.Served? ==> answer.visible <= |all|
    ensures Cycle(all, s, answer).tables == PersistPage(s.tables, PageOf(all, s, answer))
  {}

  // The event is on the page of the cycle.
  ghost predicate Fetched(all: seq<Raw>, s: Indexer, answer: Answer, k: nat)
    requires answer.Served? ==> answer.visible <= |all|
  {
    answer.Served? && StartFor(s.cursor, answer) <= answer.tip && k < answer.visible &&
    var before := CountBefore(all[..answer.visible], StartFor(s.cursor, answer));
    before <= k < before + PAGE
  }

  lemma PageIsFetched(all: seq<Raw>, s: Indexer, answer: Answer, raw: Raw)
    requires answer.Served? ==> answer.visible <= |all|
    ensures raw in PageOf(all, s, answer) <==> exists k: nat :: k < |all| && all[k] == raw && Fetched(all, s, answer, k)
  {
    if answer.Served? {
      var start, chain := StartFor(s.cursor, answer), all[..answer.visible];
      var page, before := PageOf(all, s, answer), CountBefore(chain, start);
      assert forall i | 0 <= i < |page| :: page[i] == all[before + i];
      if raw in page {
        var i :| 0 <= i < |page| && page[i] == raw;
        assert Fetched(all, s, answer, before + i);
      }
      if k: nat :| k < |all| && all[k] == raw && Fetched(all, s, answer, k) {
        assert page[k - before] == raw;
      }
    }
  }

  // The three ways to pass over an event: a heal jumps over its ledger, a range
  // error moves the cursor beyond it, or it does not fit on the page.
  ghost predicate JumpedOver(all: seq<Raw>, s: Indexer, answer: Answer, k: nat)
    requires k < |all|
  {
    !answer.NoTip? && Heals(s.cursor, answer) && s.cursor < LedgerOf(all[k]) < answer.tip - CATCH_UP_BUFFER
  }

  ghost predicate OutOfReach(all: seq<Raw>, s: Indexer, answer: Answer, k: nat)
    requires k < |all|
  {
    answer.OutOfRange? && s.cursor < LedgerOf(all[k]) < answer.lowest
  }

  ghost predicate BeyondPage(all: seq<Raw>, s: Indexer, answer: Answer, k: nat)
    requires k < |all|
  {
    answer.Served? && answer.visible <= |all| && k < answer.visible
    && k >= CountBefore(all[..answer.visible], StartFor(s.cursor, answer)) + PAGE
  }

  ghost predicate PassedOver(all: seq<Raw>, s: Indexer, answer: Answer, k: nat)
    requires k < |all|
  {
    JumpedOver(all, s, answer, k) || OutOfReach(all, s, answer, k) || BeyondPage(all, s, answer, k)
  }

  // An event up to the new cursor was visible.
  lemma CursorStaysVisible(all: seq<Raw>, s: Indexer, answer: Answer, k: nat)
    requires InOrder(all) && Consistent(all, answer) && answer.Served? && answer.saved && k < |all|
    requires s.cursor < LedgerOf(all[k]) <= Cycle(all, s, answer).cursor
    ensures k < answer.visible && StartFor(s.cursor, answer) <= answer.tip
  {
    var start := StartFor(s.cursor, answer);
    var chain := all[..answer.visible];
    var page := Fetch(chain, start, answer.tip);
    assert forall i | 0 <= i < |page| :: page[i] == chain[CountBefore(chain, start) + i];
    HighestIsReached(page, start);
  }

  // One cycle moves its cursor past nothing but what is on its page or passed over.
  lemma CycleFetches(all: seq<Raw>, s: Indexer, answer: Answer, k: nat)
    requires InOrder(all) && Consistent(all, answer) && k < |all|
    requires s.cursor < LedgerOf(all[k]) <= Cycle(all, s, answer).cursor
    ensures Fetched(all, s, answer, k) || PassedOver(all, s, answer, k)
  {
    if answer.Served? && answer.saved {
      CursorStaysVisible(all, s, answer, k);
      assert all[..answer.visible][k] == all[k];
    }
  }

  // ------------------------------------------------------------------
  // Over all runs
  // ------------------------------------------------------------------

  ghost predicate AllConsistent(all: seq<Raw>, answers: seq<Answer>) {
    forall i | 0 <= i < |answers| :: Consistent(all, answers[i])
  }

  ghost function Run(all: seq<Raw>, s: Indexer, answers: seq<Answer>): Indexer
    requires AllConsistent(all, answers)
  {
    if answers == [] then s else Cycle(all, Run(all, s, answers[..|answers| - 1]), answers[|answers| - 1])
  }

  ghost predicate EverPassedOver(all: seq<Raw>, s: Indexer, answers: seq<Answer>, k: nat)
    requires AllConsistent(all, answers) && k < |all|
  {
    answers != [] &&
    (|| EverPassedOver(all, s, answers[..|answers| - 1], k)
     || PassedOver(all, Run(all, s, answers[..|answers| - 1]), answers[|answers| - 1], k))
  }

  ghost predicate FetchedAt(all: seq<Raw>, s: Indexer, answers: seq<Answer>, i: nat, k: nat)
    requires AllConsistent(all, answers) && i < |answers|
  {
    Consistent(all, answers[i]) && Fetched(all, Run(all, s, answers[..i]), answers[i], k)
  }

  ghost predicate EverFetched(all: seq<Raw>, s: Indexer, answers: seq<Answer>, k: nat)
    requires AllConsistent(all, answers)
  {
    exists i :: 0 <= i < |answers| && FetchedAt(all, s, answers, i, k)
  }

  lemma EverFetchedUnfolds(all: seq<Raw>, s: Indexer, answers: seq<Answer>, k: nat)
    requires AllConsistent(all, answers) && answers != []
    ensures var front, last := answers[..|answers| - 1], answers[|answers| - 1];
            EverFetched(all, s, answers, k)
            <==> EverFetched(all, s, front, k) || (Consistent(all, last) && Fetched(all, Run(all, s, front), last, k))
  {
    var front := answers[..|answers| - 1];
    forall i: nat | i < |front| ensures FetchedAt(all, s, front, i, k) == FetchedAt(all, s, answers, i, k) {
      assert front[..i] == answers[..i];
    }
    assert Consistent(all, answers[|answers| - 1]);
    assert FetchedAt(all, s, answers, |front|, k) == Fetched(all, Run(all, s, front), answers[|answers| - 1], k);
  }

  // From an empty cursor, whatever the tips, visible events and failures: every
  // event up to the cursor, of whatever kind, was on a page unless some cycle passed
  // over it.
  lemma {:induction false} EverythingUpToTheCursorIsFetched(all: seq<Raw>, t: Tables, answers: seq<Answer>, k: nat)
    requires InOrder(all) && AllConsistent(all, answers) && k < |all|
    requires LedgerOf(all[k]) <= Run(all, Indexer(t, 0), answers).cursor
    ensures EverFetched(all, Indexer(t, 0), answers, k) || EverPassedOver(all, Indexer(t, 0), answers, k)
  {
    if answers != [] {
      var front, last := answers[..|answers| - 1], answers[|answers| - 1];
      EverFetchedUnfolds(all, Indexer(t, 0), answers, k);
      assert Consistent(all, last);
      if LedgerOf(all[k]) <= Run(all, Indexer(t, 0), front).cursor {
        EverythingUpToTheCursorIsFetched(all, t, front, k);
      } else {
        CycleFetches(all, Run(all, Indexer(t, 0), front), last, k);
      }
    }
  }

  // ------------------------------------------------------------------
  // A run is a delivery
  // ------------------------------------------------------------------

  // All pages of a run, one after the other.
  ghost function Pages(all: seq<Raw>, s: Indexer, answers: seq<Answer>): seq<Raw>
    requires AllConsistent(all, answers)
  {
    if answers == [] then []
    else
      var front, last := answers[..|answers| - 1], answers[|answers| - 1];
      assert Consistent(all, last);
      Pages(all, s, front) + PageOf(all, Run(all, s, front), last)
  }

  lemma {:induction false} PagesAreFetched(all: seq<Raw>, s: Indexer, answers: seq<Answer>, raw: Raw)
    requires AllConsistent(all, answers)
    ensures raw in Pages(all, s, answers)
            <==> exists k: nat :: k < |all| && all[k] == raw && EverFetched(all, s, answers, k)
  {
    if answers != [] {
      var front, last := answers[..|answers| - 1], answers[|answers| - 1];
      PagesAreFetched(all, s, front, raw);
      assert Consistent(all, last);
      PageIsFetched(all, Run(all, s, front), last, raw);
      forall k: nat
        ensures EverFetched(all, s, answers, k)
                <==> EverFetched(all, s, front, k) || Fetched(all, Run(all, s, front), last, k)
      {
        EverFetchedUnfolds(all, s, answers, k);
      }
    }
  }

  // The recognised events among those that were fetched, in order.
  function EventsOf(raws: seq<Raw>): seq<Event> {
    if raws == [] then []
    else
      var last := raws[|raws| - 1];
      EventsOf(raws[..|raws| - 1]) + if last.Recognised? then [last.event] else []
  }

  lemma {:induction false} EventsOfAppend(a: seq<Raw>, b: seq<Raw>)
    ensures EventsOf(a + b) == EventsOf(a) + EventsOf(b)
  {
    if b == [] {
      assert a + b == a;
    } else {
      assert (a + b)[..|a + b| - 1] == a + b[..|b| - 1];
      EventsOfAppend(a, b[..|b| - 1]);
    }
  }

  lemma {:induction false} EventsAreRecognised(raws: seq<Raw>, e: Event)
    ensures e in EventsOf(raws) <==> Recognised(e) in raws
  {
    if raws != [] {
      EventsAreRecognised(raws[..|raws| - 1], e);
      assert raws == raws[..|raws| - 1] + [raws[|raws| - 1]];
    }
  }

  lemma {:induction false} PageIsDelivery(t: Tables, a: seq<Event>, page: seq<Raw>)
    ensures PersistPage(Deliver(t, a), page) == Deliver(t, a + EventsOf(page))
  {
    if page == [] {
      assert a + EventsOf(page) == a;
    } else {
      var front, last := page[..|page| - 1], page[|page| - 1];
      PageIsDelivery(t, a, front);
      if last.Recognised? {
        assert (a + EventsOf(page))[..|a + EventsOf(page)| - 1] == a + EventsOf(front);
      } else {
        assert EventsOf(page) == EventsOf(front);
      }
    }
  }

  ghost function Delivered(all: seq<Raw>, s: Indexer, answers: seq<Answer>): seq<Event>
    requires AllConsistent(all, answers)
  {
    EventsOf(Pages(all, s, answers))
  }

  // Over every run the tables are those of a delivery of the events on its pages,
  // so what is proved of deliveries holds of runs.
  lemma {:induction false} RunIsDelivery(all: seq<Raw>, s: Indexer, answers: seq<Answer>)
    requires AllConsistent(all, answers)
    ensures Run(all, s, answers).tables == Deliver(s.tables, Delivered(all, s, answers))
  {
    if answers != [] {
      var front, last := answers[..|answers| - 1], answers[|answers| - 1];
      RunIsDelivery(all, s, front);
      assert Consistent(all, last);
      var page := PageOf(all, Run(all, s, front), last);
      CyclePersistsPage(all, Run(all, s, front), last);
      PageIsDelivery(s.tables, Delivered(all, s, front), page);
      EventsOfAppend(Pages(all, s, front), page);
    }
  }

  lemma DeliveredIsFetched(all: seq<Raw>, s: Indexer, answers: seq<Answer>, e: Event)
    requires AllConsistent(all, answers)
    ensures e in Delivered(all, s, answers)
            <==> exists k: nat :: k < |all| && all[k] == Recognised(e) && EverFetched(all, s, answers, k)
  {
    EventsAreRecognised(Pages(all, s, answers), e);
    PagesAreFetched(all, s, answers, Recognised(e));
  }

  // So every event up to the cursor is delivered to the tables, and recognised when
  // it comes again, unless it is of no known kind or some cycle passed over it.
  lemma EverythingUpToTheCursorIsIndexed(all: seq<Raw>, t: Tables, answers: seq<Answer>, k: nat)
    requires InOrder(all) && AllConsistent(all, answers) && k < |all| && all[k].Recognised?
    requires LedgerOf(all[k]) <= Run(all, Indexer(t, 0), answers).cursor
    ensures || EverPassedOver(all, Indexer(t, 0), answers, k)
            || (&& all[k].event in Delivered(all, Indexer(t, 0), answers)
                && Seen(Run(all, Indexer(t, 0), answers).tables, all[k].event))
  {
    EverythingUpToTheCursorIsFetched(all, t, answers, k);
    DeliveredIsFetched(all, Indexer(t, 0), answers, all[k].event);
    RunIsDelivery(all, Indexer(t, 0), answers);
    if all[k].event in Delivered(all, Indexer(t, 0), answers) {
      SeenStaysThroughout(t, all[k].event, Delivered(all, Indexer(t, 0), answers));
    }
  }

  // ------------------------------------------------------------------
  // Defaults
  // ------------------------------------------------------------------

  // Over every run a loan is shown as defaulted exactly when a default of it was on
  // a page after its creation and no new payment of it has been since.
  lemma DefaultIsShownExactlyWhen(all: seq<Raw>, s: Indexer, answers: seq<Answer>, l: string)
    requires AllConsistent(all, answers) && !IsDefaulted(s.tables, l)
    ensures IsDefaulted(Run(all, s, answers).tables, l)
            <==> exists i: nat :: DefaultStands(s.tables, Delivered(all, s, answers), i, l)
  {
    RunIsDelivery(all, s, answers);
    DefaultedExactlyWhen(s.tables, Delivered(all, s, answers), l);
  }

  // A default that was fetched has its turn, and shows a loan that is indexed by
  // then as defaulted.
  lemma FetchedDefaultTakesEffect(all: seq<Raw>, s: Indexer, answers: seq<Answer>, k: nat) returns (i: nat)
    requires AllConsistent(all, answers) && k < |all| && EverFetched(all, s, answers, k)
    requires all[k].Recognised? && all[k].event.LoanDefaulted?
    ensures var events, l := Delivered(all, s, answers), all[k].event.loanId;
            && i < |events| && events[i] == all[k].event
            && (l in Deliver(s.tables, events[..i]).loans ==> IsDefaulted(Deliver(s.tables, events[..i + 1]), l))
  {
    var events := Delivered(all, s, answers);
    DeliveredIsFetched(all, s, answers, all[k].event);
    i :| 0 <= i < |events| && events[i] == all[k].event;
    assert events[..i + 1][..i] == events[..i];
  }

  // When no default of a loan is ever on a page, it is never shown.
  lemma LostDefaultsAreNotShown(all: seq<Raw>, s: Indexer, answers: seq<Answer>, l: string)
    requires AllConsistent(all, answers) && !IsDefaulted(s.tables, l)
    requires forall k: nat | k < |all| && IsDefaultOf(all[k], l) :: !EverFetched(all, s, answers, k)
    ensures !IsDefaulted(Run(all, s, answers).tables, l)
  {
    DefaultIsShownExactlyWhen(all, s, answers, l);
    if i: nat :| DefaultStands(s.tables, Delivered(all, s, answers), i, l) {
      var e := Delivered(all, s, answers)[i];
      DeliveredIsFetched(all, s, answers, e);
      assert false;
    }
  }

  predicate IsDefaultOf(raw: Raw, l: string) {
    raw.Recognised? && raw.event.LoanDefaulted? && raw.event.loanId == l
  }

  // ------------------------------------------------------------------
  // The cursor over all runs
  // ------------------------------------------------------------------

  ghost function CursorAt(all: seq<Raw>, s: Indexer, answers: seq<Answer>, i: nat): int
    requires AllConsistent(all, answers) && i <= |answers|
  {
    Run(all, s, answers[..i]).cursor
  }

  lemma CursorStep(all: seq<Raw>, s: Indexer, answers: seq<Answer>, i: nat)
    requires AllConsistent(all, answers) && i < |answers|
    ensures CursorAt(all, s, answers, i + 1) < CursorAt(all, s, answers, i)
            <==> FallsBack(all, CursorAt(all, s, answers, i), answers[i])
  {
    assert answers[..i + 1][..i] == answers[..i];
    assert Consistent(all, answers[i]);
    CursorFallsExactlyWhen(all, Run(all, s, answers[..i]), answers[i]);
  }

  ghost predicate Monotone(all: seq<Raw>, s: Indexer, answers: seq<Answer>)
    requires AllConsistent(all, answers)
  {
    forall i, j | 0 <= i <= j <= |answers| :: CursorAt(all, s, answers, i) <= CursorAt(all, s, answers, j)
  }

  ghost predicate NeverFallsBack(all: seq<Raw>, s: Indexer, answers: seq<Answer>)
    requires AllConsistent(all, answers)
  {
    forall i | 0 <= i < |answers| :: !FallsBack(all, CursorAt(all, s, answers, i), answers[i])
  }

  lemma {:induction false} CursorRises(all: seq<Raw>, s: Indexer, answers: seq<Answer>, i: nat, j: nat)
    requires AllConsistent(all, answers) && NeverFallsBack(all, s, answers) && i <= j <= |answers|
    ensures CursorAt(all, s, answers, i) <= CursorAt(all, s, answers, j)
  {
    if i < j {
      CursorRises(all, s, answers, i, j - 1);
      CursorStep(all, s, answers, j - 1);
    }
  }

  // Over every run the cursor never decreases exactly when no cycle of it falls
  // back.
  lemma CursorIsMonotoneExactlyWhen(all: seq<Raw>, s: Indexer, answers: seq<Answer>)
    requires AllConsistent(all, answers)
    ensures Monotone(all, s, answers) <==> NeverFallsBack(all, s, answers)
  {
    if NeverFallsBack(all, s, answers) {
      forall i, j | 0 <= i <= j <= |answers|
        ensures CursorAt(all, s, answers, i) <= CursorAt(all, s, answers, j)
      {
        CursorRises(all, s, answers, i, j);
      }
    } else {
      var i :| 0 <= i < |answers| && FallsBack(all, CursorAt(all, s, answers, i), answers[i]);
      CursorStep(all, s, answers, i);
    }
  }

  // No ledger that the answer mentions is beyond `bound`.
  ghost predicate Below(all: seq<Raw>, answer: Answer, bound: int)
    requires Consistent(all, answer)
  {
    !answer.NoTip? ==>
      && answer.tip <= bound
      && (answer.OutOfRange? ==> answer.lowest - 1 <= bound)
      && (answer.Served? ==> forall k | 0 <= k < answer.visible :: LedgerOf(all[k]) <= bound)
  }

  lemma {:induction false} CursorStaysBelow(all: seq<Raw>, s: Indexer, answers: seq<Answer>, bound: int)
    requires AllConsistent(all, answers) && s.cursor <= bound
    requires forall i | 0 <= i < |answers| :: Below(all, answers[i], bound)
    ensures Run(all, s, answers).cursor <= bound
  {
    if answers != [] {
      CursorStaysBelow(all, s, answers[..|answers| - 1], bound);
      var before, last := Run(all, s, answers[..|answers| - 1]), answers[|answers| - 1];
      assert Below(all, last, bound);
      if last.Served? {
        var start, chain := StartFor(before.cursor, last), all[..last.visible];
        var page := Fetch(chain, start, last.tip);
        assert forall i | 0 <= i < |page| :: page[i] == chain[CountBefore(chain, start) + i];
        HighestIsReached(page, start);
      }
    }
  }

  predicate MayFallBack(answer: Answer) {
    answer.OutOfRange? || ((answer.Unreachable? || Unsaved(answer)) && !answer.cursorRead)
  }

  // Every tip that is read is at least every ledger seen before.
  ghost predicate TipsLead(all: seq<Raw>, s: Indexer, answers: seq<Answer>)
    requires AllConsistent(all, answers)
  {
    forall i | 0 <= i < |answers| && !answers[i].NoTip? ::
      s.cursor <= answers[i].tip && forall j | 0 <= j < i :: Below(all, answers[j], answers[i].tip)
  }

  // Then only a range error, or a heal after a failed cursor read, can move the
  // cursor back, and without both it never decreases.
  lemma OnlyRangeErrorsFallBack(all: seq<Raw>, s: Indexer, answers: seq<Answer>)
    requires AllConsistent(all, answers) && TipsLead(all, s, answers)
    ensures forall i | 0 <= i < |answers| && FallsBack(all, CursorAt(all, s, answers, i), answers[i]) ::
              MayFallBack(answers[i])
    ensures (forall i | 0 <= i < |answers| :: !MayFallBack(answers[i])) ==> Monotone(all, s, answers)
  {
    forall i | 0 <= i < |answers| && FallsBack(all, CursorAt(all, s, answers, i), answers[i])
      ensures MayFallBack(answers[i])
    {
      forall j | 0 <= j < i ensures Below(all, answers[..i][j], answers[i].tip) {
        assert Below(all, answers[j], answers[i].tip);
      }
      CursorStaysBelow(all, s, answers[..i], answers[i].tip);
    }
    CursorIsMonotoneExactlyWhen(all, s, answers);
  }

  // A cycle from the start of the chain over its two events.
  lemma ServesTwo(t: Tables, one: Event, two: Event, tip: nat)
    requires one.ledger == 1 && two.ledger == 2 <= tip < RETENTION_BUFFER
    ensures Cycle([Recognised(one), Recognised(two)], Indexer(t, 0), Served(true, tip, 2, true))
            == Indexer(Persist(Persist(t, one), two), tip)
  {
    var page := [Recognised(one), Recognised(two)];
    assert page[..1] == [Recognised(one)] && page[..1][..0] == [];
    assert PersistPage(t, page[..1]) == Persist(PersistPage(t, []), one);
    assert Highest(page[..1], 1) == 1;
    assert page[..2] == page && page[0..] == page && Page(page, 1) == page;
  }

  // A default and a partial repayment, then both again.
  lemma DefaultComesBack(loan: Loan, default: Event, repaid: Event)
    requires default.LoanDefaulted? && repaid.Repaid? && default.loanId == repaid.loanId && repaid.amount < Owed(loan)
    ensures var once := Persist(Persist(Tables(map[repaid.loanId := loan], [], map[], map[]), default), repaid);
            var twice := Persist(Persist(once, default), repaid);
            && once.loans == map[repaid.loanId := loan.(status := Active)]
            && twice.loans == map[repaid.loanId := loan.(status := Defaulted)]
  {
    var t := Tables(map[repaid.loanId := loan], [], map[], map[]);
    var payment := Payment(repaid.loanId, repaid.id, repaid.amount);
    PaymentAdds([], payment, repaid.loanId);
    var once := Persist(Persist(t, default), repaid);
    assert once.payments == [payment];
    assert HasPayment(once.payments, repaid.loanId, repaid.id) by { assert once.payments[0] == payment; }
  }

  const REWIND: seq<Answer> := [Served(true, 3, 2, true), OutOfRange(true, 4, 1), Served(true, 5, 2, true)]

  lemma RewindRun(t: Tables, one: Event, two: Event)
    requires one.ledger == 1 && two.ledger == 2
    ensures var all := [Recognised(one), Recognised(two)];
            var once := Persist(Persist(t, one), two);
            && AllConsistent(all, REWIND) && Run(all, Indexer(t, 0), REWIND[..1]) == Indexer(once, 3)
            && Run(all, Indexer(t, 0), REWIND[..2]) == Indexer(once, 0)
            && Run(all, Indexer(t, 0), REWIND) == Indexer(Persist(Persist(once, one), two), 5)
  {
    var all := [Recognised(one), Recognised(two)];
    var once := Persist(Persist(t, one), two);
    ThreeCycles(all, Indexer(t, 0), REWIND);
    ServesTwo(t, one, two, 3);
    ServesTwo(once, one, two, 5);
  }

  // A range error rewinds the cursor and so repeats events, defaults among them:
  // a loan that was repaid in part after its default is shown as defaulted again.
  lemma RangeErrorRepeatsDefault(loan: Loan, amount: nat)
    requires amount < Owed(loan)
    ensures var all := [Recognised(LoanDefaulted("1-1", 1, "loan")), Recognised(Repaid("2-1", 2, "loan", amount))];
            var s := Indexer(Tables(map["loan" := loan], [], map[], map[]), 0);
            && AllConsistent(all, REWIND)
            && Run(all, s, REWIND[..1]).cursor == 3 && Run(all, s, REWIND[..2]).cursor == 0
            && Run(all, s, REWIND[..1]).tables.loans == map["loan" := loan.(status := Active)]
            && Run(all, s, REWIND).tables.loans == map["loan" := loan.(status := Defaulted)]
  {
    var default, repaid := LoanDefaulted("1-1", 1, "loan"), Repaid("2-1", 2, "loan", amount);
    RewindRun(Tables(map["loan" := loan], [], map[], map[]), default, repaid);
    DefaultComesBack(loan, default, repaid);
  }

  lemma ThreeCycles(all: seq<Raw>, s: Indexer, answers: seq<Answer>)
    requires AllConsistent(all, answers) && |answers| == 3
    ensures Run(all, s, answers[..1]) == Cycle(all, s, answers[0])
    ensures Run(all, s, answers[..2]) == Cycle(all, Run(all, s, answers[..1]), answers[1])
    ensures Run(all, s, answers) == Cycle(all, Run(all, s, answers[..2]), answers[2])
  {
    assert answers[..1][..0] == [] && answers[..2][..1] == answers[..1];
  }

  // ------------------------------------------------------------------
  // The page limit
  // ------------------------------------------------------------------

  // Two events that cannot be taken for one another.
  ghost predicate Unrelated(a: Event, b: Event) {
    a.id != b.id && (a.Created? && b.Created? ==> a.loanId != b.loanId)
  }

  lemma {:induction false} UnrelatedEventsLeaveNoMark(t: Tables, page: seq<Raw>, e: Event)
    requires !Seen(t, e)
    requires forall i | 0 <= i < |page| && page[i].Recognised? :: Unrelated(page[i].event, e)
    ensures !Seen(PersistPage(t, page), e)
  {
    if page != [] {
      UnrelatedEventsLeaveNoMark(t, page[..|page| - 1], e);
    }
  }

  ghost predicate AllUnrelated(all: seq<Raw>) {
    forall i, j | 0 <= i < |all| && 0 <= j < |all| && i != j && all[i].Recognised? && all[j].Recognised? ::
      Unrelated(all[i].event, all[j].event)
  }

  // A cycle that saves its cursor has an event from its start to the tip, of
  // whatever kind, on its page exactly when it is among the first 100; a new one is
  // indexed exactly then, and the cursor passes it in any case.
  lemma NewEventIsIndexedExactlyWhen(all: seq<Raw>, s: Indexer, answer: Answer, k: nat)
    requires InOrder(all) && Consistent(all, answer) && answer.Served? && answer.saved && k < answer.visible
    requires StartFor(s.cursor, answer) <= LedgerOf(all[k]) <= answer.tip
    ensures var after := Cycle(all, s, answer);
            var first := k < CountBefore(all[..answer.visible], StartFor(s.cursor, answer)) + 100;
            && LedgerOf(all[k]) <= after.cursor
            && (first ==> all[k] in PageOf(all, s, answer))
            && (Fetched(all, s, answer, k) <==> first)
            && (AllUnrelated(all) && Indexable(all[k]) && !Seen(s.tables, all[k].event)
                ==> (Seen(after.tables, all[k].event) <==> first))
  {
    assert all[..answer.visible][k] == all[k];
    PageIsFetched(all, s, answer, all[k]);
    if AllUnrelated(all) && Indexable(all[k]) && !Seen(s.tables, all[k].event) {
      CycleIndexesFetched(all, s, answer, k);
    }
    CursorFallsExactlyWhen(all, s, answer);
  }

  lemma CycleIndexesFetched(all: seq<Raw>, s: Indexer, answer: Answer, k: nat)
    requires Consistent(all, answer) && AllUnrelated(all) && k < |all|
    requires Indexable(all[k]) && !Seen(s.tables, all[k].event)
    ensures Seen(Cycle(all, s, answer).tables, all[k].event) <==> Fetched(all, s, answer, k)
  {
    CyclePersistsPage(all, s, answer);
    PageIsFetched(all, s, answer, all[k]);
    var page := PageOf(all, s, answer);
    if all[k] in page {
      PageIsSeen(s.tables, page, all[k].event);
    } else {
      forall i | 0 <= i < |page| && page[i].Recognised? ensures Unrelated(page[i].event, all[k].event) {
        PageIsFetched(all, s, answer, page[i]);
      }
      UnrelatedEventsLeaveNoMark(s.tables, page, all[k].event);
    }
  }

  lemma PageIsSeen(t: Tables, page: seq<Raw>, e: Event)
    requires Seen(t, e) || Recognised(e) in page
    ensures Seen(PersistPage(t, page), e)
  {
    assert Deliver(t, []) == t && [] + EventsOf(page) == EventsOf(page);
    PageIsDelivery(t, [], page);
    EventsAreRecognised(page, e);
    SeenStaysThroughout(t, e, EventsOf(page));
  }

  // Over every run a new event that leaves a mark is indexed exactly when some cycle
  // has it on its page.
  lemma {:induction false} IndexedExactlyWhenFetched(all: seq<Raw>, s: Indexer, answers: seq<Answer>, k: nat)
    requires AllConsistent(all, answers) && AllUnrelated(all) && k < |all|
    requires Indexable(all[k]) && !Seen(s.tables, all[k].event)
    ensures Seen(Run(all, s, answers).tables, all[k].event) <==> EverFetched(all, s, answers, k)
  {
    if answers != [] {
      var front, last := answers[..|answers| - 1], answers[|answers| - 1];
      IndexedExactlyWhenFetched(all, s, front, k);
      EverFetchedUnfolds(all, s, answers, k);
      assert Consistent(all, last);
      if Seen(Run(all, s, front).tables, all[k].event) {
        CyclePersistsPage(all, Run(all, s, front), last);
        PageIsSeen(Run(all, s, front).tables, PageOf(all, Run(all, s, front), last), all[k].event);
      } else {
        CycleIndexesFetched(all, Run(all, s, front), last, k);
      }
    }
  }

  // So, from an empty cursor, such an event up to the cursor is missing exactly when
  // a cycle passed over it and no cycle, before or after, had it on its page.
  lemma MissingExactlyWhen(all: seq<Raw>, t: Tables, answers: seq<Answer>, k: nat)
    requires InOrder(all) && AllConsistent(all, answers) && AllUnrelated(all) && k < |all|
    requires Indexable(all[k]) && !Seen(t, all[k].event)
    requires LedgerOf(all[k]) <= Run(all, Indexer(t, 0), answers).cursor
    ensures var s := Indexer(t, 0);
            !Seen(Run(all, s, answers).tables, all[k].event)
            <==> EverPassedOver(all, s, answers, k) && !EverFetched(all, s, answers, k)
  {
    IndexedExactlyWhenFetched(all, Indexer(t, 0), answers, k);
    EverythingUpToTheCursorIsFetched(all, t, answers, k);
  }

  // As long as the tip does not fall behind it, no range error points at or before
  // it and no failed cursor read restarts there, an event that the cursor has passed
  // is on no page any more, of whatever kind it is; one that was not indexed stays
  // out of the tables for good.
  lemma {:induction false} PassedEventsAreLost(all: seq<Raw>, s: Indexer, answers: seq<Answer>, k: nat)
    requires InOrder(all) && AllConsistent(all, answers) && k < |all| && LedgerOf(all[k]) <= s.cursor
    requires forall i | 0 <= i < |answers| :: GoesForward(answers[i], LedgerOf(all[k]))
    ensures !EverFetched(all, s, answers, k) && LedgerOf(all[k]) <= Run(all, s, answers).cursor
    ensures AllUnrelated(all) && Indexable(all[k]) && !Seen(s.tables, all[k].event)
            ==> !Seen(Run(all, s, answers).tables, all[k].event)
  {
    if answers != [] {
      var front, last := answers[..|answers| - 1], answers[|answers| - 1];
      PassedEventsAreLost(all, s, front, k);
      assert GoesForward(last, LedgerOf(all[k])) && Consistent(all, last);
      PageSkipsPassed(all, Run(all, s, front), last, k);
      EverFetchedUnfolds(all, s, answers, k);
    }
    if AllUnrelated(all) && Indexable(all[k]) && !Seen(s.tables, all[k].event) {
      IndexedExactlyWhenFetched(all, s, answers, k);
    }
  }

  // So a loan all of whose defaults the cursor has passed is not shown as defaulted
  // by any such run.
  lemma PassedDefaultsAreNotShown(all: seq<Raw>, s: Indexer, answers: seq<Answer>, l: string)
    requires InOrder(all) && AllConsistent(all, answers) && !IsDefaulted(s.tables, l)
    requires forall k: nat | k < |all| && IsDefaultOf(all[k], l) ::
               && LedgerOf(all[k]) <= s.cursor
               && forall i | 0 <= i < |answers| :: GoesForward(answers[i], LedgerOf(all[k]))
    ensures !IsDefaulted(Run(all, s, answers).tables, l)
  {
    forall k: nat | k < |all| && IsDefaultOf(all[k], l) ensures !EverFetched(all, s, answers, k) {
      PassedEventsAreLost(all, s, answers, k);
    }
    LostDefaultsAreNotShown(all, s, answers, l);
  }

  ghost predicate GoesForward(answer: Answer, ledger: nat) {
    !answer.NoTip? ==>
      && answer.tip >= ledger
      && (answer.OutOfRange? ==> answer.lowest > ledger)
      && (!answer.cursorRead ==> HealedStart(0, answer.tip) > ledger)
  }

  lemma PageSkipsPassed(all: seq<Raw>, s: Indexer, answer: Answer, k: nat)
    requires InOrder(all) && Consistent(all, answer) && k < |all| && LedgerOf(all[k]) <= s.cursor
    requires GoesForward(answer, LedgerOf(all[k]))
    ensures !Fetched(all, s, answer, k) && LedgerOf(all[k]) <= Cycle(all, s, answer).cursor
  {
    if answer.Served? {
      if k < answer.visible {
        assert all[..answer.visible][k] == all[k];
      }
      CursorFallsExactlyWhen(all, s, answer);
    }
  }

  // ------------------------------------------------------------------
  // The service
  // ------------------------------------------------------------------

  class IndexerService {
    var loans: map<string, Loan>
    var payments: seq<Payment>
    var history: map<string, Change>
    var scores: map<string, nat>
    var cursors: map<string, int>
    var isRunning: bool

    constructor (scores: map<string, nat>)
      ensures State() == Tables(map[], [], map[], scores) && cursors == map[] && !isRunning
      ensures forall contract :: GetCursor(contract) == 0
    {
      loans, payments, history, this.scores, cursors, isRunning := map[], [], map[], scores, map[], false;
    }

    ghost function State(): Tables
      reads this
    {
      Tables(loans, payments, history, scores)
    }

    function GetCursor(contract: string): int
      reads this
    {
      if contract in cursors then cursors[contract] else 0
    }

    method ReadCursor(contract: string, cursorRead: bool) returns (cursor: int)
      ensures cursor == if cursorRead then GetCursor(contract) else 0
    {
      cursor := if cursorRead && contract in cursors then cursors[contract] else 0;
    }

    method SumPayments(loanId: string) returns (total: int)
      ensures total == TotalPaid(payments, loanId)
    {
      total := 0;
      for i := 0 to |payments|
        invariant total == TotalPaid(payments[..i], loanId)
      {
        assert payments[..i + 1][..i] == payments[..i];
        if payments[i].loanId == loanId {
          total := total + payments[i].amount;
        }
      }
      assert payments[..|payments|] == payments;
    }

    method PersistLoanRepaid(id: string, loanId: string, amount: int)
      modifies this`payments, this`loans
      ensures forall ledger :: State() == Persist(old(State()), Repaid(id, ledger, loanId, amount))
    {
      if HasPayment(payments, loanId, id) {
        return;
      }
      payments := payments + [Payment(loanId, id, amount)];
      var total := SumPayments(loanId);
      if loanId in loans {
        var status := if total >= loans[loanId].principal + loans[loanId].interest then Paid else Active;
        loans := loans[loanId := loans[loanId].(status := status)];
      }
    }

    // False when the statement fails and the event is skipped.
    method PersistEvent(e: Event) returns (ok: bool)
      modifies this`loans, this`payments, this`history, this`scores
      ensures State() == Persist(old(State()), e)
      ensures ok == Indexable(Recognised(e))
    {
      ok := true;
      match e
      case Created(id, _, loanId, wallet, principal, interest, dated) =>
        if !dated {
          ok := false;
        } else if !HasEvent(loans, id) && loanId !in loans {
          loans := loans[loanId := Loan(id, wallet, principal, interest, Active)];
        }
      case Repaid(id, _, loanId, amount) =>
        PersistLoanRepaid(id, loanId, amount);
      case LoanDefaulted(_, _, loanId) =>
        if loanId in loans {
          loans := loans[loanId := loans[loanId].(status := Defaulted)];
        }
      case ScoreChanged(id, ledger, wallet, newScore) =>
        if id !in history {
          history := history[id := Change(wallet, newScore, ledger)];
          if wallet in scores {
            scores := scores[wallet := newScore];
          }
        }
    }

    method HealStaleCursor(contract: string, startLedger: int, tip: nat) returns (start: int)
      modifies this`cursors
      ensures startLedger >= tip - RETENTION_BUFFER ==> start == startLedger && cursors == old(cursors)
      ensures startLedger < tip - RETENTION_BUFFER ==>
                start == tip - CATCH_UP_BUFFER && GetCursor(contract) == start - 1
      ensures OthersUnchanged(old(cursors), cursors, contract)
    {
      if startLedger >= tip - RETENTION_BUFFER {
        return startLedger;
      }
      start := tip - CATCH_UP_BUFFER;
      cursors := cursors[contract := start - 1];
    }

    method UpdateCursor(contract: string, ledger: int, saved: bool) returns (failed: bool)
      modifies this`cursors
      ensures failed == !saved && cursors == if saved then old(cursors)[contract := ledger] else old(cursors)
    {
      if saved {
        cursors := cursors[contract := ledger];
      }
      failed := !saved;
    }

    method ProcessEvents(page: seq<Raw>, start: int) returns (maxLedger: int)
      modifies this`loans, this`payments, this`history, this`scores
      ensures State() == PersistPage(old(State()), page) && maxLedger == Highest(page, start)
    {
      maxLedger := start;
      for i := 0 to |page|
        invariant State() == PersistPage(old(State()), page[..i]) && maxLedger == Highest(page[..i], start)
      {
        assert page[..i + 1][..i] == page[..i];
        if page[i].Recognised? {
          var ok := PersistEvent(page[i].event);
          if ok && LedgerOf(page[i]) > maxLedger {
            maxLedger := LedgerOf(page[i]);
          }
        }
      }
      assert page[..|page|] == page;
    }

    // One cycle; a failure that is not a range error is reported to the caller.
    method IndexContract(contract: string, all: seq<Raw>, answer: Answer) returns (failed: bool)
      requires answer.Served? ==> answer.visible <= |all|
      modifies this
      ensures var before, after := old(Indexer(State(), GetCursor(contract))), Indexer(State(), GetCursor(contract));
              after == if contract == "" then before else Cycle(all, before, answer)
      ensures OthersUnchanged(old(cursors), cursors, contract) && isRunning == old(isRunning)
      ensures failed <==> contract != "" && (|| Unsaved(answer)
                                             || (&& answer.Unreachable?
                                                 && StartFor(old(GetCursor(contract)), answer) <= answer.tip))
    {
      failed := false;
      if contract == "" || answer.NoTip? {
        return;
      }
      var cursor := ReadCursor(contract, answer.cursorRead);
      var start := HealStaleCursor(contract, StartOf(cursor), answer.tip);
      assert start == StartFor(old(GetCursor(contract)), answer) && State() == old(State());
      if start <= answer.tip && answer.OutOfRange? {
        cursors := cursors[contract := answer.lowest - 1];
        return;
      }
      if start <= answer.tip && answer.Unreachable? {
        return true;
      }
      var page := if answer.Served? then Fetch(all[..answer.visible], start, answer.tip) else [];
      if page == [] {
        failed := UpdateCursor(contract, answer.tip, !Unsaved(answer));
        return;
      }
      var maxLedger := ProcessEvents(page, start);
      failed := UpdateCursor(contract, Max(maxLedger, answer.tip), !Unsaved(answer));
    }

    // The scheduled run: the loan contract, then the reputation contract, each
    // with its own cursor and whatever happened to the other.
    method RunIndexer(loan: string, reputation: string, loanEvents: seq<Raw>, loanAnswer: Answer,
                      reputationEvents: seq<Raw>, reputationAnswer: Answer)
      requires loanAnswer.Served? ==> loanAnswer.visible <= |loanEvents|
      requires reputationAnswer.Served? ==> reputationAnswer.visible <= |reputationEvents|
      modifies this
      ensures isRunning == old(isRunning)
      ensures old(isRunning) ==> State() == old(State()) && cursors == old(cursors)
      ensures !old(isRunning) ==>
                var first := CycleOf(loan, loanEvents, Indexer(old(State()), old(GetCursor(loan))), loanAnswer);
                var cursor := if reputation == loan then first.cursor else old(GetCursor(reputation));
                var second := CycleOf(reputation, reputationEvents, Indexer(first.tables, cursor), reputationAnswer);
                && State() == second.tables && GetCursor(reputation) == second.cursor
                && (reputation != loan ==> GetCursor(loan) == first.cursor)
    {
      if isRunning {
        return;
      }
      isRunning := true;
      var _ := IndexContract(loan, loanEvents, loanAnswer);
      var _ := IndexContract(reputation, reputationEvents, reputationAnswer);
      isRunning := false;
    }
  }

  ghost predicate OthersUnchanged(before: map<string, int>, after: map<string, int>, contract: string) {
    forall c: string | c != contract :: (c in after <==> c in before) && (c in before ==> after[c] == before[c])
  }
}
