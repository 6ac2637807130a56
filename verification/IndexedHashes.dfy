// The indexer, the reader and the reconciliation job together: which transaction
// hashes reach the job, and what that means for submitted transactions.
module IndexedHashes {
  import opened Common
  import opened AuthoritativeReader
  import E = EventTables
  import D = DriftReports
  import T = TransactionReconciliation

  ghost predicate HasId(events: seq<E.Event>, id: string) {
    exists i :: 0 <= i < |events| && events[i].id == id
  }

  // Every identifier in the index tables is that of a delivered event.
  ghost predicate IdsDelivered(t: E.Tables, events: seq<E.Event>) {
    && (forall l | l in t.loans :: HasId(events, t.loans[l].eventId))
    && (forall i | 0 <= i < |t.payments| :: HasId(events, t.payments[i].txHash))
    && (forall id | id in t.history :: HasId(events, id))
  }

  lemma PersistRecordsId(t: E.Tables, events: seq<E.Event>, e: E.Event)
    requires IdsDelivered(t, events)
    ensures IdsDelivered(E.Persist(t, e), events + [e])
  {
    var all := events + [e];
    assert all[|events|] == e && HasId(all, e.id);
    forall id | HasId(events, id) ensures HasId(all, id) {
      var i :| 0 <= i < |events| && events[i].id == id;
      assert all[i] == events[i];
    }
  }

  lemma {:induction false} DeliveryRecordsIds(scores: map<string, nat>, events: seq<E.Event>)
    ensures IdsDelivered(E.Deliver(E.Tables(map[], [], map[], scores), events), events)
  {
    if events != [] {
      var front := events[..|events| - 1];
      DeliveryRecordsIds(scores, front);
      PersistRecordsId(E.Deliver(E.Tables(map[], [], map[], scores), front), front, events[|events| - 1]);
      assert events == front + [events[|events| - 1]];
    }
  }

  // What the reader's queries return: the hash columns, in each of which the indexer
  // stores the id of the event, and the history in full.
  ghost predicate QueriedFrom(t: E.Tables, loans: seq<LoanIndexRow>, history: seq<HistoryRow>, payments: seq<string>) {
    && (forall i | 0 <= i < |loans| ::
          loans[i].loanId in t.loans && loans[i].txHash == Some(t.loans[loans[i].loanId].eventId))
    && (forall i | 0 <= i < |history| ::
          && history[i].txHash.Some? && history[i].txHash.value in t.history
          && history[i].wallet == t.history[history[i].txHash.value].wallet
          && history[i].newScore == t.history[history[i].txHash.value].newScore
          && history[i].ledger == Some(t.history[history[i].txHash.value].ledger as int))
    && (forall id | id in t.history :: exists i :: 0 <= i < |history| && history[i].txHash == Some(id))
    && (forall i | 0 <= i < |payments| :: exists j :: 0 <= j < |t.payments| && t.payments[j].txHash == payments[i])
  }

  lemma HashesAreEventIds(scores: map<string, nat>, events: seq<E.Event>, loans: seq<LoanIndexRow>,
                          history: seq<HistoryRow>, payments: seq<string>, h: string)
    requires QueriedFrom(E.Deliver(E.Tables(map[], [], map[], scores), events), loans, history, payments)
    requires Mentions(loans, history, payments, h)
    ensures HasId(events, h)
  {
    DeliveryRecordsIds(scores, events);
    if h in payments {
      var i :| 0 <= i < |payments| && payments[i] == h;
    }
  }

  // A change of the wallet, delivered for the first time, with the highest ledger
  // among all of them.
  ghost predicate LatestChange(events: seq<E.Event>, i: nat, wallet: string) {
    && i < |events| && E.FirstChange(events, i, events[i].id) && events[i].wallet == wallet
    && forall j: nat | j < |events| && E.FirstChange(events, j, events[j].id) && events[j].wallet == wallet ::
         events[j].ledger <= events[i].ledger
  }

  // Whatever was delivered: in the order the database gives, the score the reader
  // takes for a wallet is that of its latest change.
  lemma TakenScoreIsLatestDelivered(scores: map<string, nat>, events: seq<E.Event>, loans: seq<LoanIndexRow>,
                                    history: seq<HistoryRow>, payments: seq<string>, r: Reputation, k: nat)
    returns (i: nat)
    requires QueriedFrom(E.Deliver(E.Tables(map[], [], map[], scores), events), loans, history, payments)
    requires DescendingNullsFirst(history) && TakenFrom(r, history, k)
    ensures LatestChange(events, i, r.wallet) && r.score == events[i].newScore
  {
    var t := E.Deliver(E.Tables(map[], [], map[], scores), events);
    i := FirstChangeOfRow(scores, events, history[k].txHash.value);
    forall j: nat | j < |events| && E.FirstChange(events, j, events[j].id) && events[j].wallet == r.wallet
      ensures events[j].ledger <= events[i].ledger
    {
      E.HistoryHoldsFirstChange(E.Tables(map[], [], map[], scores), events, events[j].id);
      var m :| 0 <= m < |history| && history[m].txHash == Some(events[j].id);
      assert history[m].wallet == r.wallet;
    }
  }

  lemma FirstChangeOfRow(scores: map<string, nat>, events: seq<E.Event>, id: string) returns (i: nat)
    requires id in E.Deliver(E.Tables(map[], [], map[], scores), events).history
    ensures E.FirstChange(events, i, id) && i < |events|
    ensures var row := E.Deliver(E.Tables(map[], [], map[], scores), events).history[id];
            row.wallet == events[i].wallet && row.newScore == events[i].newScore && row.ledger == events[i].ledger
  {
    var t := E.Tables(map[], [], map[], scores);
    E.HistoryIsComplete(t, events, id);
    var any: nat :| any < |events| && events[any].ScoreChanged? && events[any].id == id;
    i := E.SomeChangeIsFirst(events, any, id);
    E.HistoryHoldsFirstChange(t, events, id);
  }

  // An event id is made of numbers joined by dashes, a transaction hash of
  // hexadecimal digits.
  predicate EventId(id: string) {
    '-' in id
  }

  predicate Hex(h: string) {
    h != "" && forall i | 0 <= i < |h| :: '0' <= h[i] <= '9' || 'a' <= h[i] <= 'f'
  }

  lemma HexIsNoEventId(id: string, h: string)
    requires EventId(id) && Hex(h)
    ensures T.Lower(id) != h
  {
    var i :| 0 <= i < |id| && id[i] == '-';
    assert T.Lower(id)[i] == '-';
  }

  lemma HexIsNoChainHash(events: seq<E.Event>, hashes: seq<string>, h: string)
    requires forall i | 0 <= i < |events| :: EventId(events[i].id)
    requires "" !in hashes && Hex(h) && forall x | x in hashes :: HasId(events, x)
    ensures h !in D.LowerSet(hashes)
  {
    D.LowerSetIsChainSet(hashes);
    if x :| x in hashes && T.Lower(x) == h {
      var i :| 0 <= i < |events| && events[i].id == x;
      HexIsNoEventId(x, h);
      assert false;
    }
  }

  // Whatever was delivered and in whatever order the tables are read: no job
  // recognises a submitted transaction.  A pending row with a transaction hash is
  // failed by a job that completes once it is older than 30 minutes, and left
  // alone by every other one.
  lemma {:induction false} SubmittedRowsAreOrphaned(scores: map<string, nat>, events: seq<E.Event>,
                                                    loans: seq<LoanIndexRow>, history: seq<HistoryRow>,
                                                    payments: seq<string>, hashes: seq<string>, t: T.TxTable,
                                                    rows: seq<T.TxSnapshot>, now: int, arbiter: bool, id: T.RowId)
    requires forall i | 0 <= i < |events| :: EventId(events[i].id)
    requires QueriedFrom(E.Deliver(E.Tables(map[], [], map[], scores), events), loans, history, payments)
    requires forall h :: h in hashes <==> Mentions(loans, history, payments, h)
    requires T.ValidTable(t) && T.Enumerates(rows, t) && T.UniqueKeys(t)
    requires id in t.rows && t.rows[id].status == T.Pending && T.Key(t.rows[id]).Some? && Hex(T.Key(t.rows[id]).value)
    ensures var after := T.Attempt(t, rows, D.LowerSet(hashes), now, arbiter);
            && id in after.table.rows
            && after.table.rows[id].status
               == if after.completed && t.rows[id].submittedAt < now - T.ORPHAN_AGE_MS then T.Failed else T.Pending
  {
    var hs := D.LowerSet(hashes);
    forall x | x in hashes ensures HasId(events, x) {
      HashesAreEventIds(scores, events, loans, history, payments, x);
    }
    HexIsNoChainHash(events, hashes, T.Key(t.rows[id]).value);
    if T.Attempt(t, rows, hs, now, arbiter).completed {
      T.PassRepairsRow(t, rows, hs, now, id);
    } else {
      T.AbortLeaves(t, rows, hs, now, id);
    }
  }

  // The transactions table as submissions fill it.
  ghost predicate OnlySubmitted(t: T.TxTable) {
    forall id | id in t.rows && T.Key(t.rows[id]).Some? :: Hex(T.Key(t.rows[id]).value)
  }

  // With the index the migrations create, a job over such a table completes
  // exactly while nothing is indexed: the first event id stops it, and all jobs
  // after it.
  lemma {:induction false} CompletesOnlyOverEmptyIndex(scores: map<string, nat>, events: seq<E.Event>,
                                                       loans: seq<LoanIndexRow>, history: seq<HistoryRow>,
                                                       payments: seq<string>, hashes: seq<string>, t: T.TxTable,
                                                       rows: seq<T.TxSnapshot>, now: int)
    requires forall i | 0 <= i < |events| :: EventId(events[i].id)
    requires QueriedFrom(E.Deliver(E.Tables(map[], [], map[], scores), events), loans, history, payments)
    requires forall h :: h in hashes <==> Mentions(loans, history, payments, h)
    requires T.ValidTable(t) && T.Enumerates(rows, t) && T.UniqueKeys(t) && OnlySubmitted(t)
    ensures T.Attempt(t, rows, D.LowerSet(hashes), now, false).completed <==> hashes == []
    ensures OnlySubmitted(T.Attempt(t, rows, D.LowerSet(hashes), now, false).table)
  {
    var hs := D.LowerSet(hashes);
    T.CompletesExactlyWhen(t, rows, hs, now, false);
    if hashes != [] {
      var x := hashes[0];
      assert x in hashes;
      HashesAreEventIds(scores, events, loans, history, payments, x);
      D.LowerSetIsChainSet(hashes);
      assert T.Lower(x) in hs;
      var k :| 0 <= k < |hs| && hs[k] == T.Lower(x);
      forall id | id in t.rows && T.Key(t.rows[id]).Some? ensures T.Key(t.rows[id]).value != hs[k] {
        HexIsNoEventId(x, T.Key(t.rows[id]).value);
      }
      assert !T.HasRow(t, hs[k]);
    }
    KeysStaySubmitted(t, rows, hs, now);
  }

  lemma AbortKeepsSubmitted(t: T.TxTable, rows: seq<T.TxSnapshot>, hs: seq<string>, now: int)
    requires T.ValidTable(t) && T.Enumerates(rows, t) && T.UniqueKeys(t) && OnlySubmitted(t)
    requires !T.Attempt(t, rows, hs, now, false).completed
    ensures OnlySubmitted(T.Attempt(t, rows, hs, now, false).table)
  {
    T.NoBackfillYet(t, rows, hs, now, T.FirstUncovered(rows, hs, 0));
    forall id | id in t.rows
      ensures T.Key(T.Attempt(t, rows, hs, now, false).table.rows[id]) == T.Key(t.rows[id])
    {
      T.AbortLeaves(t, rows, hs, now, id);
    }
  }

  lemma KeysStaySubmitted(t: T.TxTable, rows: seq<T.TxSnapshot>, hs: seq<string>, now: int)
    requires T.ValidTable(t) && T.Enumerates(rows, t) && T.UniqueKeys(t) && OnlySubmitted(t)
    ensures OnlySubmitted(T.Attempt(t, rows, hs, now, false).table)
  {
    if T.Attempt(t, rows, hs, now, false).completed {
      var after := T.Pass(t, rows, hs, now);
      forall id | id in after.rows && T.Key(after.rows[id]).Some?
        ensures Hex(T.Key(after.rows[id]).value)
      {
        if id in t.rows {
          T.PassRepairsRow(t, rows, hs, now, id);
        } else {
          T.PassAddsRow(t, rows, hs, now, id);
        }
      }
    } else {
      AbortKeepsSubmitted(t, rows, hs, now);
    }
  }
}
