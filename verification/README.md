# StepFi API: verified models

Dafny models of the parts of the StepFi backend that keep state across runs or
do exact money arithmetic, with proofs of what they promise. Where a promise
does not hold for every input, a lemma says exactly when it does.

`dafny verify dfyconfig.toml` checks the whole project.

## What is modelled

| module | part of the system |
|---|---|
| `LoanReconciliation`, `LoanConvergence` | the loan half of the state reconciliation job: one pass, and repeated passes against a fixed chain state |
| `LoanMatching` | from the quote of a loan to the row it is resolved to |
| `TransactionReconciliation`, `BalanceReconciliation` | the transaction, liquidity and reputation parts of a pass |
| `AuthoritativeReader`, `StateReconciler` | the reader that folds the index tables, and the job object that owns the four projections |
| `DriftReports`, `DriftContents` | the drift report: its items and counters, and what they say of the tables |
| `LiquidityJobs` | jobs of several processes on the liquidity positions, interleaved |
| `IndexedHashes` | indexer, reader and reconciliation job together: the hashes that reach the job |
| `HorizonFailover`, `HorizonRuns` | circuit breakers and failover of the Horizon client: one call, runs of calls, overlapping calls |
| `LoanMoney`, `StatusChecker`, `RepaymentRace` | quote, schedule, next payment, preview, the checker's balance update, and several workers on one loan |
| `LoanRepayments` | the offers of a quoted loan paid through contract calls and the checker |
| `LoanStatuses` | the status of a loan between the checker, the indexer, the reconciliation job and the assessment |
| `TransactionProtocol`, `TransactionRuns` | submitters, checker workers, status pollers, reconciliation jobs and the cleanup on the transactions table, interleaved |
| `EventTables`, `EventIndexer` | idempotent persistence of contract events, and the cursor of the indexing cycle |
| `Nonces`, `Sessions` | single-use nonces and session families, interleaved with the cleanup jobs |
| `PoolShares` | share arithmetic of the liquidity pool and the withdrawal preview |
| `ApiKeyLimiter`, `OverlappingRequests`, `WalletThrottler` | the sliding counter per API key, one request after the other and overlapping, and the fixed window per wallet |

## How to read the models

- A table is a map or a sequence of rows. A query without an order returns a
  snapshot in any order, so a statement about all snapshots holds for every
  order the database chooses.
- Objects that change their fields step by step are classes, and their methods
  are proved to compute a specification function; the lemmas are about that
  function. Protocols whose point is interleaving are step functions on a
  state, and the lemmas quantify over all sequences of steps.
- Horizon, Soroban and the clock are parameters: what they answer is an input.
- Amounts are integers (stroops or cents) where rounding matters and reals
  where it does not. Times are integers.
- Rows marked "helper" in the table below are facts about one step or one value
  that the theorems about runs and whole passes are built from.
- Fields named as history (`sends`, `finals`, `claims`, `lost`, ...) record a
  run for the statements about it; the system itself does not store them.

## What the proofs bring to light

- Provisional ids do reach the chain: `create_loan` is called with the
  `pending-...` id of the loan
  (`src/stellar/contracts/clients/creditline.client.ts:34-66`). Reconciliation
  comes to rest for every table only while no wallet has two such chain loans.
- A quoted loan is rounded to the cent, and the match by amount allows 0.000001.
  A wallet with several provisional rows therefore has its loan resolved by
  amount only when five divides the price in cents; any other is reported
  missing in every pass.
- In one pass a claimed row can end with the id of the chain loan that claimed
  it and the status of the provisional loan that owned it before; the next pass
  sees the wrong status.
- The indexer stores event ids where the reader looks for transaction hashes
  (`src/indexer/event-parser.service.ts:48-52`), so the reconciliation job
  recognises no submitted transaction.
- The only unique index on `transaction_hash` is partial
  (`supabase/migrations/20260825000001_add_unique_transaction_hash.sql:25-27`),
  and a conflict target without its predicate finds no such index, so
  PostgreSQL refuses every backfill. A job therefore ends at the first indexed
  hash without a row: loans are repaired, orphans, positions and scores are not
  reached, and once an event id is indexed every later job ends there too. Only
  with an index that serves the target would a job go on, and then it would
  fail every pending row that is older than 30 minutes. The parameter `arbiter`
  says whether there is such an index.
- The checker calls a repaid loan `completed`, the indexer `paid`. The
  reconciliation job takes the difference for drift and renames the loan, so no
  indexed loan is completed after a job has gone through the loans.
- `ledger_sequence` is sorted descending, and PostgreSQL puts NULL first: a
  history row without a ledger hides every later score of its wallet. The
  indexer always sets the column, so such a row can only be a legacy or manual
  one.
- No code stores a `loan_payments` row, and no migration creates the table; only
  `docs/architecture/database-schema.md:136-151` describes it, while the loan
  list embeds it (`src/modules/loans/loans.service.ts:288`). Where the list can
  be read at all, the offered next payment is therefore always the first
  instalment. Following the offers clears a loan in its term only when
  the term divides its total and every payment is a `repay_loan` call.
- The checker follows up `repay_loan` calls
  (`src/jobs/transaction-status-checker/transaction-status-checker.service.ts:538`),
  while the backend builds `repay_installment` ones: they are confirmed without
  a balance update, and loans repaid this way are never cleared.
- Two workers that repay one loan at once can lose a repayment; only the
  `isRunning` flag of one process keeps them apart.
- A poller that finalises a row first leaves it without follow-up for ever.
- A submitter that marks its row failed can overwrite a success, and so can a
  reconciliation job: it updates by row id, with no look at the status, what it
  read at its start.
- Whether the outcome of a submission is unknown is decided by two words in the
  error message, not by the HTTP status: a 502, 503 or 504 whose message has
  neither "timeout" nor "network" marks the row failed. The lookup by hash does
  look at the status
  (`src/modules/transactions/transactions.service.ts:771-784`).
- A range error moves the cursor to the lowest ledger it names even when that is
  behind it. The events are delivered again, and defaults among them undo later
  repayments.
- A cursor that cannot be read is taken for 0. On a chain of more than 100,001
  ledgers the cycle then restarts 1,000 below the tip, and passes over what the
  stored cursor had not reached.
- A range with more than 100 events loses the rest for good, since the cursor
  moves to the tip. A default lost in this way leaves its loan shown as active.
- Overlapping refreshes of one token fork its session family, since the number
  of deleted rows is not looked at; a revocation does not reach a refresh that
  has passed its select and not yet inserted.
- A pool without shares but with liquidity gives that liquidity to the next
  depositor.
- `liquidity_positions` has no unique wallet, and jobs of two processes that both
  read no row for a wallet both insert one. No later job removes either, and the
  wallet is shown as having invested nothing from then on.
- An assessment writes the status it decided on without a look at what the status
  is by then, and can make an activated loan pending again.
- The API key guard reads its counter and writes it in two calls. Two requests at
  a time can get 1,890 through in one window where the maximum is 60.
- The API key limiter counts requests since the last pause of a whole window,
  not requests per window. Its constants are named seconds, while version 7 of
  `cache-manager` takes milliseconds; the model is in the cache's own unit.
- The comment of the wallet throttler calls it a sliding window; it is a fixed
  one, and nine requests fit into an interval of its length.

## Model

| member | source | states |
|---|---|---|
| LoanConvergence.SettlesExactlyWhen | src/jobs/state-reconciliation/state-reconciliation.processor.ts:95-127 | for a chain state with unique loan ids: from every table and in every read order, no repair happens after more passes than the termination measure, if and only if no wallet owns two chain loans with provisional ids |
| LoanConvergence.PassesSettle | src/jobs/state-reconciliation/state-reconciliation.processor.ts:95-127 | once more than `Measure` passes were made (the number of provisional rows at the start, when no chain id is provisional) every pass repairs nothing, leaves the table as it is, and every chain loan that has a row has its status |
| LoanConvergence.ClaimLowersMeasure | src/jobs/state-reconciliation/state-reconciliation.processor.ts:115-122 | a pass that resolves any provisional row strictly lowers the measure, although two chain loans may resolve the same row |
| LoanConvergence.ClaimLowersProvisionalRows | src/jobs/state-reconciliation/state-reconciliation.processor.ts:115-122 | without provisional chain ids such a pass strictly lowers the number of provisional rows |
| LoanConvergence.NothingLeft | src/jobs/state-reconciliation/state-reconciliation.processor.ts:106-126 | after a pass without a provisional repair, the next one repairs neither a status nor an id |
| LoanConvergence.NeverSettles | src/jobs/state-reconciliation/state-reconciliation.processor.ts:101-122 | with two provisional chain ids on one wallet there are runs of any length in which every pass moves a row |
| LoanConvergence.RunKeepsLoanIdsUnique | src/jobs/state-reconciliation/state-reconciliation.processor.ts:106-126 | every table of a run has unique loan ids |
| LoanReconciliation.DecideFits | src/jobs/state-reconciliation/state-reconciliation.processor.ts:100-125 | what the job decides for a chain loan from a snapshot in any order is what the table calls for: a stale status, a candidate of the same wallet whose amount, or four fifths of it, is within 0.000001 of the principal, or the only candidate, or a missing row |
| LoanMatching.ClaimedAmongSeveral | src/jobs/state-reconciliation/state-reconciliation.processor.ts:115-125 | from quote to claim, in every read order: among several provisional rows of a wallet whose prices are in whole cents, the loan quoted for one of them claims that row if five divides its price in cents, and none if it does not, unless another row has the same price or the loan as its price |
| LoanMatching.ClaimsByPrice | src/jobs/state-reconciliation/state-reconciliation.processor.ts:115-125 | a quoted loan without a row is resolved to a row of its wallet whose price is the loan, or is the quoted price and divisible by five, or to the only provisional row; it is missing if and only if there is none of these |
| LoanMatching.RowMatchesQuoteExactlyWhen | src/jobs/state-reconciliation/state-reconciliation.processor.ts:116-119 | a price in whole cents matches the loan quoted for a price if and only if it is that loan, or is that price and divisible by five |
| LoanMatching.QuotedLoanIsFourFifths | src/modules/loans/loans.service.ts:434-435 | helper: a quoted loan is four fifths of its price in cents if and only if five divides the price, and off by at most two fifths of a cent otherwise |
| LoanMatching.ProvisionalExactlyWhen | src/jobs/state-reconciliation/state-reconciliation.processor.ts:101-105 | helper: an id is provisional if and only if it starts with one of the three prefixes |
| LoanReconciliation.RowAfter | src/modules/loans/loans.repository.ts:40-56 | no repair moves a row to another wallet or changes its amount; its loan id is the old one or that of a chain loan that claimed it |
| LoanReconciliation.LoanIdsStayUnique | src/modules/loans/loans.repository.ts:40-47 | loan ids are unique after every single step of a pass, so the UNIQUE constraint never rejects a repair |
| LoanReconciliation.StatusesAgreeExactlyWhen | src/jobs/state-reconciliation/state-reconciliation.processor.ts:106-122 | after a pass every chain loan that has a row has its status, if and only if no row is overtaken: no chain loan that owned a row under its old id writes another status after the last chain loan that claimed it |
| LoanReconciliation.OvertakenRow | src/jobs/state-reconciliation/state-reconciliation.processor.ts:106-122 | a family of inputs, with one provisional chain id only, in which a pass leaves the claimed row with the id of the claimer and the status of the provisional loan |
| LoanReconciliation.StatusesAgreeAfterPass | src/jobs/state-reconciliation/state-reconciliation.processor.ts:106-114 | in particular statuses agree after a pass that claims no row, and after any pass when no chain id is provisional |
| LoanReconciliation.RowSettles | src/jobs/state-reconciliation/state-reconciliation.processor.ts:106-126 | after any prefix of any pass a row has the loan id of the last chain loan that claimed it and the status of the last one that wrote to it, or the old ones |
| TransactionReconciliation.PassRepairsRow | src/jobs/state-reconciliation/state-reconciliation.processor.ts:129-153 | when backfills are accepted, both loops together do to every old row exactly this: pending and on chain becomes success, pending, off chain and older than 30 minutes becomes failed, anything else stays |
| TransactionReconciliation.PassAddsRow | src/modules/transactions/transactions.repository.ts:47-63 | when backfills are accepted, every row that a pass adds is a successful one for a chain hash that had no row |
| TransactionReconciliation.PassCoversChain | src/jobs/state-reconciliation/state-reconciliation.processor.ts:136-145 | when backfills are accepted, every chain hash ends the pass with a row that is not pending |
| TransactionReconciliation.PassKeepsKeysUnique | src/jobs/state-reconciliation/state-reconciliation.processor.ts:134-152 | lower-cased hashes stay unique over a pass |
| TransactionReconciliation.PassBringsInStep | src/jobs/state-reconciliation/state-reconciliation.processor.ts:129-153 | when backfills are accepted, all chain hashes are covered after a pass and no row is left to repair |
| TransactionReconciliation.SecondPassFindsNoDrift | src/jobs/state-reconciliation/state-reconciliation.processor.ts:129-153 | when backfills are accepted, a second pass at the same clock, over any snapshot of the result, reports nothing |
| TransactionReconciliation.CompletesExactlyWhen | src/modules/transactions/transactions.repository.ts:47-63 | the migrations create a partial unique index only, which cannot serve the conflict target of a backfill; with it, in every read order, a pass completes if and only if every chain hash already has a row |
| TransactionReconciliation.AbortLeaves | src/jobs/state-reconciliation/state-reconciliation.processor.ts:134-145 | what a pass that a refused backfill cuts short leaves: pending rows of the hashes before the first one without a row are successful, every other row is as it was, none is added |
| TransactionReconciliation.AbortPersists | src/jobs/state-reconciliation/state-reconciliation.processor.ts:134-145 | after a pass that was cut short every later one is cut short as well, for any snapshot, clock and chain that still has that hash |
| TransactionReconciliation.LoopsTouchDisjointRows | src/jobs/state-reconciliation/state-reconciliation.processor.ts:136-152 | helper: no row is touched by the succeed loop and by the orphan loop of one pass |
| TransactionReconciliation.LookupFindsKey | src/jobs/state-reconciliation/state-reconciliation.processor.ts:135-137 | helper: the map by lower-cased hash finds the row of a hash and no other, or there is none |
| TransactionReconciliation.SameLowerExactlyWhen | src/jobs/state-reconciliation/state-reconciliation.processor.ts:135 | helper: lower case tells two hashes apart if and only if they differ in more than the case of their letters |
| TransactionReconciliation.SelectedExactlyWhen | src/modules/transactions/transactions.repository.ts:23-33 | helper: a row counts under its older hash column if and only if the newer one is absent, and not at all when the hash is empty |
| BalanceReconciliation.PassBringsInStep | src/jobs/state-reconciliation/state-reconciliation.processor.ts:155-172 | after a pass every authoritative position has a row with its amount |
| BalanceReconciliation.PassKeepsOneRowPerWallet | src/jobs/state-reconciliation/state-reconciliation.processor.ts:160-171 | a pass that no other job interleaves with gives no wallet a second liquidity row |
| LiquidityJobs.DuplicatedExactlyWhen | src/jobs/state-reconciliation/state-reconciliation.processor.ts:155-172 | over every run of any number of jobs, interleaved position by position: a wallet ends with more than one row if and only if some job inserts one for it while it has one |
| LiquidityJobs.LateInsertsOverlap | src/jobs/state-reconciliation/state-reconciliation.processor.ts:157-167 | such an insert needs an overlap: the job started before another job inserted the row it did not see |
| LiquidityJobs.OverlappingJobsDuplicate | src/jobs/state-reconciliation/state-reconciliation.processor.ts:163-167 | two jobs that both start from an empty table both insert |
| LiquidityJobs.DuplicatedShowsNothing | src/modules/liquidity/liquidity.service.ts:300-315 | a wallet with two rows is shown as having invested nothing, for ever, whatever jobs run later: the single-row query fails and no job removes a row |
| LiquidityJobs.PassChangesOneRow | src/jobs/state-reconciliation/state-reconciliation.processor.ts:160-167 | of the rows of a wallet a pass changes at most the one it reads last, so a second one keeps its old amount |
| BalanceReconciliation.OldRow | src/jobs/state-reconciliation/state-reconciliation.processor.ts:163-167 | an old liquidity row keeps its wallet, takes the amount of the position of that wallet, and stays as it is without one |
| BalanceReconciliation.InStepMeansNothingStale | src/jobs/state-reconciliation/state-reconciliation.processor.ts:163 | helper: a table in step has no stale position in whatever order it is read |
| BalanceReconciliation.ScoresFollowReputations | src/jobs/state-reconciliation/state-reconciliation.processor.ts:180-192 | every cached score of a wallet with a reputation becomes that reputation; no other score changes and no cache row is created |
| StateReconciler.StateReconciliationProcessor.FindTransactions | src/modules/transactions/transactions.repository.ts:23-33 | the snapshot lists each row with `transaction_hash ?? hash` once and drops those without a value |
| StateReconciler.StateReconciliationProcessor.ReconcileLoan | src/jobs/state-reconciliation/state-reconciliation.processor.ts:106-125 | one turn of the loan loop: the table step and the drift item that belong to the decision |
| StateReconciler.StateReconciliationProcessor.ReconcileLoans | src/jobs/state-reconciliation/state-reconciliation.processor.ts:95-127 | the loan loop leaves the table the pass defines, reports its items, and keeps loan ids unique |
| StateReconciler.StateReconciliationProcessor.SucceedOrBackfill | src/jobs/state-reconciliation/state-reconciliation.processor.ts:136-145 | the loop over the chain hashes, up to the first backfill that is refused: marks pending rows successful, backfills missing ones where the index serves, reports both and whether it completed |
| StateReconciler.StateReconciliationProcessor.FailOrphans | src/jobs/state-reconciliation/state-reconciliation.processor.ts:146-152 | the loop over the snapshot: fails and reports the orphaned rows |
| StateReconciler.StateReconciliationProcessor.ReconcileTransactions | src/jobs/state-reconciliation/state-reconciliation.processor.ts:129-153 | both loops over the lower-cased hash set, or the first one up to a refused backfill: tables stay valid; a completed attempt ends in step; a table already in step completes and yields no item |
| StateReconciler.StateReconciliationProcessor.ReconcileLiquidity | src/jobs/state-reconciliation/state-reconciliation.processor.ts:155-172 | positions end in step, one row per wallet; in step before means no item |
| StateReconciler.StateReconciliationProcessor.ReconcileReputation | src/jobs/state-reconciliation/state-reconciliation.processor.ts:174-193 | cached scores end in step; an item is unrepaired only for a wallet without a cache row |
| StateReconciler.StateReconciliationProcessor.Reconcile | src/jobs/state-reconciliation/state-reconciliation.processor.ts:68-93 | one whole job: the loans are passed; a job that a refused backfill ends reports nothing and leaves positions and scores alone; one that completes changes all four projections by their passes and ends transactions, positions and scores in step; its report has exactly the items that the tables before and after the job and the chain call for, with their keys and their repair marks, counts them by type, and is empty if and only if nothing was stale, missing, claimable, added or changed; a state already in step completes without a repair of a transaction, position or score |
| StateReconciler.StateReconciliationProcessor.ReconcileTwice | src/jobs/state-reconciliation/state-reconciliation.processor.ts:68-93 | of two jobs against the same chain and clock both complete or neither does, and the second one repairs no transaction, position or score |
| StateReconciler.StateReconciliationProcessor.RunScheduled | src/jobs/state-reconciliation/state-reconciliation.processor.ts:50-66 | reader and job together, from the rows of the index tables: the job completes if and only if backfills are accepted or every indexed hash already has a row; the loan statuses agree with the index if and only if the pass overtook no row; an indexed loan without a row gets its id on the one provisional row of its wallet, or on the one whose amount matches its principal, unless another indexed loan of the wallet is without a row; both even in a job that does not complete, which changes no position or score; in one that does, each investor has exactly one position row holding the sum of its investments, each cached score is that of the first history row of its wallet, which has the highest ledger if and only if all rows of the wallet have one, and every indexed hash is covered; an overlapping job does nothing |
| DriftReports.CountersAddUp | src/jobs/state-reconciliation/state-reconciliation.processor.ts:81-82 | the counters of the seven drift types add up to the number of items |
| DriftReports.CountByType | src/jobs/state-reconciliation/state-reconciliation.processor.ts:81-82 | each counter is the number of items of its type, zero included |
| DriftReports.MakeReport | src/jobs/state-reconciliation/state-reconciliation.processor.ts:85-92 | the report counts all items, the repaired ones and those of each type |
| DriftContents.LoanItemsReported | src/jobs/state-reconciliation/state-reconciliation.processor.ts:95-127 | one stale-status item per chain loan whose row has another status, one provisional-id item, naming the old id, per chain loan without a row that has a row to take, one unrepaired missing-row item per chain loan with neither, and no other |
| DriftContents.TransactionItemsReported | src/jobs/state-reconciliation/state-reconciliation.processor.ts:129-153 | one item per row that a pass adds and one per row whose status it changes, each under the hash of that row, and no other |
| DriftContents.PositionItemsReported | src/jobs/state-reconciliation/state-reconciliation.processor.ts:155-172 | one item per position without a row of that wallet and amount, and no other |
| DriftContents.ScoreItemsReported | src/jobs/state-reconciliation/state-reconciliation.processor.ts:174-193 | one item per reputation whose cache row is missing or differs, repaired if and only if there is one, and no other |
| DriftContents.EmptyExactlyWhen | src/jobs/state-reconciliation/state-reconciliation.processor.ts:73-92 | a report is empty if and only if every chain loan had a row with its status, no transaction was added or changed, and every position and score was there |
| DriftContents.AssembleReport | src/jobs/state-reconciliation/state-reconciliation.processor.ts:81-92 | the items of the four parts make up the report, counted by type and repair |
| AuthoritativeReader.Read | src/indexer/authoritative-state.reader.ts:57-113 | the whole read: loans row by row with id, wallet, status, principal and hash, one position per investor with the total conserved, one reputation per wallet, the union of all non-empty hashes without repeats |
| AuthoritativeReader.SumPerWallet | src/indexer/authoritative-state.reader.ts:90-96 | one position per wallet that invests, holding the sum of its rows; the positions add up to all investments |
| AuthoritativeReader.LatestPerWallet | src/indexer/authoritative-state.reader.ts:78-83 | one reputation per wallet in the history, taken from its first row in query order |
| AuthoritativeReader.CollectHashes | src/indexer/authoritative-state.reader.ts:85-88 | a hash is collected if and only if it is a non-empty hash of a loan, history or payment row, and once |
| AuthoritativeReader.TakenIsLatestExactlyWhen | src/indexer/authoritative-state.reader.ts:62-65 | under the database order (descending, nulls first) the score taken has the highest ledger of its wallet if and only if every history row of the wallet has a ledger |
| IndexedHashes.SubmittedRowsAreOrphaned | src/jobs/state-reconciliation/state-reconciliation.processor.ts:129-153 | indexer, reader and job together, for every delivery of events and every table: a pending row with a transaction hash is never recognised; a job that completes fails it once it is older than 30 minutes, any other leaves it alone |
| IndexedHashes.CompletesOnlyOverEmptyIndex | src/modules/transactions/transactions.repository.ts:47-63 | with the index the migrations create, over a table filled by submissions, a job completes if and only if nothing with an id has been indexed, and leaves such a table such a table: the first event id stops this job and all later ones |
| IndexedHashes.HashesAreEventIds | src/indexer/event-parser.service.ts:48-52 | every hash the reader collects is the id of a delivered event |
| IndexedHashes.TakenScoreIsLatestDelivered | src/indexer/authoritative-state.reader.ts:62-83 | indexer and reader together, for every delivery: in the order the database gives, the score taken for a wallet is that of a delivered change of the wallet with the highest ledger |
| HorizonFailover.CallMeans | src/stellar/horizon-client.service.ts:124-184 | a call is served by the first endpoint in cyclic order that is not cooling and answers, reports "all unavailable" if and only if every endpoint was cooling or failed with an endpoint error, and changes each breaker by its own visit only |
| HorizonFailover.CoolsExactlyWhen | src/stellar/horizon-client.service.ts:127-180 | helper: a failure makes an endpoint cool down if and only if it is at least the third since the last answer, and for thirty seconds |
| HorizonFailover.IndexIsInjective | src/stellar/horizon-client.service.ts:130-136 | helper: the cyclic order visits no endpoint twice |
| HorizonFailover.HorizonClient.TryEndpoint | src/stellar/horizon-client.service.ts:138-180 | one turn of the failover loop: breaker, preferred index and whether the call ends |
| HorizonFailover.HorizonClient.WithFailover | src/stellar/horizon-client.service.ts:124-184 | the loop over mutable breakers computes the specified call and prefers the endpoint that served |
| HorizonRuns.BreakerRemembersRun | src/stellar/horizon-client.service.ts:138-180 | over every run of successive calls a breaker counts the endpoint errors since the last answer, is closed if and only if they are fewer than three, and no contact falls into its cooldown |
| HorizonRuns.LastServerIsPreferred | src/stellar/horizon-client.service.ts:155-158 | over every run of successive calls, the next one starts with the endpoint that served last |
| HorizonRuns.DeadEndpointContacts | src/stellar/horizon-client.service.ts:140-180 | an endpoint that never answers is contacted at most 3 + T / 30000 times, T being the milliseconds since its third contact |
| HorizonRuns.EveryInterleavingIsConsistent | src/stellar/horizon-client.service.ts:127-180 | in every interleaving of overlapping calls: failure count equals errors since the last answer, closed if and only if below three, cooldown set if and only if not closed |
| HorizonRuns.UndisturbedFlightIsCall | src/stellar/horizon-client.service.ts:124-184 | a call of the interleaved model that no other call interrupts is the whole call of `HorizonFailover`: same breakers, same preferred endpoint, other calls in flight untouched |
| LoanMoney.QuoteSplitsPrice | src/modules/loans/loans.service.ts:434-435 | for a price in whole cents guarantee and loan add up to the price |
| LoanMoney.QuoteIsNearest | src/modules/loans/loans.service.ts:434-438 | helper: guarantee, loan and total repayment are the nearest cents to a fifth and four fifths of the price and to the loan with its simple yearly interest |
| LoanMoney.QuoteCoversTerm | src/modules/loans/loans.service.ts:434-438 | helper: every quote the request validation admits repays at least the loan and at least one cent a month |
| LoanMoney.GenerateSchedule | src/modules/loans/loans.service.ts:499-529 | the instalments: the same whole cents each, the last one taking up the rest, adding up to the total |
| LoanMoney.LastInstalmentIsClose | src/modules/loans/loans.service.ts:504-517 | helper: the last instalment exceeds any other by fewer than `term` cents |
| LoanMoney.RecordedPaymentsClear | src/modules/loans/loans.service.ts:531-547 | if every payment were applied to the balance and stored a payment row (no code stores one): paying what is offered leaves the total less the instalments paid, positive until the last payment and zero exactly after it |
| LoanMoney.OffersClearExactlyWhen | src/modules/loans/loans.service.ts:175-214 | if every payment were applied and stored a payment row: all `term` offers pass the repayment checks if and only if the total is at least one cent per month; then the loan is completed |
| LoanMoney.EveryQuoteClears | src/modules/loans/loans.service.ts:434-438 | if every payment were applied and stored a payment row: every quoted loan would be cleared by following the offers |
| LoanMoney.QuoteClearsExactlyWhen | src/modules/loans/loans.service.ts:531-547 | if every payment were applied, without payment rows: every offer made for a quoted loan is accepted, and `term` of them clear it if and only if the term divides the total; `LoanRepayments.QuotedLoanClearsExactlyWhen` drops the hypothesis |
| LoanMoney.QuoteThatDoesNotClear | src/modules/loans/loans.service.ts:434-438 | a price of 100.00 over three months without interest leaves two cents after its three offers even if every payment were applied |
| LoanMoney.UnrecordedPaymentsClearExactlyWhen | src/modules/loans/loans.service.ts:535-546 | if every payment were applied, without stored payment rows `term` offered payments clear the loan if and only if the term divides the total |
| LoanMoney.UnrecordedBalance | src/modules/loans/loans.service.ts:535-546 | if every payment were applied, without stored payment rows each takes off the first instalment until nothing is left |
| LoanMoney.PreviewIsStoredExactlyWhen | src/modules/loans/loans.service.ts:246-247 | the previewed balance is the one stored later if and only if it is in whole cents |
| LoanMoney.AcceptedIsTakenOffInFull | src/modules/loans/loans.service.ts:200-213 | in whole cents a payment of at least a cent for an active loan is accepted if and only if the checker can take it off in full; it clamps any other at zero |
| LoanMoney.AcceptedExactlyWhen | src/modules/loans/loans.service.ts:200-213 | helper: a payment is accepted if and only if it is at least a cent, the loan is active and the balance covers it |
| LoanMoney.CompletionIsPreviewedExactlyWhen | src/jobs/transaction-status-checker/transaction-status-checker.service.ts:451-453 | completion is previewed correctly unless, and only unless, the remainder is positive and below half a cent |
| LoanMoney.RoundingDrift | src/jobs/transaction-status-checker/transaction-status-checker.service.ts:451-452 | after k repayments of any amounts the stored balance is within k half-cents of the exact one |
| LoanMoney.WholeCentBalance | src/jobs/transaction-status-checker/transaction-status-checker.service.ts:451-452 | in whole cents the stored balance is the initial one less all repayments, never below zero |
| StatusChecker.TransactionStatusChecker.ActivatePendingLoan | src/jobs/transaction-status-checker/transaction-status-checker.service.ts:369-421 | activates the loan of that id and wallet if it is pending, and changes nothing otherwise |
| StatusChecker.TransactionStatusChecker.ApplyLoanRepayment | src/jobs/transaction-status-checker/transaction-status-checker.service.ts:423-486 | lowers the balance of the loan of that id and wallet and completes it at zero |
| StatusChecker.TransactionStatusChecker.FinalizeTransaction | src/jobs/transaction-status-checker/transaction-status-checker.service.ts:287-367 | the guarded update, and only behind it follow-up and notification; what these do is the subject of `CycleState` and `CycleNotifies` |
| StatusChecker.TransactionStatusChecker.CheckTransactions | src/jobs/transaction-status-checker/transaction-status-checker.service.ts:73-176 | one cycle over the fetched rows equals the specified fold; an overlapping cycle does nothing |
| StatusChecker.CycleStatuses | src/jobs/transaction-status-checker/transaction-status-checker.service.ts:112-131 | a cycle finalises a hash by its own turn only and exactly when Horizon confirmed it |
| StatusChecker.CycleState | src/jobs/transaction-status-checker/transaction-status-checker.service.ts:340-421 | what a whole cycle makes of a loan: repaid if some confirmed repayment that counts left nothing owed; else in repayment if it awaited activation and some confirmed creation named it; else as it was |
| StatusChecker.StopsAwaitingExactlyWhen | src/jobs/transaction-status-checker/transaction-status-checker.service.ts:358-421 | a loan stops awaiting activation if and only if a fetched creation of it was confirmed or a repayment cleared it |
| StatusChecker.CycleNotifies | src/jobs/transaction-status-checker/transaction-status-checker.service.ts:331-332 | a cycle adds one notification per confirmed hash, in the order of the rows, each with the wallet of its row and the verdict on it |
| StatusChecker.FinalizedRowsChangeNothing | src/jobs/transaction-status-checker/transaction-status-checker.service.ts:307-331 | a row that something else has finalised since it was fetched, or that is gone, is neither followed up nor notified |
| StatusChecker.CycleBalance | src/jobs/transaction-status-checker/transaction-status-checker.service.ts:112-131 | after a cycle in whole cents a balance is what it was less all confirmed repayments of that loan, never below zero |
| StatusChecker.CycleIsOrderFree | src/jobs/transaction-status-checker/transaction-status-checker.service.ts:178-194 | the balances do not depend on the order of the fetched rows |
| StatusChecker.RepaymentCountsExactlyWhen | src/jobs/transaction-status-checker/transaction-status-checker.service.ts:532-547 | a confirmed repayment changes a loan if and only if it calls `repay_loan` with the id of that loan and a number; a positive whole-cent amount then lowers the balance |
| StatusChecker.BuiltRepaymentsChangeNoBalance | src/stellar/contracts/clients/creditline.client.ts:70-96 | when all pending repayments are `repay_installment` calls as the backend builds them, no cycle changes any balance |
| LoanRepayments.QuotedLoanClearsExactlyWhen | src/modules/loans/loans.service.ts:531-547 | quote, offers, calls and checker together, each payment with its own contract call: for every quoted loan all `term` offers are accepted, and the loan is cleared if and only if every payment was a `repay_loan` call and the term divides the total (or a payment row was stored each time, which no code does) |
| LoanRepayments.BuiltPaymentsClearNothing | src/stellar/contracts/clients/creditline.client.ts:70-96 | paid as the backend builds repayments, the whole total stays owed and the loan stays active after any number of offers |
| LoanRepayments.BuiltPaymentsOfEvenQuote | src/stellar/contracts/clients/creditline.client.ts:70-96 | a price of 100.00 over four months without interest: the term divides the total, and all of it stays owed after four payments as built |
| LoanRepayments.OffersRefinePayments | src/jobs/transaction-status-checker/transaction-status-checker.service.ts:532-547 | paying offers through the checker leaves what as many applied payments leave as there were `repay_loan` calls; the calls the allowlist also admits leave nothing |
| LoanStatuses.CompletedExactlyWhen | src/jobs/transaction-status-checker/transaction-status-checker.service.ts:451-462 | a row under its final id, over every run of activations, repayments, indexed events, reconciliations and assessments: it is completed if and only if a repayment cleared it, and since then no reconciliation has met it in the index and no assessment begun before has ended |
| LoanStatuses.CompletedAfterPassExactlyWhen | src/jobs/state-reconciliation/state-reconciliation.processor.ts:106-122 | a reconciliation pass, in whatever read order, leaves a row completed if and only if it was and its loan is not indexed |
| LoanStatuses.PassWritesIndexStatus | src/jobs/state-reconciliation/state-reconciliation.processor.ts:106-109 | a row under a final id has the status of the index after a pass if its loan is indexed, and stays as it is otherwise |
| LoanStatuses.RepaidLoanIsRenamed | src/indexer/indexer.service.ts:319-329 | a loan that the checker has just completed is drift for the next pass, which gives it the name the index uses, never completed |
| LoanStatuses.PaidIsCovered | src/indexer/indexer.service.ts:308-330 | over every such run a loan shown as paid has indexed payments of at least its principal and interest |
| LoanStatuses.AssessmentUndoesActivation | src/modules/loans/loans.service.ts:604-626 | an assessment that began while the loan was pending and ends after its activation makes it pending again: its update does not look at the status |
| LoanStatuses.StepWrites | src/modules/loans/loans.service.ts:604-626 | helper: the status each writer leaves: activation of a pending loan, a repayment that leaves nothing owed, the name of the index status, the outcome of an assessment, which begins only for a pending loan or one under review |
| LoanStatuses.IndexIsDelivered | src/indexer/indexer.service.ts:224-390 | helper: whatever the other writers do in between, the index is that of a plain delivery of its events |
| RepaymentRace.NothingIsLostExactlyWhen | src/jobs/transaction-status-checker/transaction-status-checker.service.ts:430-470 | with several workers on one loan every interleaving ends at max(0, balance - sum of repayments) if and only if there is at most one repayment, or each covers the balance, or all are zero |
| RepaymentRace.HarmlessRuns | src/jobs/transaction-status-checker/transaction-status-checker.service.ts:430-470 | what every state of a harmless race keeps: the first write already leaves the final balance |
| RepaymentRace.LastWriteWins | src/jobs/transaction-status-checker/transaction-status-checker.service.ts:430-470 | for any worker there is an interleaving in which only its repayment counts |
| TransactionRuns.EveryRunKeepsInv | src/modules/transactions/transactions.service.ts:137-207 | in every interleaving of submitters, workers, pollers, reconciliation jobs and cleanups a row is sent at most once, after its insert and by the submitter that inserted it; it passes the guarded update at most once; the rows that passed are exactly those that were followed up, once, or that one worker still has to follow up |
| TransactionRuns.FollowedUpExactlyWhen | src/jobs/transaction-status-checker/transaction-status-checker.service.ts:307-331 | from any state of a run, some continuation follows a row up if and only if it passed the guarded update or is still pending |
| TransactionRuns.NeverComesIntoReach | src/modules/transactions/transactions.service.ts:739-765 | a row that a poller, a submitter or a reconciliation job finalised is never passed or followed up in any later run |
| TransactionRuns.PollerTakesFollowUpAway | src/modules/transactions/transactions.service.ts:218-230 | a run from the start in which a status request finalises a success first, so that no continuation follows it up |
| TransactionRuns.FinalStatusFlipsExactlyWhen | src/modules/transactions/transactions.repository.ts:35-45 | a final status changes if and only if a poller, a submitter that marks its row failed or a reconciliation job with an old snapshot writes the other one; checker and cleanup never change one |
| TransactionWriters.StatusChangesExactlyWhen | src/modules/transactions/transactions.repository.ts:35-45 | the status of a row, pending or not, changes if and only if a worker that holds it confirms it while it is pending, or a poller, a marking submitter or a reconciliation job with that row still to do in its snapshot writes the other status |
| TransactionWriters.RowAppearsExactlyWhen | src/modules/transactions/transactions.repository.ts:47-72 | a row appears if and only if the submitter about to insert it succeeds, or a job that saw its hash on the chain and no row for it backfills it as a success |
| TransactionWriters.JobKeepsItsSnapshot | src/jobs/state-reconciliation/state-reconciliation.processor.ts:129-153 | in every interleaving a running job decides by the rows that were there when it started, the chain hashes it was given then and the hashes it has dealt with since |
| TransactionWriters.JobEndsExactlyWhen | src/jobs/state-reconciliation/state-reconciliation.processor.ts:134-153 | helper: a job ends if and only if it is through or a backfill that was due is refused |
| TransactionWriters.PollersFoundTheirRow | src/modules/transactions/transactions.service.ts:209-230 | helper: in every interleaving a poller about to write found a row of its hash |
| TransactionWriters.SentExactlyWhen | src/modules/transactions/transactions.service.ts:137-207 | an undisturbed submission reaches Horizon if and only if its hash has no row and the insert works; a known hash is answered with the status of its row |
| TransactionRuns.RefusalOverwritesSuccess | src/modules/transactions/transactions.service.ts:548-559 | for every error that is marked, a run from the start in which the mark overwrites a success that a status request confirmed meanwhile |
| TransactionRuns.UnknownOutcomeIsMarkedFailed | src/modules/transactions/transactions.service.ts:496-511 | a run from the start in which an HTTP 503 whose message mentions neither word has the row marked failed, although it was sent and its outcome is unknown, so that no continuation follows it up |
| TransactionRuns.OutagesAreNotMarked | src/modules/transactions/transactions.service.ts:539-542 | in every run a submitter about to mark a row holds an error with result codes or without either word |
| TransactionRuns.ReconcilerOverwritesSuccess | src/modules/transactions/transactions.repository.ts:39-45 | a run from the start in which a reconciliation job fails, as an orphan, a row that the checker finalised as successful meanwhile |
| TransactionRuns.FinalsStayOnce | src/jobs/transaction-status-checker/transaction-status-checker.service.ts:307-313 | helper: no step lets a row pass the update guarded by `status = pending` a second time |
| TransactionRuns.FollowUpsStayOnce | src/jobs/transaction-status-checker/transaction-status-checker.service.ts:331 | helper: no step breaks that passed rows are followed up once or held by one worker |
| TransactionProtocol.VerdictsAreRecorded | src/modules/transactions/transactions.service.ts:149-206 | helper: what each submitter is told: a duplicate gets the status recorded at that moment, failed inserts send nothing, an error without result codes whose message mentions an outage leaves every row as it is |
| TransactionProtocol.SubmitterTouchesRows | src/modules/transactions/transactions.service.ts:534-569 | helper: a submitter changes rows in two ways only: its own pending insert, and marking its hash failed after an error not described as an outage |
| TransactionProtocol.MarksExactlyWhen | src/modules/transactions/transactions.service.ts:473-555 | helper: an error leads to the mark if and only if it has result codes or its message mentions neither "timeout" nor "network", whatever the HTTP status |
| TransactionProtocol.RowDisappearsExactlyWhen | src/jobs/transaction-status-checker/transaction-status-checker.service.ts:648-656 | helper: a row disappears if and only if the cleanup meets it final and older than seven days; a pending row stays whatever happens |
| TransactionProtocol.StepEvolvesTable | src/modules/transactions/transactions.repository.ts:47-72 | helper: no step turns a row back to pending or changes its identity; a new row is the pending one of its submitter or a backfilled success |
| EventTables.RedeliveryChangesNothingExactlyWhen | src/indexer/indexer.service.ts:224-390 | delivering an event again changes nothing if and only if it is not a default of an indexed loan that has another status by now |
| EventTables.DeliveryRefinesFirsts | src/indexer/indexer.service.ts:242-390 | without defaults, any delivery with repeats gives the tables of the first occurrences alone |
| EventTables.FirstsAreDistinct | src/indexer/indexer.service.ts:224-390 | helper: the first occurrences are the delivered events, each once |
| EventTables.ReplayOnlyRedefaults | src/indexer/indexer.service.ts:333-349 | delivering seen events again, in any order and number, only re-announces the defaults among them |
| EventTables.ReplayIsHarmlessExactlyWhen | src/indexer/indexer.service.ts:333-349 | a full replay leaves the tables alone if and only if every loan ever announced as defaulted still is |
| EventTables.DefaultedExactlyWhen | src/indexer/indexer.service.ts:319-349 | over every delivery a loan is shown as defaulted if and only if a default of it came after its creation and no new payment has come since, repeats of earlier ones notwithstanding |
| EventTables.DefaultIsReplayed | src/indexer/indexer.service.ts:319-349 | a concrete history that a replay changes: default, then a partial repayment |
| EventTables.PaidLoansArePaidInFull | src/indexer/indexer.service.ts:308-330 | over every delivery, defaults and repeats included, a loan shown as paid has payments of at least principal plus interest |
| EventTables.StatusFollowsPaymentsInOrder | src/indexer/indexer.service.ts:308-330 | when no payment comes before its loan, a loan that is not defaulted is shown as paid if and only if its payments cover principal and interest |
| EventTables.LoansKeepTheirTerms | src/indexer/indexer.service.ts:248-271 | a loan keeps the wallet, principal and interest of the event that created it, and is never removed |
| EventTables.ScoreIsLastNewChange | src/indexer/indexer.service.ts:357-382 | a cached score is that of the last change of its wallet that was delivered for the first time |
| EventTables.CachedWalletsStay | src/indexer/indexer.service.ts:376-388 | helper: no delivery gives a wallet a cached score that had none |
| EventTables.HistoryIsComplete | src/indexer/indexer.service.ts:357-374 | the history holds exactly the score changes delivered so far |
| EventTables.HistoryHoldsFirstChange | src/indexer/indexer.service.ts:357-374 | over every delivery an old history row stays as it is, and a new one holds the wallet, the score and the ledger of the first delivered change with its id |
| EventTables.PaymentsStayDistinct | src/indexer/indexer.service.ts:279-291 | a payment is stored once per event and loan |
| EventTables.SeenStaysThroughout | src/indexer/indexer.service.ts:242-390 | the mark by which a redelivered event is recognised is never lost |
| EventIndexer.EverythingUpToTheCursorIsIndexed | src/indexer/indexer.service.ts:85-185 | over every run from an empty cursor: every recognised event up to the cursor, defaults included, is delivered to the tables, and counts as seen from then on, unless some cycle passed over it |
| EventIndexer.EverythingUpToTheCursorIsFetched | src/indexer/indexer.service.ts:85-218 | over every run from an empty cursor, with any tips, heals, network failures and cursors that cannot be read or saved: every event up to the cursor, of whatever kind, was on a page unless a heal jumped over it, a range error moved past it, or it did not fit on a page |
| EventIndexer.RunIsDelivery | src/indexer/indexer.service.ts:146-180 | over every run the tables are those of a delivery of the events on its pages, in order, so every statement about deliveries holds of runs |
| EventIndexer.DeliveredIsFetched | src/indexer/indexer.service.ts:191-218 | an event is delivered by a run if and only if some cycle had it on its page |
| EventIndexer.DefaultIsShownExactlyWhen | src/indexer/indexer.service.ts:319-349 | over every run a loan is shown as defaulted if and only if a default of it was on a page after its creation and no new payment of it has been since |
| EventIndexer.FetchedDefaultTakesEffect | src/indexer/indexer.service.ts:333-349 | a default that was on a page has its turn, and sets the status of a loan that is indexed by then |
| EventIndexer.LostDefaultsAreNotShown | src/indexer/indexer.service.ts:333-349 | a loan none of whose defaults was ever on a page is not shown as defaulted |
| EventIndexer.PassedDefaultsAreNotShown | src/indexer/indexer.service.ts:94-95 | nor is one all of whose defaults the cursor has passed, by any run whose tips, range errors and restarts stay ahead of them |
| EventIndexer.MissingExactlyWhen | src/indexer/indexer.service.ts:85-218 | exactly, over every run from an empty cursor: a new event up to the cursor that leaves a mark (any but a default) is missing if and only if some cycle passed over it and no cycle, before or after, had it on its page |
| EventIndexer.IndexedExactlyWhenFetched | src/indexer/indexer.service.ts:112-218 | over every run from any state a new event that leaves a mark (any but a default) is indexed if and only if some cycle had it on its page |
| EventIndexer.NewEventIsIndexedExactlyWhen | src/indexer/indexer.service.ts:191-218 | helper: a cycle that saves its cursor has an event from the start to the tip, of whatever kind, on its page if and only if it is among the first 100; a new one that leaves a mark is indexed exactly then; the cursor passes it in any case |
| EventIndexer.PassedEventsAreLost | src/indexer/indexer.service.ts:94-95 | an event of whatever kind that the cursor has passed is on no page any more as long as the tip does not fall behind it, no range error points at or before it and no failed cursor read restarts there; one that was not indexed then stays out of the tables |
| EventIndexer.CursorIsMonotoneExactlyWhen | src/indexer/indexer.service.ts:85-185 | over every run, whatever the answers, cursors that cannot be read or saved included, the cursor never decreases if and only if no cycle falls back: by a tip behind the cursor when the start is beyond it, by a range error whose lowest ledger is at or before the cursor, or after a failed cursor read, by a heal that ends before it or a tip and a page that do |
| EventIndexer.OnlyRangeErrorsFallBack | src/indexer/indexer.service.ts:430-455 | when every tip is at least every ledger seen before, only a range error, or a heal after a failed cursor read, moves the cursor back, and a run without both never does |
| EventIndexer.RangeErrorRepeatsDefault | src/indexer/indexer.service.ts:446-453 | a run in which a range error rewinds the cursor and a loan that was repaid in part after its default is shown as defaulted again |
| EventIndexer.CursorFallsExactlyWhen | src/indexer/indexer.service.ts:94-182 | helper: one cycle lowers the cursor if and only if it falls back in that sense; a served cycle ends at the tip or beyond |
| EventIndexer.HealsExactlyWhen | src/indexer/indexer.service.ts:401-428 | where a cycle starts and what an unsaved one leaves of the cursor: healed if and only if more than 100,001 ledgers closed since, then 1,000 below the tip, and an unreadable cursor counts as 0 |
| EventIndexer.CycleFetches | src/indexer/indexer.service.ts:112-180 | one cycle moves its cursor past nothing but what is on its page or passed over |
| EventIndexer.IndexerService.PersistLoanRepaid | src/indexer/indexer.service.ts:273-331 | stores the payment once and recomputes the status from all payments of the loan |
| EventIndexer.IndexerService.PersistEvent | src/indexer/indexer.service.ts:224-390 | each kind of event changes the tables as specified; only an undated loan fails |
| EventIndexer.IndexerService.HealStaleCursor | src/indexer/indexer.service.ts:401-428 | the start ledger and the cursor after the check for staleness, other cursors untouched |
| EventIndexer.IndexerService.IndexContract | src/indexer/indexer.service.ts:85-185 | one cycle on mutable tables and cursors, also when the cursor cannot be read or saved, equals the specified cycle; what it reports as a failure |
| EventIndexer.IndexerService.RunIndexer | src/indexer/indexer.service.ts:41-61 | both contracts in turn, each with its own cursor and whatever happened to the other; an overlapping run does nothing |
| Nonces.EveryRunKeepsInv | src/modules/auth/auth.service.ts:188-239 | in every interleaving of verify requests and cleanups a nonce is claimed at most once and logs in at most once, by the request that claimed it |
| Nonces.LoginsAreInTime | src/modules/auth/auth.service.ts:158-239 | a login happens only with a valid signature, within five minutes of the issue of its nonce, for the wallet it was issued to, on a claimed nonce |
| Nonces.LogsInExactlyWhen | src/modules/auth/auth.service.ts:214-239 | a judgement logs its request in if and only if it holds a claim, the signature is valid and the nonce has not expired |
| Nonces.UnclaimedNonceLogsIn | src/modules/auth/auth.service.ts:188-239 | whatever has happened before, cleanups included, a request that presents an unclaimed nonce for its wallet within its lifetime and with a valid signature logs in |
| Nonces.IssueMakesNonce | src/modules/auth/auth.service.ts:158-186 | helper: a nonce is issued for its wallet, unclaimed and for five minutes |
| Nonces.ClaimedIsBurned | src/modules/auth/auth.service.ts:214-233 | a claimed nonce is never selected or claimed again, whatever the later verdict |
| Nonces.CleanupIsNotNoticed | src/jobs/nonce-cleanup/nonce-cleanup.service.ts:16-21 | a run accepts exactly the logins, in the same order, that it accepts with its cleanups left out |
| Nonces.RowIsGoneExactlyWhen | src/jobs/nonce-cleanup/nonce-cleanup.service.ts:16-21 | over every run an issued nonce has lost its row if and only if a cleanup since its issue came more than an hour after its expiry |
| Nonces.StepMatches | src/jobs/nonce-cleanup/nonce-cleanup.service.ts:16-21 | helper: the simulation: a request differs between the two runs only by "not found" instead of another failure, for a nonce long expired |
| Sessions.AtMostOneSession | src/modules/auth/auth.service.ts:641-677 | in every interleaving a family has at most one session more than there were deletes of it that found no row |
| Sessions.EverTwoExactlyWhen | src/modules/auth/auth.service.ts:675-676 | over every run a family ever has more than one session, there or about to be written, if and only if a delete that finds no row is made while it has one |
| Sessions.FamilyGrowsExactlyWhen | src/modules/auth/auth.service.ts:675 | a step makes an existing family bigger if and only if it deletes a session that is already gone |
| Sessions.OneSessionWhenAtomic | src/modules/auth/auth.service.ts:641-677 | when refreshes do not overlap a family never has two live sessions |
| Sessions.OverlappingRefreshesForkFamily | src/modules/auth/auth.service.ts:675-676 | a concrete interleaving in which one token is refreshed into two live sessions |
| Sessions.RefreshRotates | src/modules/auth/auth.service.ts:675-676 | helper: a refresh with a live token spends it and puts one new token of the same family in its place |
| Sessions.ReuseRevokes | src/modules/auth/auth.service.ts:685-697 | helper: a valid token whose session is gone empties its family and touches no other |
| Sessions.RefreshIsTurnedDown | src/modules/auth/auth.service.ts:643-674 | helper: every other refresh is turned down and changes no session |
| Sessions.StaysEmptyExactlyWhen | src/modules/auth/auth.service.ts:691-697 | from any moment on an emptied family stays empty in every later interleaving if and only if no request of it is in flight: selected and not expired, about to delete, or about to insert |
| Sessions.ReplaysAreSpentTokens | src/modules/auth/auth.service.ts:641-673 | in every interleaving, cleanups included, a replay alarm means that a refresh or revocation removed the token, or that the select came more than an hour after the verification |
| Sessions.SessionExpiredMeansTokenRanOut | src/modules/auth/auth.service.ts:672-674 | in every interleaving "session expired" is answered only when the token, valid when it was verified, has run out by the time of the check |
| Sessions.SessionIsGoneExactlyWhen | src/modules/auth/auth.service.ts:675-697 | over every run the session of an issued token is gone if and only if a refresh deleted it, a revocation of its family met it, or a cleanup came more than an hour after its expiry; it never comes back |
| Sessions.EveryRunOutlives | src/modules/auth/auth.service.ts:623-634 | in every run with a clock that goes forward a session row outlives its token, a token without a row was spent or ran out more than an hour ago, and what a request holds was true when it read it |
| PoolShares.StepNeverLowersPrice | src/blockchain/contracts/liquidity-contract.client.ts:136-162 | no deposit, withdrawal or interest lowers the liquidity per share |
| PoolShares.RunNeverLowersPrice | src/blockchain/contracts/liquidity-contract.client.ts:136-162 | nor does any run in which shares remain |
| PoolShares.WorthNeverFalls | src/blockchain/contracts/liquidity-contract.client.ts:136-140 | what given shares would be paid never falls while others deposit and withdraw |
| PoolShares.PoolIsSolvent | src/blockchain/contracts/liquidity-contract.client.ts:136-140 | the payouts of all holders never exceed the liquidity and leave at most a stroop per holder |
| PoolShares.LastWithdrawalEmptiesPool | src/blockchain/contracts/liquidity-contract.client.ts:136-140 | whoever sells the last shares gets all there is, so an empty pool holds no more than a fee |
| PoolShares.RoundTripGainsExactlyWhen | src/blockchain/contracts/liquidity-contract.client.ts:157-162 | depositing and withdrawing at once returns more than was paid in if and only if there were no shares but some liquidity |
| PoolShares.RoundTripLosesLittle | src/blockchain/contracts/liquidity-contract.client.ts:157-162 | a round trip loses less than one share is worth and a stroop |
| PoolShares.SplittingPaysNoMore | src/blockchain/contracts/liquidity-contract.client.ts:136-140 | selling in two parts pays no more than selling at once |
| PoolShares.SharesAfter | src/blockchain/contracts/liquidity-contract.client.ts:136-162 | helper: the total of shares follows what is minted and sold |
| PoolShares.OfferedExactlyWhen | src/modules/liquidity/liquidity.service.ts:203-261 | an offer is made if and only if the shares are positive and owned and their worth, rounded down, is available; it is for that worth; fee and net add up, the fee is the floor of its share, and neither is negative up to 100 %; each refusal has its own condition |
| ApiKeyLimiter.AtMostMaxInAnyWindow | src/auth/guards/api-key.guard.ts:232-258 | for requests that do not overlap: in any interval shorter than the window at most the maximum of requests of a key is accepted |
| ApiKeyLimiter.RejectedExactlyWhen | src/auth/guards/api-key.guard.ts:236-252 | for every history of requests that do not overlap, a request is rejected if and only if it comes without a pause of a window after a streak of the maximum of accepted ones |
| ApiKeyLimiter.CounterIsStreak | src/auth/guards/api-key.guard.ts:248-252 | for every history of requests that do not overlap, the counter is the number of accepted requests since the last one that followed a pause, and lives for a window after the last one |
| ApiKeyLimiter.StreakIsLongest | src/auth/guards/api-key.guard.ts:249-251 | the streak is the longest run of accepted requests at the end without a pause between them |
| ApiKeyLimiter.RejectionFollowsAcceptance | src/auth/guards/api-key.guard.ts:236-247 | when requests do not overlap, a key is rejected only within one window of its last accepted request: rejections do not prolong the wait |
| ApiKeyLimiter.SteadyClientIsAcceptedExactlyWhen | src/auth/guards/api-key.guard.ts:248-252 | an instance: a client that keeps one pace, its requests not overlapping, gets one more than the maximum accepted if and only if it pauses for a window each time |
| ApiKeyLimiter.ApiKeyGuard.EnforceRateLimit | src/auth/guards/api-key.guard.ts:232-258 | one undisturbed request: the counter of the key decides and changes as specified, other keys untouched |
| ApiKeyLimiter.ApiKeyGuard.EnforceIpRateLimit | src/auth/guards/api-key.guard.ts:260-282 | the same per IP with its own maximum; an unknown IP is let through |
| OverlappingRequests.AtMostPathsInAnyWindow | src/auth/guards/api-key.guard.ts:235-252 | in every interleaving of reads and writes of a counter with at most n requests between their read and their write: in any interval shorter than the window at most C(n + max, max) - 1 requests are let through |
| OverlappingRequests.PathsAreReached | src/auth/guards/api-key.guard.ts:235-252 | that bound is the best one: for every n and max some interleaving lets exactly so many through at a single moment |
| OverlappingRequests.WriteRaisesCeiling | src/auth/guards/api-key.guard.ts:248-252 | the invariant behind it: however stale the value it goes back to, a write raises the ceiling of what can have passed by at least one |
| OverlappingRequests.EveryRunIsCovered | src/auth/guards/api-key.guard.ts:235-252 | over every prefix of every run the requests that passed in the interval stay below that ceiling, and the entry outlives the interval |
| OverlappingRequests.SmallGrids | src/auth/guards/api-key.guard.ts:235-252 | helper: the bound is the maximum for one request at a time and ((max + 1)(max + 2) - 2) / 2 for two |
| OverlappingRequests.UndisturbedRequest | src/auth/guards/api-key.guard.ts:232-258 | helper: a read and a write with nothing in between are one step of `ApiKeyLimiter` |
| WalletThrottler.AtMostNineInAnyInterval | src/modules/auth/auth-throttler.guard.ts:49-63 | in any interval as long as the window at most nine requests of a tracker are accepted, one fewer than two windows of five |
| WalletThrottler.FreshWindowTakesFive | src/modules/auth/auth-throttler.guard.ts:49-63 | the first five requests of a window pass, and none after them |
| WalletThrottler.BurstReachesNine | src/modules/auth/auth-throttler.guard.ts:49-63 | nine are reached by a concrete burst |
| WalletThrottler.OthersDoNotMatter | src/modules/auth/auth-throttler.guard.ts:51-63 | the state of a tracker depends on its own requests only |
| WalletThrottler.TrackerExactlyWhen | src/modules/auth/auth-throttler.guard.ts:32-47 | helper: the tracker is the wallet of the body, that of the user when the body has none, the address when there is neither or the wallet of the body is empty |
| WalletThrottler.WalletsHaveTheirOwn | src/modules/auth/auth-throttler.guard.ts:32-47 | helper: two wallets in the body share a tracker if and only if they are the same |
| WalletThrottler.AuthWalletThrottlerGuard.CanActivate | src/modules/auth/auth-throttler.guard.ts:32-63 | the entry of the tracker taken from the request decides and changes as specified, other entries untouched |

## Left out

- TransactionRuns.EveryRunKeepsInv: "once" is per row lifetime, because the cleanup deletes old final rows and a hash may then be inserted again.
- EventIndexer.MissingExactlyWhen: about events that leave a mark, like `IndexedExactlyWhenFetched`; defaults leave none, and `DefaultIsShownExactlyWhen` is exact for them.
- EventIndexer.PassedEventsAreLost: one direction; an event behind the cursor can be on a page again when the tip, a range error or a restart falls back to it.
- ApiKeyLimiter.AtMostMaxInAnyWindow: for requests that do not overlap, as all of `ApiKeyLimiter`; `OverlappingRequests.AtMostPathsInAnyWindow` and `PathsAreReached` are about all of them.
- BalanceReconciliation.PassKeepsOneRowPerWallet: for a pass without an overlapping one; `LiquidityJobs.DuplicatedExactlyWhen` is exact.
- StateReconciler.StateReconciliationProcessor.ReconcileLiquidity: supposes one row per wallet, as the other methods of the job do through `Valid`; `LiquidityJobs` says when that is lost.
- LoanStatuses.CompletedExactlyWhen: about a row under its final id; a row under a provisional id can be claimed, which writes the status as well.
- Sessions.OneSessionWhenAtomic: holds for refreshes that do not overlap; the steps of a refresh are not one transaction in the code.
- EventIndexer.EverythingUpToTheCursorIsIndexed: the ways to pass over an event are sufficient reasons, not each necessary; `MissingExactlyWhen` is exact for events that leave a mark and cannot be taken for one another.
- LoanReconciliation.StatusesAgreeAfterPass: covers two cases in which no row is overtaken; `StatusesAgreeExactlyWhen` is exact.
- LoanMoney.EveryQuoteClears: supposes applied payments and payment rows that no code stores; `LoanRepayments.QuotedLoanClearsExactlyWhen` is about the code as it stands.
- LoanMoney.QuoteClearsExactlyWhen: supposes applied payments, as do the other lemmas of `LoanMoney` about following offers; `LoanRepayments.QuotedLoanClearsExactlyWhen` is exact.
- TransactionReconciliation.PassBringsInStep: supposes accepted backfills, as do `PassAddsRow`, `PassCoversChain`, `PassRepairsRow` and `SecondPassFindsNoDrift`; `CompletesExactlyWhen` and `AbortLeaves` say what happens otherwise.
- LoanStatuses.PassWritesIndexStatus: about rows under a final id; a row under a provisional id can be claimed, and then has the status of some indexed loan.
- Sessions.ReplaysAreSpentTokens: one direction; the hour is the grace time of the cleanup, and whether a slower select raises an alarm depends on a cleanup in between.
- TransactionRuns.NeverComesIntoReach: one direction of `FollowedUpExactlyWhen`.
- AuthoritativeReader.TakenIsLatestExactlyWhen: rows of one wallet with equal ledgers come in an order the query does not fix.
- Database errors inside a pass, a cycle or a follow-up: passes are free of faults, except where a step names the failure (a failed insert, a refused backfill, an undated loan, a cursor that cannot be read or saved, an unreachable network).
- The timestamps a repair writes (`updated_at`, `completed_at`, `last_synced_at`) and the `details` of drift items.
- Lower-casing beyond ASCII: transaction hashes are hexadecimal, and the event ids the indexer stores in their place are digits and dashes.
- Loan ids in contract calls that are not strings, which the database client would turn into text.
- Changes of a hash between upper and lower case: in the interleaved protocol a row keeps the hash it was inserted with, in lower case.
- The `hash` column that submission and lookup fall back to when `transaction_hash` does not exist; reconciliation does read both columns.
- The cache of finalised statuses in `getTransactionStatus`: a poller here always asks Horizon.
- The cleanup at the end of a checker cycle is a step of `TransactionProtocol`, not of `StatusChecker`.
- `finalizeTransaction` asks for a single row, so an update that matches none raises an error that the cycle logs; as in the model, neither follow-up nor notification happens then.
- Texts of notifications and logs, metrics, audit entries, and `lastFailure` of an endpoint.
- A visit in a Horizon script that the call never reaches says how the endpoint would have reacted.
- `isEndpointError`: the classification of an error is an outcome tag.
- Calendar dates of schedules and the calculation of interest rates and credit limits.
- Repayment amounts with more than seven decimals; amounts are whole stroops.
- IEEE-754 rounding: every formula has its exact rational meaning.
- Signatures, SHA-256, JWT encoding, XDR and ScVal decoding: nonces and tokens are fresh names, a signature is valid or not.
- Refresh tokens carry no `jti` (section 4.1.7 of RFC 7519); two tokens of one family signed in the same second would be equal, and the model assumes they are not.
- Refresh tokens without a family, minted before families existed.
- Token pages beyond the first and the parser's four event layouts: events arrive parsed, or unrecognised.
- The contract's own `calculate_deposit` and `calculate_withdrawal`: the formulas are the backend's fallback, and negative pool figures are not modelled.
- The record and negative caches of the API key guard, key permissions, and failures of the cache store, which let requests through.
- The queue-based copy of the status checker, controllers, DTO decorators and the CRUD modules, which would only add easy members.
- Object identity: rows are values, so aliasing between a snapshot and the table does not arise, as with the JSON rows the database client returns.
