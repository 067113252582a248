# A verified model of agent-memory-sdk

The SDK keeps an agent's memory as governed rows in Db2: every row has a version, may be
tombstoned, superseded by another row, or stamped by a background worker, and is changed only by
guarded SQL updates sent over a bounded connection pool.  This project models those rows, the
statements that change them, and the programs built on them, and proves what every run keeps.

`dafny verify dfyconfig.toml` checks the whole project (Dafny 4.11).

## How it is organised

A table is a map from primary key to row, and each SQL statement is one function on tables
(`Rows`); `Repositories` has the class whose methods change a table in place and are proved
against those functions.  Ordered reads leave ties to the database, so the order a query answers
with is a parameter constrained by `IsOrdering`.  Clocks, fresh ids, content hashes, callbacks and
failures are parameters too: every theorem holds for all of them.

| area | modules |
|---|---|
| rows, statements, scope isolation | `Rows`, `StatementLaws`, `Repositories`, `Sequences`, `Text` |
| supersession as a write-once forest | `Links`, `Supersession`, `Reconcile`, `BenchmarkReconciler`, `FactRuns`, `ForestRuns` |
| optimistic versions and ingest | `Versions`, `Ingest` |
| consolidation workers | `Claims`, `ClaimRuns` (all interleavings), `ConsolidationWorker` (one worker's loops) |
| connection pool | `ConnectionPool` (one caller), `PoolRuns` (all interleavings) |
| crash and retry | `BulkInsert`, `Seeder`, `Migrations`, `Statements` |
| paging and portability | `Paging`, `PageLoops`, `Portability`, `RoundTrips`, `RestoredOrder` |
| reads and sessions | `Transcript`, `Backfill`, `Session` |
| benchmark arithmetic | `RankMetrics`, `Scorecard` |

Protocols are state machines: a run is a list of events, an event that is not enabled changes
nothing, and an invariant proved for one event holds after every list.

## Where the code and its promises part

Most of these are lemmas or clauses of a contract, with the exact condition under which the promise holds.

- A supersession keeps the links a forest exactly when the chain of its winner does not end at its loser,
  so a run keeps the forest throughout exactly when no UPDATE of its passes hits such a loser, however
  the passes overlap.  `reconcile` does not check it: "A beats B" then "B beats A" removes both facts, and
  two overlapping passes with acyclic lists can close a cycle.
- `update` does not set the origin column, so the provenance stamp of a resolver merge is lost; it
  also accepts superseded rows.
- An import under the same agent keeps ids, so a purged or erased id can come back.  Neither a version
  nor a claim tells the new row from the old: a stale copy may overwrite it, and the id may be fed to a
  consolidator again, both exactly because of the second insert.
- `remember` consolidates inline without stamping the row, so a worker may consolidate it a second time.
- A forgotten row may still reach a consolidator, exactly while a running worker has it, and a worker
  that stops between claim and consolidator strands its row.
- `close` leaves open exactly the handles that were out when it last saw the queue empty.
- If the check-in rollback itself fails (the failure is suppressed) rows of a failed batch become
  durable with the next borrower's commit.  `create_many` does not end for `commit_every <= 0`.
- The checkpoint file is rewritten in place: dying inside the write stops every later run, and nothing else
  that a run leaves behind does.
- A migration interrupted halfway resumes exactly when the statements it already ran are repeatable.
  In 0002 to 0006 and 0008 none is, so a failure after their first statement is permanent; the one
  statement of 0007 changes a column type and can be repeated.
- `created_at DESC` is not a unique key: pages hold every row once, whatever the database answers,
  exactly when no page boundary splits a group of equal timestamps.  The outer SELECT of a later page has no
  ORDER BY, so such a page is the right rows in an order the SQL does not fix.
- The import documentation names three deduplicating tables; in the code every repository but
  working memory deduplicates, episodic memory included.
- An export under a scope with null fields may hold rows that set them, such as every thread of an agent;
  an import refuses it at the first such row, after importing those before.
- An export is newest first and an import re-stamps rows in that order, so a restored scope lists
  backwards.
- `list_all` returns at most 1000 rows, whatever was asked: the transcript's limit of 10000, the
  session's clear and a backfill minimum above 1000 meet that cap.
- `get_items(limit=0)` returns everything and a negative limit drops the oldest messages.
- nDCG exceeds 1 for repeated ids; the weight loader accepts extra and negative weights, with
  which the composite can leave its range.

## Model

| member | source | states |
|---|---|---|
| `Rows.NoStatementCrossesItsScope` | src/agent_memory_sdk/repositories/base.py:193-215 | FORGET, SUPERSEDE, UPDATE, CLAIM, PURGE and ERASE run under a scope leave every row of another agent, and of another tenant, user or thread than one the scope names, exactly as it was, and make none |
| `Rows.CreateStaysInScope` | src/agent_memory_sdk/repositories/base.py:859-1037 | the same for `create`, with or without dedup |
| `Rows.EveryStatementKeepsTheTableConsistent` | src/agent_memory_sdk/repositories/base.py:859-1532 | every statement keeps: key equals id, link and supersession stamp are null together, versions start at 1 |
| `StatementLaws.ReadsReturnOwnRowsOnly` | src/agent_memory_sdk/repositories/base.py:193-215 | a row is returned by id, in a listing or to the dedup SELECT iff it agrees with the agent and with every field the scope names (a null field excludes nothing) and is not tombstoned, nor superseded, nor expired, nor of another hash, as each read asks |
| `StatementLaws.StatementsHitOwnRowsOnly` | src/agent_memory_sdk/repositories/base.py:1197-1532 | each statement hits a row iff it so agrees with the scope and meets the statement's own guard |
| `StatementLaws.EachStatementWritesItsColumns` | src/agent_memory_sdk/repositories/base.py:1197-1532 | a miss changes nothing and a hit one row: which columns each statement sets, and that no statement ever touches id, scope, origin, creation or expiry |
| `StatementLaws.CreateAddsTheRecordUnlessItsHashIsLive` | src/agent_memory_sdk/repositories/base.py:909-1037 | `create` adds one row iff the key is free and, with dedup, no live row of the scope has its hash; the row keeps the record's body, origin, expiry and tombstone, is stamped with scope, hash and time, and starts at version 1 with nothing superseded or consolidated |
| `Repositories.Repository.Create` | src/agent_memory_sdk/repositories/base.py:909-1037 | the new table is the specified one for every record and scope; raises exactly on a missing agent or a key collision that dedup did not absorb; a dedup hit returns one of the rows found, otherwise the one new row, given column by column |
| `Repositories.Repository.Forget` | src/agent_memory_sdk/repositories/base.py:1197-1237 | tombstones exactly the in-scope, not yet tombstoned row, bumping its version; the boolean says whether it did |
| `Repositories.Repository.Supersede` | src/agent_memory_sdk/repositories/facts.py:123-188 | writes link, stamp, reason cut to 255 characters and version exactly when the loser is in scope and live; otherwise changes nothing and says so |
| `Repositories.Repository.Update` | src/agent_memory_sdk/repositories/base.py:1239-1358 | writes exactly when the stored version is the caller's and the row is not tombstoned; otherwise a stale-write error and an unchanged table |
| `Repositories.Repository.ClaimConsolidated` | src/agent_memory_sdk/repositories/base.py:1461-1532 | stamps exactly an in-scope row whose stamp is null |
| `Repositories.Repository.ListAll` | src/agent_memory_sdk/repositories/base.py:1071-1180 | returns the rows of one page of the database's ordering of the live, unexpired, in-scope rows, never more than 1000; with an offset, in whatever order the page comes; every row returned agrees with each field the scope names |
| `Links.AcyclicIffEveryChainEnds` | src/agent_memory_sdk/repositories/facts.py:164-188 | the two readings of "the links form a forest" agree: no closed path iff every chain ends within as many steps as there are links |
| `Links.LinkKeepsForestIff` | src/agent_memory_sdk/repositories/facts.py:164-188 | a new link keeps a forest a forest iff the chain from its target does not end at its source |
| `Links.GrownForestIsAcyclic` | src/agent_memory_sdk/store.py:1379-1438 | links added by an acyclic decision list, all pointing at candidates that carry no link, keep a forest a forest |
| `Links.RankedBatchAcyclic` | benchmarks/retrieval_quality/reconciler.py:192-224 | a decision list whose winners rank before their losers is acyclic |
| `Links.ApartBatchesAcyclic` | src/agent_memory_sdk/store.py:1369-1438 | acyclic lists that name no row in common are acyclic together |
| `Supersession.SupersedeKeepsForestIff` | src/agent_memory_sdk/repositories/facts.py:164-188 | the guard a caller can check before the UPDATE: one that hits keeps the forest iff the winner's chain in the table does not end at the loser |
| `Supersession.PassEffect` | src/agent_memory_sdk/store.py:1379-1438 | the whole effect of a pass read off the table before it: a row is superseded by the first guarded attempt that names it if it was live and in scope, and every other row is untouched |
| `Supersession.AppliedAreTheDeciding` | src/agent_memory_sdk/store.py:1379-1438 | a decision is reported as applied iff some attempt with it decided its loser |
| `Supersession.AppliedInOrder` | src/agent_memory_sdk/store.py:1379-1438 | the applied decisions are those of the deciding attempts in the order of the list, each once |
| `Supersession.KeepsScopeAndNeverRevives` | src/agent_memory_sdk/repositories/facts.py:164-176 | a pass never rewrites, revives, tombstones or re-scopes a row that was already dead |
| `Supersession.PassRemovesExactlyTheApplied` | src/agent_memory_sdk/store.py:1379-1438 | the live set loses exactly the applied losers, and its size drops by exactly the number of applied decisions |
| `Supersession.LinksAfterPass` | src/agent_memory_sdk/store.py:1379-1438 | links before stay, and there is exactly one new link for each applied decision, whose loser had none |
| `Supersession.PassKeepsForestIffDecidedAcyclic` | src/agent_memory_sdk/store.py:1369-1438 | over live candidates a pass keeps the forest iff there is no cycle among the decisions that are the first to name a live in-scope loser, which the table before the pass tells |
| `Supersession.PassKeepsForestIffAppliedAcyclic` | src/agent_memory_sdk/store.py:1369-1438 | the same by the decisions the pass reports as applied |
| `Supersession.AcyclicPassKeepsForestAndASurvivor` | src/agent_memory_sdk/store.py:1369-1438 | an acyclic decision list keeps the forest whatever updates fail, and some candidate is still live afterwards |
| `Supersession.TwoWayContradictionRemovesBoth` | src/agent_memory_sdk/store.py:1379-1438 | "A beats B" then "B beats A" passes both guards, removes both facts and closes a cycle |
| `Supersession.OverlappingPassesCanCloseACycle` | src/agent_memory_sdk/store.py:1369-1438 | two passes with acyclic lists that both listed before either wrote can close a cycle: sequential passes are a needed premise |
| `Reconcile.ListedAreLive` | src/agent_memory_sdk/store.py:1369-1378 | every candidate listed is in scope, live and listed once |
| `Reconcile.ReconcileFacts` | src/agent_memory_sdk/store.py:1320-1438 | for every reconciler and every pattern of failing updates: a decision takes effect iff it names a listed winner other than its loser, its UPDATE does not raise, its loser was live in scope and no earlier such decision named it; each writes its winner, time and reason on its loser, no other row changes, and they are returned in list order; the live count drops by their number; the forest is kept iff they are acyclic, and iff the deciding ones, read off the table before, are; the two early errors and the raising reconciler change nothing |
| `BenchmarkReconciler.Call` | benchmarks/retrieval_quality/reconciler.py:173-224 | the nested loops return exactly the corrections: a decision is in the result iff some candidate is a correction and the loser is the nearest older stale candidate |
| `BenchmarkReconciler.DecisionsAreTheCorrections` | benchmarks/retrieval_quality/reconciler.py:192-224 | both directions of that characterisation, and at most one decision per candidate |
| `BenchmarkReconciler.DecisionsInOrder` | benchmarks/retrieval_quality/reconciler.py:192-224 | the decisions come in candidate order, one for each correction with an older row to beat |
| `BenchmarkReconciler.CorrectionsBeatOldValues` | benchmarks/retrieval_quality/reconciler.py:123-224 | a beaten row names the person and the old value and is not itself a correction; every correction with such a row behind it beats that one or a nearer one |
| `BenchmarkReconciler.WinnersPrecedeLosers` | benchmarks/retrieval_quality/reconciler.py:192-224 | for distinct ids every winner stands strictly before its loser, the list is acyclic and the newest candidate never loses |
| `BenchmarkReconciler.BenchmarkPassKeepsForestAndNewest` | benchmarks/retrieval_quality/reconciler.py:173-224 | a pass driven by it keeps the forest and leaves the newest listed row live, whatever updates fail |
| `ForestRuns.ForestIffNoUpdateClosesACycle` | src/agent_memory_sdk/store.py:1369-1438 | for every run of creates (deduplicated or bulk), forgets, updates, purges, erasures and overlapping reconcile passes, interleaved statement by statement and with any decision lists: the links are a forest at every moment iff no UPDATE hits a loser at which its winner's chain ends |
| `ForestRuns.AcyclicPeriodsNeverClose` | src/agent_memory_sdk/store.py:1369-1438 | if the lists of passes that overlap are acyclic put together, no UPDATE does |
| `FactRuns.UndisturbedPassIsApplyPass` | src/agent_memory_sdk/store.py:1369-1438 | in those runs a pass that nothing disturbs makes of the table exactly what `reconcile` is specified to make of it |
| `FactRuns.LinksAreAlwaysAForest` | src/agent_memory_sdk/store.py:1369-1438 | under that premise the links are a forest and every chain ends within as many steps as there are links |
| `FactRuns.SequentialPassesNeedOwnBatchesOnly` | src/agent_memory_sdk/store.py:1369-1438 | for passes one after the other it is enough that each list is acyclic |
| `FactRuns.LinkNeverRewritten` | src/agent_memory_sdk/repositories/facts.py:164-176 | no event changes the link of a row that has one and survives |
| `FactRuns.LinksAreWrittenOnce` | src/agent_memory_sdk/repositories/facts.py:164-176 | without hard deletes a link, once written, keeps its winner for the rest of every run, whatever the decisions |
| `FactRuns.WinnersStayPresent` | src/agent_memory_sdk/store.py:1379-1438 | without hard deletes no link dangles |
| `FactRuns.EveryChainEndsAtAnUnsupersededRow` | src/agent_memory_sdk/store.py:1369-1438 | over every such run the chain of every row ends at a stored row that is not superseded |
| `Versions.VersionCountsWrites` | src/agent_memory_sdk/repositories/base.py:1239-1358 | over every interleaving of clients, resolver merges, supersessions, tombstones, claims, purges and erasures, a row's version is one more than its successful writes |
| `Versions.NoLostUpdateWithoutReinsert` | src/agent_memory_sdk/exceptions.py:10-35 | if no id is inserted twice, every write-back that succeeds comes from the row as the preceding successful write left it |
| `Versions.NoLostUpdate` | src/agent_memory_sdk/exceptions.py:10-35 | with second inserts, the same for copies of the row now stored |
| `Versions.SupersessionDefeatsEarlierCopies` | src/agent_memory_sdk/repositories/facts.py:164-176 | a successful supersession makes every write-back from an earlier copy a no-op |
| `Versions.OnlyOneOfTwoWriters` | src/agent_memory_sdk/exceptions.py:10-35 | of two clients that read one version, at most one writes it back |
| `Versions.ReinsertedIdCanBeOverwrittenUnseen` | src/agent_memory_sdk/store.py:1239-1257 | the premise is always needed: from every reachable state, whatever copy a client holds, one more insert of its id lets that copy overwrite a row the client never saw |
| `Versions.SupersededRowStaysWritable` | src/agent_memory_sdk/repositories/base.py:1039-1069 | `get_by_id` shows superseded rows and `update` accepts them |
| `Ingest.ResolveAndAct` | src/agent_memory_sdk/store.py:548-636 | action by action, for every scope and write of others between a merge's read and its update: which of create, one guarded update of the target's row, one tombstone or nothing happens, what is returned or raised, and when the caller is told a row was added |
| `Ingest.UndisturbedMergeLosesItsOrigin` | src/agent_memory_sdk/store.py:609-617 | a merge with no write between its read and its update lands and rewrites only body, hash, time and version: the provenance stamp set on the record never reaches the table |
| `Ingest.DisturbedMergeIsStale` | src/agent_memory_sdk/store.py:601-617 | a write or tombstone in between makes the merge a stale write that changes nothing |
| `ClaimRuns.FedAtMostOncePerRow` | scripts/consolidate_pending.py:168-195 | over every interleaving of any number of workers with overlapping batches, and with ids removed and restored, no stored row is fed to the workers' consolidators twice, and what a consolidator is shown is a copy of that row or of an earlier row of the same id |
| `ClaimRuns.FedAtMostOncePerInsert` | scripts/consolidate_pending.py:168-195 | an id is fed at most as often as it was inserted: without a second insert, at most once |
| `ClaimRuns.RestoredIdCanBeFedAgain` | src/agent_memory_sdk/store.py:1239-1257 | the condition is always needed: from every reachable state, one more insert of the id (an import under the same agent keeps ids, and the stamp starts null) lets it be fed again |
| `ClaimRuns.ShownIsFedUnlessReinserted` | scripts/consolidate_pending.py:168-195 | without a second insert of its id, each consolidator is shown exactly the row claimed for it |
| `ClaimRuns.StaleCopyIsShown` | scripts/consolidate_pending.py:180-185 | with one, a worker that fetched the removed row claims the new row and shows the consolidator the old copy |
| `ClaimRuns.StaleCopyCanBeShown` | scripts/consolidate_pending.py:168-195 | and from every reachable state a continuation (insert, fetch, erase, insert, claim, consolidate) does so |
| `ClaimRuns.InlineRowCanBeFedToo` | src/agent_memory_sdk/store.py:541-546 | `remember` consolidates inline without stamping: in every reachable state such a row, still stored, live and unclaimed, can be fed to a worker's consolidator as well |
| `ClaimRuns.PendingRowCanBeConsolidatedTwice` | src/agent_memory_sdk/store.py:684-730 | in every reachable state any live pending row can be consolidated inline, which leaves the table alone, and then by a worker; rows that are not live are never consolidated inline |
| `ClaimRuns.ConsolidatedOnceUnlessInline` | src/agent_memory_sdk/store.py:541-546 | counting both, a row is consolidated at most once iff `remember` did not consolidate it, or did once and no worker was fed it |
| `ClaimRuns.StampIsWrittenOnce` | src/agent_memory_sdk/repositories/base.py:1461-1532 | no event changes the claim stamp of a row that has one |
| `ClaimRuns.EveryFetchedRowFedExactlyOnce` | scripts/consolidate_pending.py:301-330 | when all workers finished and none stopped midway, every row any worker fetched was fed exactly once, or was removed before anyone claimed it |
| `ClaimRuns.FedIffClaimedAndNotStranded` | scripts/consolidate_pending.py:168-195 | when every worker has finished or stopped, a row was fed iff it is claimed and no stopped worker holds it |
| `ClaimRuns.StrandedRowIsNeverFed` | scripts/consolidate_pending.py:168-195 | a row whose worker stopped between claim and consolidator is never fed, whatever follows |
| `ClaimRuns.StoppingWithARowStrandsIt` | scripts/consolidate_pending.py:168-195 | a worker that has claimed a row can stop there at any moment, and then no continuation feeds it |
| `ClaimRuns.WorkerWorksItsListDown` | scripts/consolidate_pending.py:301-330 | from every state a running worker, left to itself, works its list down, and may then fetch again or finish |
| `ClaimRuns.ForgottenRowCanBeFedIff` | scripts/consolidate_pending.py:143-195 | in every reachable state, a tombstoned row not yet fed can still be fed by some continuation iff a running worker holds it, or has its id queued under a scope that admits it while it is unclaimed |
| `ClaimRuns.ForgottenBeforeFetchIsNeverFed` | scripts/consolidate_pending.py:143-185 | so a row forgotten while no worker has its id on a list is never fed |
| `Claims.NextKeepsInv` | scripts/consolidate_pending.py:143-195 | every event keeps the protocol invariant: each claimed row is fed once or held by exactly one worker, each fetched row is claimed, queued or removed |
| `ConsolidationWorker.ProcessRecord` | scripts/consolidate_pending.py:168-195 | claims first; a lost claim writes nothing; a won claim stores the derived records in order; a raising consolidator or create leaves the row claimed and what was stored before it |
| `ConsolidationWorker.StoreIsAPrefix` | scripts/consolidate_pending.py:185-194 | what was stored is the storable output, or exactly the part of it before the first create that raises |
| `ConsolidationWorker.StorableIsTheKnownTypes` | scripts/consolidate_pending.py:185-194 | the creates of one output are its records of the three known types, unchanged and in order |
| `ConsolidationWorker.ProcessBatch` | scripts/consolidate_pending.py:301-330 | the table, count and writes of the loop are those of draining the batch in order, up to the record whose consolidator or create raised |
| `ConsolidationWorker.WritesAppend` | scripts/consolidate_pending.py:301-330 | the creates of a batch are those of its records one after the other |
| `ConsolidationWorker.UnclaimedBatchIsFedWhole` | scripts/consolidate_pending.py:301-330 | a batch of distinct unclaimed in-scope rows is fed whole and in order |
| `ConsolidationWorker.UnclaimedBatchIsStamped` | scripts/consolidate_pending.py:301-330 | and each of its rows is stamped with the time of its turn and not otherwise changed |
| `ConsolidationWorker.DrainStamps` | scripts/consolidate_pending.py:168-195 | draining stamps every in-scope row of the batch and takes no stamp or row away |
| `ConsolidationWorker.SecondDrainFeedsNothing` | scripts/consolidate_pending.py:143-195 | a worker that drains the same rows second feeds nothing and changes nothing |
| `ConnectionPool.Pool.constructor` | src/agent_memory_sdk/db/connection.py:182-214 | opens min(requested, 20) handles, all queued |
| `ConnectionPool.Pool.Checkout` | src/agent_memory_sdk/db/connection.py:220-253 | hands out the oldest queued handle iff the pool is open and one is queued; otherwise the two errors with nothing changed |
| `ConnectionPool.Pool.Checkin` | src/agent_memory_sdk/db/connection.py:243-253 | the queue always has room, so a returned handle is always queued, also after `close` |
| `ConnectionPool.Pool.Close` | src/agent_memory_sdk/db/connection.py:255-263 | closes exactly the queued handles; all handles are closed iff none was lent |
| `PoolRuns.HandlesAreConserved` | src/agent_memory_sdk/db/connection.py:203-263 | over every interleaving of checkout, timeout, checkin and concurrent closes: each handle in exactly one place, no handle with two holders or held after closing, none dropped, at most min(requested, 20) out |
| `PoolRuns.FirstInFirstOut` | src/agent_memory_sdk/db/connection.py:203-263 | over every interleaving of calls, timeouts, check-ins and closers, handles leave the queue in the order in which they were opened and then returned |
| `PoolRuns.CallIsServedIffOpenAndIdle` | src/agent_memory_sdk/db/connection.py:221-253 | a new call gets a handle iff the pool is open and one is idle, namely the one idle longest, and puts it behind the others; a call that times out leaves no trace |
| `PoolRuns.CloserShutsWhatIsIdle` | src/agent_memory_sdk/db/connection.py:255-263 | a closer left to itself closes the pool and exactly the handles it finds idle |
| `PoolRuns.ReturnFindsRoom` | src/agent_memory_sdk/db/connection.py:243-253 | in every reachable state the non-blocking put at checkin finds room |
| `PoolRuns.CloseClosesAllIffNoneWasOut` | src/agent_memory_sdk/db/connection.py:255-263 | handles left open after everything ended are precisely those held when the last closer saw an empty queue; so everything is closed iff none was out then |
| `BulkInsert.Connection.CreateMany` | src/agent_memory_sdk/repositories/facts.py:222-315 | success makes exactly the records durable, in order, and returns their number, and none of them lacked an agent or failed; a failure leaves exactly the whole batches before the first one that holds a record without an agent, a failing insert or a failing commit |
| `BulkInsert.StampAll` | src/agent_memory_sdk/repositories/facts.py:222-315 | the row inserted for each record, column by column: the caller's id unless it is empty, the record's content, origin, expiry and tombstone, the item's scope, version 1 and the time of the call |
| `BulkInsert.LoopEndsIffPositiveStep` | src/agent_memory_sdk/repositories/facts.py:225-312 | the loop ends iff `commit_every` is at least 1 or there is nothing to insert |
| `BulkInsert.FailThenCommit` | src/agent_memory_sdk/db/connection.py:243-253 | after a failed call and a later commit on the same handle, rows of the failed batch become durable iff the check-in rollback itself failed and the batch had begun |
| `Seeder.FlushIsAllOrNothing` | benchmarks/seed_corpus.py:282-305 | the bulk insert a flush calls, on at most one batch: it makes the whole batch durable, or raises and changes nothing durable; it raises iff that batch fails |
| `Seeder.Corpus.Flush` | benchmarks/seed_corpus.py:247-315 | what each way of dying around a commit and a checkpoint write leaves durable and recorded |
| `Seeder.Corpus.Seed` | benchmarks/seed_corpus.py:199-343 | a run that nothing interrupts finishes iff it does not find a torn checkpoint, which only dying inside a checkpoint write leaves and which stops a run before it writes; an interrupted run leaves at most one unrecorded batch and a finishing one none; a finished corpus is not written again |
| `Seeder.Corpus.SeedUntilFinished` | benchmarks/seed_corpus.py:199-343 | over every sequence of runs with an undisturbed one among them, one finishes iff the checkpoint is not torn; the checkpoint never exceeds the durable rows, and after a finishing run every index is durable once plus once for each unrecorded batch that held it |
| `Seeder.CoveredIffInSomeGap` | benchmarks/seed_corpus.py:247-315 | an index is durable more than once iff it lies in a batch that was committed but not recorded |
| `Seeder.GapSizeIsNatural` | benchmarks/seed_corpus.py:247-315 | the duplicates number at most one batch for each interruption |
| `Migrations.ExecutedOnceAndAgain` | src/agent_memory_sdk/db/migrate.py:481-502 | when a statement executes; it adds its object or sets its type and touches no other, IF NOT EXISTS leaves an object that is there alone, and right after it ran it can run again iff it is repeatable, changing nothing more |
| `Migrations.RetryStep` | src/agent_memory_sdk/db/migrate.py:481-502 | on what interrupted passes leave, a statement that took effect before executes again iff it is repeatable (IF NOT EXISTS, or a column type change) and the first that did not always executes; either way the pass stays on the course of an undisturbed run |
| `Migrations.PendingIsTheRest` | src/agent_memory_sdk/db/migrate.py:468-479 | with the versions of a prefix recorded, the pending files are the rest in order |
| `Migrations.Migrator.ApplyFile` | src/agent_memory_sdk/db/migrate.py:481-502 | a version is recorded only after all its statements took effect; a failure keeps what ran and records nothing |
| `Migrations.Migrator.Run` | src/agent_memory_sdk/db/migrate.py:285-322 | after any number of failing runs the recorded versions are a prefix; a finishing run has the schema of one clean run and the next applies nothing; a run without outside failure finishes iff every statement the interrupted file already executed is repeatable |
| `PageLoops.ListAllForScope` | src/agent_memory_sdk/repositories/chunks.py:373-405 | the loop ends, collects as many rows as match, and asks one query more when the row count is a multiple of the page size |
| `PageLoops.ExportPages` | src/agent_memory_sdk/store.py:1034-1052 | the same for the export loop with its extra empty-page exit |
| `Paging.RanksAgree` | src/agent_memory_sdk/repositories/chunks.py:317-345 | two answers to one ordered query agree on the sort key at every position |
| `PageLoops.PagesConcatenate` | src/agent_memory_sdk/store.py:1034-1052 | if no page boundary splits a group of equal keys, the pages together hold every row once, and no row ranks below a row of a later page, however each query broke its ties and shuffled its page; if the pages come in order they are one full sorted answer |
| `Paging.UniqueKeysNeverTie` | src/agent_memory_sdk/repositories/chunks.py:317-345 | unique sort keys meet that condition for every page size |
| `PageLoops.SplitTieLosesARow` | src/agent_memory_sdk/repositories/base.py:1142-1180 | conversely one boundary inside a tie suffices, even with every page in order: the database may answer so that a row comes twice and another never |
| `Portability.MemoryStore.ImportScope` | src/agent_memory_sdk/store.py:1153-1259 | for every stream the tables, the counts and the error are those of importing record by record up to the first failure; earlier records stay |
| `Portability.MemoryStore.ImportRecord` | src/agent_memory_sdk/store.py:1170-1257 | the first check that fails decides the error: missing type, differing tenant, user or thread, another source agent, chunk record, unknown type, missing agent, key collision; only a record that passes all is created |
| `Portability.ImportOnlyAdds` | src/agent_memory_sdk/store.py:1153-1259 | whatever the stream, no row that was there is changed or lost |
| `Portability.CleanImportSucceeds` | src/agent_memory_sdk/store.py:1153-1259 | a consistent stream of live rows into an empty store never fails and stores exactly the first record of every dedup key (every record of working memory), under its own id iff the agent is unchanged |
| `Portability.EveryRecordIsCounted` | src/agent_memory_sdk/store.py:1153-1259 | the counts are the records of each type, absorbed by dedup or not |
| `Portability.ExportScope` | src/agent_memory_sdk/store.py:1034-1052 | the stream is the five tables in order; without split ties it is each table's live rows, expired ones included, each once and newest first from page to page; newest first throughout if the pages come in order |
| `RoundTrips.ImportableIffAllFit` | src/agent_memory_sdk/store.py:1179-1216 | an export imports into an empty store iff every exported row has the target's tenant, user and thread; otherwise it raises a scope mismatch, with exactly the rows before the first misfit imported |
| `RoundTrips.RoundTrip` | src/agent_memory_sdk/store.py:1153-1259 | then the counts equal the exported rows, and every table comes back: the first exported row of every dedup hash, given column by column (body, origin, expiry as they were; scope, hash, version and timestamps new; claim stamp cleared), and nothing else |
| `RoundTrips.AllComeBackIffHashesDiffer` | src/agent_memory_sdk/repositories/base.py:918-947 | all rows of a table come back iff it does not dedup or no two exported rows share a content hash |
| `RestoredOrder.SurvivorIsNewest` | src/agent_memory_sdk/store.py:1034-1259 | of the rows of one hash, an export that is newest first brings back the newest |
| `RestoredOrder.ImportReversesTheOrder` | src/agent_memory_sdk/store.py:1153-1259 | with an increasing clock the restored table lists in exactly the opposite order of the export, and in no other |
| `RestoredOrder.SecondTripRestoresTheOrder` | src/agent_memory_sdk/store.py:1034-1259 | a second export, newest first, and import put the order of the first export back |
| `Transcript.GetSummary` | src/agent_memory_sdk/store.py:2070-2121 | for all inputs: the error cases; the lines are those of the newest 1000 rows, oldest first, each its row's role and content; content and count are those of the lines kept, `truncated` iff a line was dropped; the content splits into at most `token_budget` words, those of each kept line in turn, and into the kept lines at its newlines |
| `Transcript.JoinedWords` | src/agent_memory_sdk/store.py:2106-2121 | splitting the newline-joined transcript gives exactly the words of each line, line after line |
| `Transcript.CutIsLongest` | src/agent_memory_sdk/store.py:2106-2114 | a prefix fits iff it is no longer than the kept one |
| `Transcript.LargerBudgetExtends` | src/agent_memory_sdk/store.py:2106-2121 | a larger budget only extends the transcript, and drops nothing iff the whole fits |
| `Transcript.LongThreadLosesItsBeginning` | src/agent_memory_sdk/store.py:2079-2081 | the requested 10000 rows are capped at 1000, so the whole thread is read iff it has at most 1000 live rows |
| `Text.SplitBeforeSpace` | src/agent_memory_sdk/store.py:2106-2114 | whitespace splitting distributes over concatenation before a space |
| `Text.SplitLosesOnlySpace` | src/agent_memory_sdk/store.py:2106-2114 | the words are non-empty and free of whitespace, and end to end they are the text without its whitespace |
| `Text.SplitOnUndoesJoin` | src/agent_memory_sdk/store.py:2115-2121 | splitting at a separator undoes joining with it, for parts that do not hold it |
| `Backfill.RelevantWithBackfill` | src/agent_memory_sdk/store.py:1686-1727 | the section's ids are the specified ones for every search result, the search results come first unchanged, and backfilled rows come from the table |
| `Backfill.UnseenInOrder` | src/agent_memory_sdk/store.py:1718-1727 | the backfill candidates are exactly the listed ids not found by search, in listing order |
| `Backfill.SectionHasTheMinimum` | src/agent_memory_sdk/store.py:1704-1727 | search results as prefix, no repeats, the most recent unseen rows in order as tail, and the exact length |
| `Backfill.PromiseKeptIffWithinReach` | src/agent_memory_sdk/store.py:1718-1727 | the length is max(n, min(minimum, live)) iff that many rows lie within a listing's 1000-row reach or are search results beyond it: always for a minimum up to 1000 |
| `Session.Db2Session.AddItems` | src/agent_memory_sdk/adapters/openai_agents.py:175-213 | appends the items to the session's list; the table only gains rows and tombstones, within the scope |
| `Session.Db2Session.PersistMessage` | src/agent_memory_sdk/adapters/openai_agents.py:175-193 | adds one row to the session: the encoded message, its role (or "unknown") in the metadata, the session's scope |
| `Session.Db2Session.GetItems` | src/agent_memory_sdk/adapters/openai_agents.py:215-249 | returns the slice of the last 1000 messages that Python's negative slicing selects |
| `Session.Db2Session.PopItem` | src/agent_memory_sdk/adapters/openai_agents.py:251-273 | removes and returns the last message; None and no change on an empty session |
| `Session.Db2Session.ClearSession` | src/agent_memory_sdk/adapters/openai_agents.py:274-285 | empties the session iff it has at most 1000 messages; of a longer one it leaves the oldest |
| `Session.TailIsTheMostRecentIffPositive` | src/agent_memory_sdk/adapters/openai_agents.py:237-240 | how many messages the slice holds for every limit, and that they are the most recent `limit` iff `limit` is positive or nothing is left to hold: zero returns everything |
| `Session.ListingIsReversed` | src/agent_memory_sdk/adapters/openai_agents.py:233-238 | under a strictly increasing clock the listing is exactly the reversed session, whatever the database does |
| `Session.OthersDoNotDisturb` | src/agent_memory_sdk/adapters/openai_agents.py:153-169 | writes under a scope that shares no row leave the session's list alone |
| `Statements.SplitUndoesJoin` | src/agent_memory_sdk/db/migrate.py:208-217 | splitting the joined statements returns them, for every list of trimmed non-empty statements free of ';' and '--' |
| `Statements.StatementsAreWritable` | src/agent_memory_sdk/db/migrate.py:208-217 | every split yields only such statements |
| `Statements.SplittingIsIdempotent` | src/agent_memory_sdk/db/migrate.py:208-217 | rewriting any file as its own statements changes nothing that is executed |
| `Statements.InsertedCommentIsInvisibleIff` | src/agent_memory_sdk/db/migrate.py:208-217 | inserting a line comment before a newline leaves the text after comment removal alone iff the preceding character is not a dash outside a comment |
| `Statements.CommentsDoNotChangeStatements` | src/agent_memory_sdk/db/migrate.py:208-217 | and then the executed statements are the same |
| `RankMetrics.RecallBounds` | benchmarks/quality/ir_metrics.py:60-80 | recall is in [0, 1] even with repeated ids, is 1 iff all the evidence is in the top k, and never falls with k |
| `RankMetrics.RecallIsTheShareFound` | benchmarks/quality/ir_metrics.py:60-80 | recall times the evidence is the number of distinct evidence sessions at the ranks of the cut |
| `RankMetrics.Mrr` | benchmarks/quality/ir_metrics.py:83-100 | the score times the rank of the first hit is 1; zero iff there is no hit |
| `RankMetrics.NdcgAtK` | benchmarks/quality/ir_metrics.py:103-140 | the two accumulating loops compute the specified quotient for every k, negative ones included |
| `RankMetrics.NdcgIsTheShareEarned` | benchmarks/quality/ir_metrics.py:120-140 | for every list, repeated ids included, and every discount: the score times the sum of the first min(evidence, k) discounts is the sum of the discounts of the hit ranks |
| `RankMetrics.OneMoreHitEarnsItsDiscount` | benchmarks/quality/ir_metrics.py:120-140 | a relevant entry in place of an irrelevant one at rank r of the cut raises the score by that rank's discount over that sum |
| `RankMetrics.HitsAreBestInFront` | benchmarks/quality/ir_metrics.py:128-135 | the exchange argument: a ranking gains at most what its hits would gain in front, and as much iff they are there |
| `RankMetrics.NdcgIsARatio` | benchmarks/quality/ir_metrics.py:103-140 | for distinct ids, every k and every positive decreasing discount: in [0, 1], and 1 iff the first min(evidence, k) ranks are all relevant |
| `RankMetrics.BoundedIffHitsWithinEvidence` | benchmarks/quality/ir_metrics.py:120-140 | with repeated ids the bound holds for every discount iff the top k does not hit more often than there is evidence |
| `RankMetrics.RepeatedIdScoresAboveOne` | benchmarks/quality/ir_metrics.py:120-140 | one relevant session returned twice in front scores above 1 under every discount |
| `Scorecard.NormalizationIsOneClampedLine` | benchmarks/common/scorecard.py:122-141 | the four pieces are one line clamped to [0, 100]: continuous, never rising, at most 50 points per unit ratio |
| `Scorecard.OpScoreOfLatency` | benchmarks/common/scorecard.py:122-141 | an operation at its baseline or faster scores 100, at three times it or slower 0, and in between 150 less 50 for each baseline it takes |
| `Scorecard.BaselineIsTheFirstNamed` | benchmarks/common/scorecard.py:311-319 | an operation is measured against the first baseline key that occurs in its name |
| `Scorecard.ComputePerformance` | benchmarks/common/scorecard.py:274-338 | the loop's score is the mean of the scores of the operations with a mean and a baseline, missing iff there is none; it raises iff such a baseline is zero |
| `Scorecard.OpScoresAreTheCounted` | benchmarks/common/scorecard.py:302-326 | there is one score for each operation with a mean and a baseline, in file order |
| `Scorecard.PerOpHoldsLastScores` | benchmarks/common/scorecard.py:302-326 | the per-operation table has exactly the names that were scored, each with its last score |
| `Scorecard.PerformanceIsMonotone` | benchmarks/common/scorecard.py:302-338 | in [0, 100], and no higher for a slower run, if each latency is not negative or its baseline is positive |
| `Scorecard.LoadWeights` | benchmarks/common/scorecard.py:157-190 | accepts iff the three required keys are there and the total is within 0.001 of 1 |
| `Scorecard.CompositeInRangeIff` | benchmarks/common/scorecard.py:482-497 | exactly which weights keep the composite in [0, 100.1] for all sub-scores: three non-negative ones of sum at most 1.001 |
| `Scorecard.NegativeExtraWeightBreaksTheRange` | benchmarks/common/scorecard.py:178-190 | weights that pass the loader and let the composite reach 300 |
| `Scorecard.ComputeScorecard` | benchmarks/common/scorecard.py:451-526 | composite and partial composite for every combination of missing inputs, never both set, and the run mode follows |
| `Scorecard.ScoresFromInputs` | benchmarks/common/scorecard.py:372-508 | which inputs give a composite and which a partial one, and both in terms of the inputs: the three weights times performance, the mean of recall and accuracy, and the mean of pass rate and the three Likert scores |
| `Scorecard.QualityTermsCountAlike` | benchmarks/common/scorecard.py:388-444 | the pass rate moves the quality score by 25 points, each Likert mean by 5 a point, and the best inputs give 100 |
| `Scorecard.ScoresInRange` | benchmarks/common/scorecard.py:478-508 | with in-range inputs and loaded non-negative weights, extra keys or not: composite in [0, 100.1], partial composite in [0, 100] |
| `Scorecard.SlowerRunNeverScoresHigher` | benchmarks/common/scorecard.py:302-508 | raising any operation's latency never raises either composite nor makes one appear or disappear |

## Left out

- Db2 itself: SQL text, vector casts, isolation levels and the driver; a statement is atomic, a commit makes exactly the open rows durable, and a rollback discards them unless it fails. That presumes handles that are not in autocommit mode, which the source leaves at the driver's default.
- Repositories.Repository.ListAll: `min_confidence` and `metadata_filter` are not modelled, and a negative limit or offset is not; no caller modelled here passes them.
- Repositories.Repository.Create: the dedup SELECT and the INSERT are one step, so the duplicate rows two concurrent writers can produce are not shown; the computed embedding and the chunk rows written after a long insert are not modelled.
- Search and its ranking: any list of rows; embedding providers, resolvers, reconcilers, consolidators and guards are arbitrary functions that may fail.
- Ingest.ResolveAndAct: the similarity search that prepares the resolver's input is not modelled, only the decision that comes back.
- ConsolidationWorker.ProcessRecord: derived rows are the create calls issued, in order; the tables they land in are not part of that module.
- ConnectionPool.Pool.constructor: opening a connection that fails midway, and the handles opened before it, are not modelled.
- Migrations.Migrator.Run: the validation policy that refuses to migrate is not modelled; a statement adds one object, guarded by IF NOT EXISTS or not, or changes the type of one.
- BulkInsert.Connection.CreateMany: a `commit_every` below 1 is left to `BulkInsert.LoopEndsIffPositiveStep` unless there is nothing to insert, because that loop does not end of itself; the source also stamps the caller's own record objects, and records are values here, so that aliasing is not captured.
- Portability.MemoryStore.ImportRecord: JSON and model validation of a record are not modelled; chunk records are refused, as by a store built without chunking.
- Portability.ExportScope: the chunk table at the end of an export is not modelled; `PageLoops.ListAllForScope` covers its loop.
- Session: message serialisation is a pair of functions with decode after encode the identity, and the store has its default resolver and guard.
- RankMetrics and Scorecard: reals instead of floats, an arbitrary discount instead of log2; the per-category averages of `compute_ir_metrics` and the Markdown rendering would only add easy members.
- The regular expressions of the benchmark reconciler: an arbitrary parser and lower-casing function; the matching and the order of decisions are modelled.
- LangChain, MCP and Agent Framework adapters, thread wrappers, CLI parsing, resource sampling: pass-throughs.
