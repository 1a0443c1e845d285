# Queue-item lock lifecycle of muse-queue, in Dafny

This project models the lock lifecycle of the muse-queue server's `QueueService`
(`server/src/queue/queue.service.ts`). The service works on the `queueItem` table.
A queue item is Unlocked (no `lockedAt`, no `completedAt`), Locked (`lockedAt` set) or
Completed (`completedAt` set, no lock). The three operations are:

- **lockNextItem** claims some row that is neither completed nor locked. It stamps
  `lockedAt` and `lockedBy` on that row and returns it. It returns nothing, and changes
  nothing, when no such row exists.
- **completeitem** stamps `completedAt` and `matchedCount` on the row with the given id
  and clears its lock, whatever state the row was in. It throws when the id is absent.
- **clearStaleLocks** clears the lock of every uncompleted row whose `lockedAt` is more
  than `LOCK_TIMEOUT_MINUTES` (15) before now. It returns the cleared rows.

Files:

- `wrappers.dfy` (`Wrappers`): `Option` for nullable columns and omitted arguments;
  `Result` and `Error` for `executeTakeFirstOrThrow`.
- `queue_item.dfy` (`QueueItems`): the row record, with the columns of
  `server/src/database/database.schema.ts`. Also the two row filters (claimable, stale),
  the lifecycle convention and the three row rewrites.
- `queue_table.dfy` (`QueueTable`): the table as a map from id to row. Also the database
  constraints (primary key, unique `(batchId, uid, site)`) and the table-wide effect of each
  operation, with its frame ("nothing else changes") and the invariants it keeps.
- `queue_lifecycle.dfy` (`QueueLifecycle`): runs, meaning any sequence of the three
  operations, and what holds along every run.
- `queue_service.dfy` (`QueueServices`): the class `QueueService`. It holds the table as a
  field and has one method per operation. Each method's contract ties the new table to the
  table functions. Each method also states that its call is one step of a run.

Modelling choices:

- Each transaction, or single UPDATE, is one atomic method call.
- `current_timestamp` is passed in as `now`, in whole minutes. The SQL interval
  `current_timestamp - interval '15 minutes'` becomes `now - 15`.
- In SQL, `lockedAt < x` is not true when `lockedAt` is null. So a row without a lock is
  never stale.
- The query builder drops `undefined` values from a `.set({...})` list. An omitted
  `lockedBy` (lockNextItem) or omitted `matchedCount` (completeitem) therefore leaves that
  column as it was. These arguments are `Option`s, and `None` means omitted. Under the
  lifecycle convention, a claimable row has no `lockedBy`, so omitting it leaves the claimed
  row with `lockedBy` null.
- lockNextItem's select (queue.service.ts:25-29) has no `orderBy`, so no ordering by
  `expectedCount` is implemented. The model lets it pick any claimable row.
- lockNextItem always returns the updated row once its select found one. That holds because
  each call is modelled as one atomic step, not because of the transaction: the transaction
  runs at the database's default isolation and its select takes no row lock.

## Model

| member | source | states |
|---|---|---|
| `QueueItems.QueueItem` | server/src/database/database.schema.ts:33-52 | one field per `queueItem` column except `createdAt`/`updatedAt`; nullable columns are `Option`, and timestamps are whole minutes |
| `QueueItems.Assigned` | server/src/queue/queue.service.ts:37 | the query builder drops an omitted (undefined) value from an UPDATE's SET list, so the column keeps its old value; a given value replaces it (also used for `matchedCount` at line 48) |
| `QueueItems.LOCK_TIMEOUT_MINUTES` | server/src/queue/queue.service.ts:15 | the stale-lock window is 15 minutes |
| `QueueItems.Claimable` | server/src/queue/queue.service.ts:26-27 | a row lockNextItem may select is one with neither `completedAt` nor `lockedAt` set |
| `QueueItems.IsStale` | server/src/queue/queue.service.ts:58-59 | a row clearStaleLocks matches at `now` is uncompleted and has a `lockedAt` strictly earlier than `now - LOCK_TIMEOUT_MINUTES`; a null `lockedAt` never matches |
| `QueueItems.Lock` | server/src/queue/queue.service.ts:35-39 | a locked row differs only in its lock columns, has `lockedAt = now`, is no longer claimable, and takes `lockedBy` from the argument or keeps its own when the argument is omitted; locking a claimable coherent row keeps it coherent |
| `QueueItems.Complete` | server/src/queue/queue.service.ts:46-50 | a completed row differs only in lock and completion columns, is in the Completed state with `completedAt = now`, takes `matchedCount` from the argument or keeps its own when omitted, and is never claimable or stale afterwards |
| `QueueItems.Release` | server/src/queue/queue.service.ts:57-62 | clearing a lock changes only the lock columns, leaves both null, makes the row claimable exactly when it is uncompleted, and it is no longer stale at any time |
| `QueueItems.ClaimableNeverStale` | server/src/queue/queue.service.ts:25-59 | no row is both claimable by lockNextItem and clearable by clearStaleLocks |
| `QueueItems.CompleteTwice` | server/src/queue/queue.service.ts:45-51 | completing a row twice equals completing it once with the second call's arguments (an omitted second `matchedCount` keeps the first one's) |
| `QueueTable.KeyedById` | server/kysely/migrations/0000_base.ts:14 | the primary key: every row is stored under its own `id` |
| `QueueTable.UniqueBusinessKey` | server/kysely/migrations/0000_base.ts:32 | the `batch_uid_site` constraint: no two rows share `(batchId, uid, site)` |
| `QueueTable.Constraints` | server/kysely/migrations/0000_base.ts:14-32 | what the database enforces on the table: the primary key and the unique `(batchId, uid, site)`; `QueueService.Valid()` is this predicate of its table |
| `QueueTable.ClaimableIds` | server/src/queue/queue.service.ts:25-29 | the ids lockNextItem's select may return are exactly the table's claimable rows, all of them ids of the table |
| `QueueTable.StaleIds` | server/src/queue/queue.service.ts:56-59 | the ids clearStaleLocks matches are ids of the table and never claimable ones |
| `QueueTable.LockChangesKeepConstraints` | server/kysely/migrations/0000_base.ts:14-32 | a change of lock columns only keeps the primary key and the unique `(batchId, uid, site)` constraint |
| `QueueTable.LockAt` | server/src/queue/queue.service.ts:35-39 | lockNextItem's update changes only row `id` and only its lock columns; sets `lockedAt = now` and the given `lockedBy`; keeps the constraints; on a claimable row removes exactly that id from the claimable set and keeps the lifecycle convention |
| `QueueTable.CompleteAt` | server/src/queue/queue.service.ts:45-51 | completeitem changes only row `id`, only its lock and completion columns; leaves it Completed at `now` with the given `matchedCount`; removes it from the claimable set; keeps the constraints and the lifecycle convention |
| `QueueTable.ReleaseAll` | server/src/queue/queue.service.ts:60 | clearing the lock columns of a set of rows changes only those rows' lock columns, and each such row becomes its `Release` |
| `QueueTable.ClearStale` | server/src/queue/queue.service.ts:56-65 | clearStaleLocks changes only the lock columns of exactly the stale rows and clears them; leaves no stale row; the claimable set grows by exactly the stale rows; keeps the constraints and the lifecycle convention |
| `QueueTable.CompleteAtTwice` | server/src/queue/queue.service.ts:45-51 | two completions of one id leave the table as one completion with the second call's arguments |
| `QueueTable.ClearStaleTwice` | server/src/queue/queue.service.ts:56-65 | a second clearStaleLocks at the same time changes nothing |
| `QueueLifecycle.Next` | server/src/queue/queue.service.ts:23-65 | the step relation of the three operations: lockNextItem leaves the table unchanged when nothing is claimable and otherwise is `LockAt` of some claimable id; completeitem is `CompleteAt` on a present id and changes nothing on an absent one; clearStaleLocks is `ClearStale` |
| `QueueLifecycle.StepKeeps` | server/src/queue/queue.service.ts:23-65 | every operation keeps the set of ids, the constraints, the lifecycle convention and every row already in the Completed state |
| `QueueLifecycle.RunKeepsInvariants` | server/src/queue/queue.service.ts:23-65 | along any run of the three operations, the ids never change, and the constraints and the convention "completed means unlocked" hold at every step if they hold at the start |
| `QueueLifecycle.CompletedStaysCompleted` | server/src/queue/queue.service.ts:26-27 | once a row is Completed it stays Completed and unlocked for the rest of any run: it is never locked again |
| `QueueLifecycle.ClaimsDrainPool` | server/src/queue/queue.service.ts:23-43 | after i lockNextItem calls on M claimable rows, max(M - i, 0) remain claimable and every row that left the pool is locked and uncompleted, so min(i, M) distinct rows were claimed |
| `QueueServices.QueueService.constructor` | server/src/queue/queue.service.ts:19-21 | the service starts on a given table that satisfies the database constraints |
| `QueueServices.QueueService.LockNextItem` | server/src/queue/queue.service.ts:23-43 | returns None exactly when no row is claimable, and then the table is unchanged; otherwise the returned row was claimable, the table is `LockAt` of that row, and the returned value is the updated row |
| `QueueServices.QueueService.CompleteItem` | server/src/queue/queue.service.ts:45-51 | fails with `NoResultError` and changes nothing on an absent id; otherwise the table is `CompleteAt` of that row and the result is the updated row |
| `QueueServices.QueueService.ClearStaleLocks` | server/src/queue/queue.service.ts:56-65 | the table becomes `ClearStale` of the old one; the returned list holds each stale row exactly once, in its updated form, so its length is the number of stale rows; since `ClearStale` leaves no stale row, a second call at the same `now` returns an empty list |

## Left out

- Ordering of lockNextItem: no ordering by `expectedCount` is implemented, because the select at queue.service.ts:25-29 has no `orderBy`. The model claims any claimable row.
- Concurrency and transaction isolation: each call is one atomic step. That hides three things. The update at queue.service.ts:36 does not re-check `lockedAt is null`, so two concurrent lockNextItem calls can claim the same id. A completeitem that commits between lockNextItem's select and its update leaves a Completed row locked, which breaks the lifecycle convention (`Coherent`). A delete that commits in between makes the update find no row, so lockNextItem returns nothing although a claimable row existed.
- Real clock arithmetic and time zones: timestamps are whole minutes and `now` is a parameter.
- Column widths: `id` (serial) and the `integer` columns are 32-bit in the database, and the model uses unbounded integers. No operation here does arithmetic on them. `varchar(255)` length limits are not modelled. A `matchedCount` outside 32 bits or not an integer, or a `lockedBy` over 255 characters, makes the database reject the UPDATE with an error, while the model returns `Success` (or the locked row).
- `createdAt` and `updatedAt`: no operation here writes them, so the row record leaves them out.
- `QueueServices.QueueService.ClearStaleLocks`: the order of the returned list is not stated, because the database's `returning` order is unspecified.
- `getItem`, `releaseItem`, `loadBatchExpected` and `invokeWorkerOnNext`: the controller calls them, but the service shown does not define them.
- The dispatcher tick, worker activity accounting, the webhook call and expected-count reconciliation: none of these is in the service shown.
- The database connection, the Databricks client, the HTTP controllers, module wiring, migrations and seeding: I/O and framework glue. The service reaches the table through `this.db.get()` (queue.service.ts:24, 46, 57), but `DatabaseService` (database.service.ts:8-30) extends `Kysely` and defines no `get()`; the model assumes `get()` returns that database handle.
- An explicit `null` argument: no validation pipe is installed and `CompletedItemDto` (queue.controller.ts:6) has no validators, so a body `{"matchedCount": null}` reaches completeitem and line 48 writes `matchedCount = NULL`. In the model `None` means omitted (the column keeps its value), so an explicit null cannot be expressed; the service's declared argument type is `number | undefined`.
