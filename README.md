# Pravega Flink sink: checkpoint and transaction coordination

This project models the core of `FlinkPravegaWriter`, the Flink sink that writes a
stream of events into a Pravega stream, and proves properties of that model in Dafny.

The sink has two writer strategies.

- The **exactly-once writer** (`TransactionWriter`) keeps one current Pravega
  transaction. When a checkpoint is taken, it flushes that transaction and parks it
  at the back of a FIFO queue of `(transaction, checkpoint id)` bindings. It then
  begins the next transaction and returns the ids of every parked transaction as
  the checkpoint state. When a checkpoint is confirmed, it commits, front first,
  every parked transaction whose checkpoint id the confirmation covers. After a
  restart it commits every restored transaction that is still OPEN. When it is
  closed, it aborts the current transaction and closes the client writer.
- The **at-least-once writer** (`StandardWriter`) issues every event as an
  asynchronous write. It counts the writes in flight and keeps the first failure
  reported. A checkpoint waits for the count to reach zero, then throws that failure.

The sink picks one strategy from its mode and from whether checkpointing is enabled.
Its constructor validates its arguments.

Layout, one module per file:

- `pravega.dfy` (`Pravega`): transaction ids and statuses, the exceptions, and the
  store-side effect of each Pravega client call. The store is a map from id to
  transaction. Network failures are an input: every operation takes `faults`, the
  set of client calls that throw.
- `pending_commits.dfy` (`PendingCommits`): the queue of parked bindings, and the
  specification of `notifyCheckpointComplete` as a function of the store and the
  queue.
- `recovery.dfy` (`Recovery`): the specification of `restoreState`.
- `transaction_writer.dfy` (`TransactionWriters`): the class `TransactionWriter`.
  Its fields `currentTxn` and `pending` are updated in place. Its methods are proved
  against the functions above.
- `standard_writer.dfy` (`StandardWriters`): the class `StandardWriter` with its
  counter and error cell, and the completion callbacks as functions over traces.
- `writer_facade.dfy` (`WriterFacade`): the constructor checks and `invokeWriter`.

## Model

| member | source | states |
|---|---|---|
| `Pravega.FirstOrSuppressed` | src/main/java/io/pravega/connectors/flink/FlinkPravegaWriter.java:391-397 | The first exception is kept; a later one is appended to its suppressed list. |
| `Pravega.CommitEffect` | src/main/java/io/pravega/connectors/flink/FlinkPravegaWriter.java:478 | A commit succeeds exactly when it reaches the store and the transaction is OPEN. It then moves only that transaction to COMMITTING. A failed commit changes nothing. |
| `Pravega.AbortEffect` | src/main/java/io/pravega/connectors/flink/FlinkPravegaWriter.java:385 | An abort succeeds exactly when it reaches the store and the transaction is OPEN. The transaction then becomes ABORTED with its events dropped. |
| `Pravega.StatusOf` | src/main/java/io/pravega/connectors/flink/FlinkPravegaWriter.java:515-516 | A status lookup returns the store's status of a known id; it throws for an unknown id or an unreachable store. |
| `Pravega.Store.BeginTxn` | src/main/java/io/pravega/connectors/flink/FlinkPravegaWriter.java:421 | beginTxn adds one OPEN, empty transaction under an id the store never used before. |
| `PendingCommits.TxnIds` | src/main/java/io/pravega/connectors/flink/FlinkPravegaWriter.java:427 | The snapshot payload has one id per queued binding, in queue order. |
| `PendingCommits.DueCount` | src/main/java/io/pravega/connectors/flink/FlinkPravegaWriter.java:468 | This is the length of the longest front prefix with checkpoint id at most the confirmed one. Every binding in the prefix is covered; the next one, if any, is not. |
| `PendingCommits.TxnIdsAppend` | src/main/java/io/pravega/connectors/flink/FlinkPravegaWriter.java:418-427 | Parking a binding adds exactly its id at the end of the payload. |
| `PendingCommits.AppendKeepsSorted` | src/main/java/io/pravega/connectors/flink/FlinkPravegaWriter.java:418 | Parking a binding whose checkpoint id is not below any queued one keeps checkpoint ids non-decreasing. |
| `PendingCommits.DrainPopsDuePrefix` | src/main/java/io/pravega/connectors/flink/FlinkPravegaWriter.java:467-482 | The loop removes a front prefix and leaves the rest unchanged. The prefix is never longer than the covered one. Without a commit failure it is exactly the covered prefix. A failing commit has already removed its binding. |
| `PendingCommits.DrainCommitsDue` | src/main/java/io/pravega/connectors/flink/FlinkPravegaWriter.java:467-482 | Assume every covered transaction is OPEN, distinct, and reachable. Then the loop succeeds, commits exactly the covered transactions, changes no other transaction, and leaves the uncovered suffix. |
| `PendingCommits.DrainFrame` | src/main/java/io/pravega/connectors/flink/FlinkPravegaWriter.java:467-482 | Whatever commit throws, the loop keeps the store's ids and changes only transactions of the bindings it removed, each from OPEN to COMMITTING. Every other transaction is left as it was. |
| `PendingCommits.DrainLeavesLaterCheckpoints` | src/main/java/io/pravega/connectors/flink/FlinkPravegaWriter.java:467-482 | A sorted queue stays sorted. After a confirmation without a failure, every remaining binding has a larger checkpoint id. |
| `PendingCommits.StaleNotifyChangesNothing` | src/main/java/io/pravega/connectors/flink/FlinkPravegaWriter.java:465-468 | If the confirmation is older than the front binding, nothing changes and nothing is thrown. |
| `PendingCommits.RepeatedNotify` | src/main/java/io/pravega/connectors/flink/FlinkPravegaWriter.java:465-482 | Take a successful confirmation on a sorted queue, then a second one that is not newer. The second changes nothing if bindings remain. It throws IllegalStateException if the queue is empty. |
| `Recovery.ReconcileCommitsOpen` | src/main/java/io/pravega/connectors/flink/FlinkPravegaWriter.java:513-537 | Assume every lookup and commit reaches the store. Then the loop succeeds and moves exactly the listed OPEN transactions to COMMITTING. It skips null ids. It leaves COMMITTING, COMMITTED, ABORTED and unlisted transactions unchanged. |
| `Recovery.ReconcileFrame` | src/main/java/io/pravega/connectors/flink/FlinkPravegaWriter.java:513-537 | Whatever lookup or commit throws, the loop keeps the store's ids and changes only listed OPEN transactions, each to COMMITTING. COMMITTING, COMMITTED, ABORTED and unlisted transactions are left as they are, also when the loop ends in an exception. |
| `Recovery.RestoreFrame` | src/main/java/io/pravega/connectors/flink/FlinkPravegaWriter.java:501-537 | Whatever fails, restoreState commits only listed OPEN transactions; a null list changes nothing. |
| `Recovery.RestoreCommitsOpen` | src/main/java/io/pravega/connectors/flink/FlinkPravegaWriter.java:501-537 | A null or empty list changes nothing. When every lookup and commit reaches the store, each listed OPEN transaction is committed and nothing else changes. |
| `Recovery.ReconcileIdempotent` | src/main/java/io/pravega/connectors/flink/FlinkPravegaWriter.java:513-535 | Whatever fails, running the loop again over the store the first run left changes nothing more and ends with the same outcome. |
| `Recovery.RestoreIdempotent` | src/main/java/io/pravega/connectors/flink/FlinkPravegaWriter.java:501-537 | Whatever fails, restoring the same list a second time changes nothing more and ends with the same outcome. |
| `Recovery.ReconcileCalls` | src/main/java/io/pravega/connectors/flink/FlinkPravegaWriter.java:513-524 | The loop issues only status lookups and commits, and only for ids in the list. |
| `TransactionWriters.TransactionWriter.constructor` | src/main/java/io/pravega/connectors/flink/FlinkPravegaWriter.java:353-360 | A new writer has no current transaction and an empty queue. |
| `TransactionWriters.TransactionWriter.Initialize` | src/main/java/io/pravega/connectors/flink/FlinkPravegaWriter.java:363-371 | A fresh OPEN transaction becomes current, the queue is empty, and the writer's ids are distinct. If beginTxn throws, nothing changes. Without a client writer it throws NullPointerException and changes nothing. |
| `TransactionWriters.TransactionWriter.Write` | src/main/java/io/pravega/connectors/flink/FlinkPravegaWriter.java:374-376 | The event is appended to the current transaction. Without one, NullPointerException is thrown; a transaction that is not OPEN throws. |
| `TransactionWriters.TransactionWriter.SnapshotState` | src/main/java/io/pravega/connectors/flink/FlinkPravegaWriter.java:405-428 | Without a current transaction it throws IllegalStateException and changes nothing; a failed flush also changes nothing. Otherwise `(current, checkpointId)` is appended behind the unchanged queue. Without a client writer, NullPointerException follows, and the parked transaction stays current. On success a fresh OPEN transaction becomes current, and the result is the queue's ids ending with the parked one. Every branch states its client calls, and only a successful beginTxn advances the store's next id. A success keeps the ids distinct. Sortedness is kept when ids do not decrease. |
| `TransactionWriters.TransactionWriter.NotifyCheckpointComplete` | src/main/java/io/pravega/connectors/flink/FlinkPravegaWriter.java:431-483 | The new store, queue and outcome are those of `Notify`. Commit calls go out for the removed prefix, front first. The remaining queue is a suffix that stays sorted and distinct. The current transaction and the store's ids are untouched. On a distinct queue whose covered transactions are OPEN and reachable, the call succeeds, commits exactly the covered transactions (`CommittedDue`) and leaves the uncovered suffix. |
| `TransactionWriters.CommitCovered` | src/main/java/io/pravega/connectors/flink/FlinkPravegaWriter.java:467-482 | The commit loop by itself. The new store, the queue left and the outcome are those of `Drain`. The queue left is a suffix whose transactions are still in the store, and it stays sorted. One commit call goes out per removed binding, front first. |
| `TransactionWriters.WriterQueueCommitsDue` | src/main/java/io/pravega/connectors/flink/FlinkPravegaWriter.java:467-482 | On a queue with distinct ids, whenever the covered transactions are OPEN and reachable, the loop succeeds. Its store is `CommittedDue`, where exactly the covered transactions are COMMITTING, and it leaves the uncovered suffix. |
| `TransactionWriters.TransactionWriter.RestoreState` | src/main/java/io/pravega/connectors/flink/FlinkPravegaWriter.java:486-539 | The new store and outcome are those of `Restore`. The client calls are those of `RestoreCalls`: the writer creation, then a lookup per non-null id and a commit per OPEN one, in list order. The queue, the current transaction and the store's next id are untouched. |
| `TransactionWriters.ReconcileAll` | src/main/java/io/pravega/connectors/flink/FlinkPravegaWriter.java:513-535 | The restore loop by itself, as a `for` loop. The new store and outcome are those of `Reconcile`, and the client calls are those of `ReconcileCalls`. |
| `TransactionWriters.TransactionWriter.Close` | src/main/java/io/pravega/connectors/flink/FlinkPravegaWriter.java:379-402 | The current transaction is aborted if present, and the client writer is closed if present. Both are attempted even if the first throws. If both fail, the abort's exception is thrown with the close's suppressed. If one fails, that one is thrown; otherwise nothing is thrown. |
| `StandardWriters.CompletedAllCounts` | src/main/java/io/pravega/connectors/flink/FlinkPravegaWriter.java:571-584 | Over any sequence of completions, the counter drops only by the successes. The error cell keeps the earlier error, or else takes the first failure. |
| `StandardWriters.FailedWriteNeverDrains` | src/main/java/io/pravega/connectors/flink/FlinkPravegaWriter.java:571-584 | Once a counted write has failed, the counter stays above zero after every write has completed. |
| `StandardWriters.CompletedAllIntendedDrains` | src/main/java/io/pravega/connectors/flink/FlinkPravegaWriter.java:571-584 | With the corrected callback, the counter drops by one per completion. The first failure is kept. |
| `StandardWriters.StandardWriter.constructor` | src/main/java/io/pravega/connectors/flink/FlinkPravegaWriter.java:557-561 | The writer starts with a zero counter and no error. |
| `StandardWriters.StandardWriter.CheckWriteError` | src/main/java/io/pravega/connectors/flink/FlinkPravegaWriter.java:627-632 | A recorded failure is thrown once, wrapped as a write failure, and the cell is empty afterwards. |
| `StandardWriters.StandardWriter.Write` | src/main/java/io/pravega/connectors/flink/FlinkPravegaWriter.java:564-587 | A recorded error is thrown and cleared, and the counter is untouched. Otherwise the counter grows by exactly one and the write is issued. |
| `StandardWriters.StandardWriter.OnComplete` | src/main/java/io/pravega/connectors/flink/FlinkPravegaWriter.java:571-584 | This is the callback as written. A success decrements the counter. A failure fills the error cell only if it is empty, and leaves the counter unchanged. |
| `StandardWriters.StandardWriter.OnCompleteIntended` | src/main/java/io/pravega/connectors/flink/FlinkPravegaWriter.java:571-584 | This is the corrected callback. Every completion decrements the counter, and the first failure is recorded. |
| `StandardWriters.StandardWriter.FlushAndVerify` | src/main/java/io/pravega/connectors/flink/FlinkPravegaWriter.java:613-625 | A failed flush is thrown before the wait. The wait ends only when no completion has failed through the callback as written (`OnComplete`). Afterwards a recorded error is thrown and cleared. |
| `StandardWriters.StandardWriter.SnapshotState` | src/main/java/io/pravega/connectors/flink/FlinkPravegaWriter.java:596-600 | It flushes and verifies. If nothing is thrown, it returns an empty list. A recorded error is thrown and cleared; a failed flush is thrown and leaves the recorded error in place. |
| `StandardWriters.StandardWriter.Close` | src/main/java/io/pravega/connectors/flink/FlinkPravegaWriter.java:590-593 | It flushes and verifies, then closes the client writer. A failure in the first step skips the close. The recorded error is kept when the flush throws and cleared otherwise. |
| `StandardWriters.StandardWriter.NotifyCheckpointComplete` | src/main/java/io/pravega/connectors/flink/FlinkPravegaWriter.java:603-605 | It changes nothing and never throws. |
| `StandardWriters.StandardWriter.RestoreState` | src/main/java/io/pravega/connectors/flink/FlinkPravegaWriter.java:608-610 | It changes nothing and never throws. |
| `WriterFacade.NewWriterConfig` | src/main/java/io/pravega/connectors/flink/FlinkPravegaWriter.java:138-155 | Construction succeeds exactly when every reference is present and all three durations are positive. It stores the arguments unchanged. A missing reference throws NullPointerException; otherwise a non-positive duration throws IllegalArgumentException. |
| `WriterFacade.NewDefaultWriterConfig` | src/main/java/io/pravega/connectors/flink/FlinkPravegaWriter.java:102-111 | The default constructor succeeds exactly when every reference is present. It uses a two-hour timeout and maximum, and ten minutes of grace. |
| `WriterFacade.SelectWriter` | src/main/java/io/pravega/connectors/flink/FlinkPravegaWriter.java:239-270 | EXACTLY_ONCE without checkpointing throws UnsupportedOperationException. EXACTLY_ONCE with checkpointing selects the transaction writer. Every other mode selects the standard writer. |
| `WriterFacade.InvokeWriter` | src/main/java/io/pravega/connectors/flink/FlinkPravegaWriter.java:239-270 | It creates a new writer of exactly the kind `SelectWriter` chooses, or throws its exception. |

## Findings

| source | as written | input that shows it | evidently intended | confidence | as-written member | corrected member |
|---|---|---|---|---|---|---|
| src/main/java/io/pravega/connectors/flink/FlinkPravegaWriter.java:571-584 | A failed write records its error but never decrements `pendingWritesCount`, and it never notifies the waiting thread. The wait in `flushAndVerify` (lines 617-621) then never ends, so `snapshotState` and `close` hang instead of throwing the recorded failure. | One write whose completion fails, followed by a checkpoint. | Every completed write leaves the count. The flush then returns and throws the recorded failure once. | medium, not executed (the client's own `flush` may throw first in some failure modes) | `StandardWriters.StandardWriter.OnComplete`, `StandardWriters.FailedWriteNeverDrains` | `StandardWriters.StandardWriter.OnCompleteIntended`, `StandardWriters.CompletedAllIntendedDrains` |

## Behaviour worth knowing

- `notifyCheckpointComplete` checks that the queue is not empty before its loop
  (line 465). A second confirmation that arrives after the queue has been drained
  therefore throws IllegalStateException; it is not a no-op.
  `PendingCommits.RepeatedNotify` states both cases.
- `restoreState` commits a transaction it finds OPEN (line 524) and treats COMMITTED
  and COMMITTING alike as already handled (line 528). The model's commit moves an
  OPEN transaction to COMMITTING, so a second restore of the same list finds it
  handled and commits nothing (`Recovery.RestoreIdempotent`).
- A commit that throws during `notifyCheckpointComplete` has already removed its
  binding (lines 469-478), so that transaction is never retried. Every other
  transaction is left as it was, whatever fails (`PendingCommits.DrainFrame`). A
  lookup or commit that throws during `restoreState` ends the loop (lines 513-535);
  transactions not yet reached, and those that were not OPEN, are left as they were
  (`Recovery.ReconcileFrame`).
- `snapshotState` appends the binding (line 418) before it begins the next
  transaction (line 421). If beginTxn throws, the parked transaction therefore stays
  current and is also queued. The model keeps this order. Distinct ids are
  therefore a conditional invariant (`TransactionWriter.Distinct`). A successful
  `Initialize` establishes it. A successful `SnapshotState` keeps it, and so does
  every `NotifyCheckpointComplete`. Only a snapshot whose second transaction cannot
  be begun breaks it.
- In the at-least-once writer, `flushAndVerify` calls the client's `flush` (line 614)
  before it checks the recorded error. A flush that throws therefore leaves the
  recorded error in place for the next `write`, `snapshotState` or `close`.

## Left out

- TransactionWriters.TransactionWriter.Initialize and
  TransactionWriters.TransactionWriter.SnapshotState: whether a client writer exists
  is the constant `hasClientWriter`, fixed when the writer object is created. The
  source reads the `pravegaWriter` field each time it calls. `invokeWriter` creates
  the writer object (line 180) before `open` creates the client writer (line 182),
  so the model does not capture the field changing between those calls.

- Pravega client calls: they are replaced by the `Store` class and its effect
  functions. Success or failure of each call is the `faults` input. Timeouts are not
  modelled: the duration arguments are not passed to `BeginTxn`, and the store never
  times out a transaction on its own. Every writer contract holds for any store
  state, so a timed-out transaction is simply one that is no longer OPEN.
- Abort or status lookup of a transaction the store does not know, or abort of a
  transaction that is not OPEN: the Pravega client is not part of this model. These
  calls are assumed to throw like a commit does (`TxnFailed`).
- `getTxn` is folded into the status lookup. `Exceptions.handleInterrupted`
  (interrupt wrapping of the abort) is not modelled.
- The writer that `restoreState` creates for its lookups is never closed in the
  source. Resources are not modelled.
- Thread pool, `whenCompleteAsync`, `synchronized`, `wait` and `notify`: this is
  concurrency. Completions are explicit calls (`OnComplete`). The wait loop is the
  precondition that the counter is zero. The executor is never shut down in the
  source; this is not modelled either.
- `StandardWriters.StandardWriter.Write`: an exception thrown synchronously by the
  client's `writeEvent` is not modelled. Every write failure arrives through its
  completion.
- `StandardWriters.StandardWriter.constructor`: the constructor includes
  `initialize`. Calling the writer before `initialize` (a NullPointerException in
  the source) is not modelled.
- `TransactionWriters.TransactionWriter.NotifyCheckpointComplete`: before
  `initialize`, the source's deque is null and the call throws
  NullPointerException. The model's queue starts empty, so the call throws the
  IllegalStateException of the empty-queue check instead.
- Serializers (`FlinkSerializer` and the anonymous `Serializer`) wrap an unseen
  `SerializationSchema`. Events are already serialized payloads here.
- `eventRouter.getRoutingKey` is external routing logic. The routing key is part of
  the `Event` the caller passes in.
- The Flink runtime context (`isCheckpointEnabled`, `name()`), logging, and
  `serialVersionUID` are left out. Checkpointing is a plain boolean argument.
- The sink's forwarding methods (`open`, `invoke`, `close`, `snapshotState`,
  `restoreState`, `notifyCheckpointComplete`) are one-line delegations to the
  selected writer. `open` runs `invokeWriter`, creates the client writer, and calls
  `initialize`; these are modelled separately. `restoreState` runs `invokeWriter`
  before `open` does, and `open` replaces that writer. This replacement is not
  modelled.
- `getEventRouter` and `setPravegaWriterMode` are not modelled; the setter's null
  check is covered because `WriterMode` cannot be null.
- `PravegaWriterMode.java` is not part of this model. The modes are assumed to be
  BEST_EFFORT, ATLEAST_ONCE and EXACTLY_ONCE. Only EXACTLY_ONCE is treated
  specially, as in `invokeWriter`.
- Java `long` widths: checkpoint ids and durations are unbounded integers. The code
  only compares them, so no wrap-around arises.
- A commit after a confirmed checkpoint can fail, and the source accepts the data
  loss (line 476). The model claims no success there. A failed commit ends the loop
  with its binding already removed.
