/** The exactly-once writer (FlinkPravegaWriter.TransactionWriter): events go into
    one current transaction; a checkpoint flushes and parks it and opens the next;
    a checkpoint confirmation commits the parked transactions it covers. */
module TransactionWriters {
  import opened Pravega
  import opened PendingCommits
  import opened Recovery

  const NoTransactionMessage := "bug: no transaction object when performing state snapshot"

  class TransactionWriter {
    /** the store behind the client writer */
    const store: Store
    /** the client writer was created (pravegaWriter != null) */
    const hasClientWriter: bool
    /** currentTxn; None before initialize */
    var currentTxn: Option<TxnId>
    /** txnsPendingCommit, front first */
    var pending: seq<Binding>

    ghost predicate Valid()
      reads this, store
    {
      && store.Valid()
      && (currentTxn.Some? ==> currentTxn.value in store.txns)
      && (forall i :: 0 <= i < |pending| ==> pending[i].txn in store.txns)
    }

    /** One binding per parked transaction, and the current transaction is not parked:
        what the source relies on when it commits each parked transaction once. */
    ghost predicate Distinct()
      reads this
    {
      DistinctIds(pending, currentTxn)
    }

    constructor (store: Store, hasClientWriter: bool)
      requires store.Valid()
      ensures Valid()
      ensures this.store == store && this.hasClientWriter == hasClientWriter
      ensures currentTxn == None && pending == []
    {
      this.store := store;
      this.hasClientWriter := hasClientWriter;
      currentTxn := None;
      pending := [];
    }

    /** Begins the transaction that holds the events up to the first checkpoint and
        starts with an empty queue. Without a client writer the call throws
        NullPointerException before anything happens. */
    method Initialize(faults: set<Call>) returns (r: Outcome)
      requires Valid()
      modifies this, store
      ensures Valid()
      ensures r.Ok? ==> Distinct()
      ensures !hasClientWriter ==>
        && r == Fail(Raise(NullPointer("")))
        && unchanged(store) && currentTxn == old(currentTxn) && pending == old(pending)
      ensures hasClientWriter ==> store.calls == old(store.calls) + [BeginCall]
      ensures hasClientWriter && BeginCall in faults ==> r == Fail(Raise(Remote(BeginCall)))
      ensures hasClientWriter && BeginCall in faults ==>
        && store.txns == old(store.txns) && store.nextId == old(store.nextId)
        && currentTxn == old(currentTxn) && pending == old(pending)
      ensures hasClientWriter && BeginCall !in faults ==> r == Ok && pending == []
      ensures hasClientWriter && BeginCall !in faults ==> currentTxn.Some? && currentTxn.value !in old(store.txns)
      ensures hasClientWriter && BeginCall !in faults ==> store.txns == old(store.txns)[currentTxn.value := Txn(Open, [])]
    {
      if !hasClientWriter {
        return Fail(Raise(NullPointer("")));
      }
      var b := store.BeginTxn(faults);
      if b.Failure? {
        return Fail(b.error);
      }
      currentTxn := Some(b.value);
      pending := [];
      r := Ok;
    }

    /** Appends the event to the current transaction. */
    method Write(event: Event, faults: set<Call>) returns (r: Outcome)
      requires Valid()
      modifies store
      ensures Valid()
      ensures old(currentTxn).None? ==> r == Fail(Raise(NullPointer(""))) && unchanged(store)
      ensures old(currentTxn).Some? ==>
        var t := old(currentTxn).value;
        && store.calls == old(store.calls) + [WriteCall(t)]
        && r == RequireOpen(old(store.txns), t, WriteCall(t), faults)
        && store.nextId == old(store.nextId)
        && store.txns == if r.Ok? then old(store.txns)[t := Txn(Open, old(store.txns)[t].events + [event])]
                         else old(store.txns)
    {
      if currentTxn.None? {
        return Fail(Raise(NullPointer("")));
      }
      r := store.WriteEvent(currentTxn.value, event, faults);
    }

    /** The pre-commit of the two-phase commit: flush the current transaction, park it
        behind the queued ones, begin the next one, and return the ids of all queued
        transactions, front first. The binding is queued before the next transaction
        is begun, so when beginTxn throws (or there is no client writer to begin it)
        the parked transaction stays current. */
    method SnapshotState(checkpointId: int, faults: set<Call>) returns (r: Result<seq<TxnId>>)
      requires Valid()
      modifies this, store
      ensures Valid()
      ensures old(Distinct()) && r.Success? ==> Distinct()
      ensures old(currentTxn).None? ==>
        && r == Failure(Raise(IllegalState(NoTransactionMessage)))
        && currentTxn == old(currentTxn) && pending == old(pending) && unchanged(store)
      ensures old(currentTxn).Some? ==>
        var parked := old(currentTxn).value;
        var flushed := RequireOpen(old(store.txns), parked, FlushCall(parked), faults);
        && (flushed.Fail? ==>
              && r == Failure(flushed.error)
              && currentTxn == old(currentTxn) && pending == old(pending) && store.txns == old(store.txns)
              && store.nextId == old(store.nextId) && store.calls == old(store.calls) + [FlushCall(parked)])
        && (flushed.Ok? ==> pending == old(pending) + [Binding(parked, checkpointId)])
        && (flushed.Ok? && !hasClientWriter ==>
              && r == Failure(Raise(NullPointer("")))
              && currentTxn == old(currentTxn) && store.txns == old(store.txns)
              && store.nextId == old(store.nextId) && store.calls == old(store.calls) + [FlushCall(parked)])
        && (flushed.Ok? && hasClientWriter && BeginCall in faults ==>
              && r == Failure(Raise(Remote(BeginCall)))
              && currentTxn == old(currentTxn) && store.txns == old(store.txns)
              && store.nextId == old(store.nextId) && store.calls == old(store.calls) + [FlushCall(parked), BeginCall])
        && (flushed.Ok? && hasClientWriter && BeginCall !in faults ==>
              && r == Success(TxnIds(pending))
              && r.value[|r.value| - 1] == parked
              && currentTxn.Some? && currentTxn.value !in old(store.txns)
              && store.txns == old(store.txns)[currentTxn.value := Txn(Open, [])]
              && store.calls == old(store.calls) + [FlushCall(parked), BeginCall])
      ensures Sorted(old(pending)) && (forall i :: 0 <= i < |old(pending)| ==> old(pending)[i].checkpointId <= checkpointId) ==>
        Sorted(pending)
    {
      if currentTxn.None? {
        return Failure(Raise(IllegalState(NoTransactionMessage)));
      }
      var txn := currentTxn.value;
      var flushed := store.Flush(txn, faults);
      if flushed.Fail? {
        return Failure(flushed.error);
      }
      ghost var queue0, txns0 := pending, store.txns;
      pending := pending + [Binding(txn, checkpointId)];
      if !hasClientWriter {
        return Failure(Raise(NullPointer("")));
      }
      var next := store.BeginTxn(faults);
      if next.Failure? {
        return Failure(next.error);
      }
      currentTxn := Some(next.value);
      ParkKeepsDistinct(queue0, Binding(txn, checkpointId), next.value, txns0);
      r := Success(TxnIds(pending));
    }

    /** The commit of the two-phase commit: commit, front first, every parked
        transaction whose checkpoint the confirmation covers. Throws when nothing is
        pending. The current transaction is not touched. */
    method NotifyCheckpointComplete(checkpointId: int, faults: set<Call>) returns (r: Outcome)
      requires Valid()
      modifies this, store
      ensures Valid()
      ensures currentTxn == old(currentTxn) && store.nextId == old(store.nextId)
      ensures store.txns.Keys == old(store.txns).Keys
      ensures Drained(store.txns, pending, r) == Notify(old(store.txns), old(pending), checkpointId, faults)
      ensures |pending| <= |old(pending)| && pending == old(pending)[|old(pending)| - |pending|..]
      ensures store.calls == old(store.calls) + CommitCalls(TxnIds(old(pending)[..|old(pending)| - |pending|]))
      ensures Sorted(old(pending)) ==> Sorted(pending)
      ensures old(Distinct()) ==> Distinct()
      ensures old(Distinct()) && old(pending) != [] && CoveredCommittable(old(store.txns), old(pending), checkpointId, faults) ==>
        Drained(store.txns, pending, r) ==
          Drained(CommittedDue(old(store.txns), old(pending), checkpointId), old(pending)[DueCount(old(pending), checkpointId)..], Ok)
    {
      if pending == [] {
        return Fail(Raise(IllegalState(NoPendingMessage)));
      }
      ghost var queue0 := pending;
      if Distinct() && CoveredCommittable(store.txns, pending, checkpointId, faults) {
        WriterQueueCommitsDue(store.txns, pending, currentTxn, checkpointId, faults);
      }
      var rest, outcome := CommitCovered(store, pending, checkpointId, faults);
      SuffixKeepsDistinct(queue0, |queue0| - |rest|, currentTxn);
      pending := rest;
      r := outcome;
    }

    /** After a restart: commit every restored transaction that is still OPEN. The
        queue and the current transaction are not touched. */
    method RestoreState(list: Option<seq<Option<TxnId>>>, faults: set<Call>) returns (r: Outcome)
      requires Valid()
      modifies store
      ensures Valid()
      ensures currentTxn == old(currentTxn) && pending == old(pending) && store.nextId == old(store.nextId)
      ensures Effect(store.txns, r) == Restore(old(store.txns), list, faults)
      ensures store.calls == old(store.calls) + RestoreCalls(old(store.txns), list, faults)
    {
      if list.None? || |list.value| == 0 {
        return Ok;
      }
      var created := store.Invoke(CreateWriterCall, faults);
      if created.Fail? {
        return created;
      }
      r := ReconcileAll(store, list.value, faults);
    }

    /** Aborts the current transaction and closes the client writer, attempting the
        second even when the first throws; the abort's exception wins and a later one
        is added to it as suppressed. */
    method Close(faults: set<Call>) returns (r: Outcome)
      requires Valid()
      modifies store
      ensures Valid()
      ensures store.nextId == old(store.nextId)
      ensures store.calls == old(store.calls)
        + (if currentTxn.Some? then [AbortCall(currentTxn.value)] else [])
        + (if hasClientWriter then [CloseWriterCall] else [])
      ensures var abort := if currentTxn.Some? then AbortEffect(old(store.txns), currentTxn.value, faults)
                           else Effect(old(store.txns), Ok);
              var close := if hasClientWriter then Reach(CloseWriterCall, faults) else Ok;
        && store.txns == abort.txns
        && (abort.outcome.Fail? && close.Fail? ==>
              r == Fail(abort.outcome.error.(suppressed := abort.outcome.error.suppressed + [close.error])))
        && (abort.outcome.Fail? && close.Ok? ==> r == abort.outcome)
        && (abort.outcome.Ok? ==> r == close)
    {
      var exception: Option<Exn> := None;
      if currentTxn.Some? {
        var aborted := store.Abort(currentTxn.value, faults);
        if aborted.Fail? {
          exception := Some(aborted.error);
        }
      }
      if hasClientWriter {
        var closed := store.Invoke(CloseWriterCall, faults);
        if closed.Fail? {
          exception := Some(FirstOrSuppressed(closed.error, exception));
        }
      }
      r := if exception.Some? then Fail(exception.value) else Ok;
    }
  }

  /** The loop of notifyCheckpointComplete on the queue `q`: commits the covered
      bindings front first and returns the queue that is left and the outcome. */
  method CommitCovered(store: Store, q: seq<Binding>, checkpointId: int, faults: set<Call>)
    returns (rest: seq<Binding>, r: Outcome)
    requires store.Valid()
    requires forall i :: 0 <= i < |q| ==> q[i].txn in store.txns
    modifies store
    ensures store.Valid() && store.txns.Keys == old(store.txns.Keys) && store.nextId == old(store.nextId)
    ensures forall i :: 0 <= i < |rest| ==> rest[i].txn in store.txns
    ensures Sorted(q) ==> Sorted(rest)
    ensures Drained(store.txns, rest, r) == Drain(old(store.txns), q, checkpointId, faults)
    ensures |rest| <= |q| && rest == q[|q| - |rest|..]
    ensures store.calls == old(store.calls) + CommitCalls(TxnIds(q[..|q| - |rest|]))
  {
    ghost var k := 0;
    rest, r := q, Ok;
    while r.Ok? && rest != [] && rest[0].checkpointId <= checkpointId
      invariant store.Valid() && store.txns.Keys == old(store.txns.Keys) && store.nextId == old(store.nextId)
      invariant 0 <= k <= |q| && rest == q[k..]
      invariant r.Ok? ==>
        Drain(store.txns, rest, checkpointId, faults) == Drain(old(store.txns), q, checkpointId, faults)
      invariant r.Fail? ==>
        Drained(store.txns, rest, r) == Drain(old(store.txns), q, checkpointId, faults)
      invariant store.calls == old(store.calls) + CommitCalls(TxnIds(q[..k]))
      decreases |rest|
    {
      var b := rest[0];
      DrainStep(store.txns, rest, checkpointId, faults);
      CommittedPrefixGrows(q, k);
      LogGrows(old(store.calls), CommitCalls(TxnIds(q[..k])), CommitCall(b.txn));
      rest := rest[1..];
      k := k + 1;
      r := store.Commit(b.txn, faults);
    }
    SuffixSorted(q, k);
    SuffixInStore(q, k, store.txns);
  }

  /** The loop of restoreState over the restored list: look up each non-null id and
      commit it when it is OPEN; the first exception ends the loop. */
  method ReconcileAll(store: Store, ids: seq<Option<TxnId>>, faults: set<Call>) returns (r: Outcome)
    requires store.Valid()
    modifies store
    ensures store.Valid() && store.nextId == old(store.nextId) && store.txns.Keys == old(store.txns.Keys)
    ensures Effect(store.txns, r) == Reconcile(old(store.txns), ids, faults)
    ensures store.calls == old(store.calls) + ReconcileCalls(old(store.txns), ids, faults)
  {
    for i := 0 to |ids|
      invariant store.Valid() && store.nextId == old(store.nextId) && store.txns.Keys == old(store.txns.Keys)
      invariant Reconcile(store.txns, ids[i..], faults) == Reconcile(old(store.txns), ids, faults)
      invariant store.calls + ReconcileCalls(store.txns, ids[i..], faults)
        == old(store.calls) + ReconcileCalls(old(store.txns), ids, faults)
    {
      ghost var log := store.calls;
      ReconcileHead(store.txns, ids[i..], faults);
      assert ids[i..][1..] == ids[i + 1..];
      var id := ids[i];
      if id.Some? {
        var status := store.CheckStatus(id.value, faults);
        if status.Failure? {
          return Fail(status.error);
        }
        if status.value == Open {
          var c := store.Commit(id.value, faults);
          LogGrows(log, [StatusCall(id.value)], CommitCall(id.value));
          if c.Fail? {
            return c;
          }
        } else if status.value == Committed || status.value == Committing {
          // already committed before the restart
        } else {
          // timed out or aborted between the failure and the restore: only a warning
        }
      }
    }
    r := Ok;
  }

  /** One step of the restore loop: a null id is skipped; otherwise the lookup, and
      the commit of an OPEN transaction, come first, and a failing call ends it. */
  lemma ReconcileHead(txns: map<TxnId, Txn>, ids: seq<Option<TxnId>>, faults: set<Call>)
    requires ids != []
    ensures ids[0].None? ==>
      && Reconcile(txns, ids, faults) == Reconcile(txns, ids[1..], faults)
      && ReconcileCalls(txns, ids, faults) == ReconcileCalls(txns, ids[1..], faults)
    ensures ids[0].Some? ==>
      var id := ids[0].value;
      var status := StatusOf(txns, id, faults);
      var e := ReconcileOne(txns, id, faults);
      var head := if status.Success? && status.value == Open then [StatusCall(id), CommitCall(id)] else [StatusCall(id)];
      && (e.outcome.Fail? ==> Reconcile(txns, ids, faults) == e && ReconcileCalls(txns, ids, faults) == head)
      && (e.outcome.Ok? ==>
            && Reconcile(txns, ids, faults) == Reconcile(e.txns, ids[1..], faults)
            && ReconcileCalls(txns, ids, faults) == head + ReconcileCalls(e.txns, ids[1..], faults))
  {
  }

  lemma SuffixInStore(q: seq<Binding>, k: nat, txns: map<TxnId, Txn>)
    requires k <= |q|
    requires forall i :: 0 <= i < |q| ==> q[i].txn in txns
    ensures forall i :: 0 <= i < |q[k..]| ==> q[k..][i].txn in txns
  {
    forall i | 0 <= i < |q[k..]|
      ensures q[k..][i].txn in txns
    {
      assert q[k..][i] == q[k + i];
    }
  }

  /** No two bindings of `q` park the same transaction, and `current` is none of them. */
  ghost predicate DistinctIds(q: seq<Binding>, current: Option<TxnId>)
  {
    && (forall i, j :: 0 <= i < j < |q| ==> q[i].txn != q[j].txn)
    && (current.Some? ==> forall i :: 0 <= i < |q| ==> q[i].txn != current.value)
  }

  /** Parking the current transaction and beginning one the store has never seen keeps
      the parked transactions distinct from each other and from the new current one. */
  lemma ParkKeepsDistinct(q: seq<Binding>, parked: Binding, next: TxnId, txns: map<TxnId, Txn>)
    requires forall i :: 0 <= i < |q| ==> q[i].txn in txns
    requires parked.txn in txns && next !in txns
    ensures DistinctIds(q, Some(parked.txn)) ==> DistinctIds(q + [parked], Some(next))
  {
    if !DistinctIds(q, Some(parked.txn)) {
      return;
    }
    var q' := q + [parked];
    forall i, j | 0 <= i < j < |q'|
      ensures q'[i].txn != q'[j].txn
    {
      if j == |q| {
        assert q'[i] == q[i];
      } else {
        assert q'[i] == q[i] && q'[j] == q[j];
      }
    }
    forall i | 0 <= i < |q'|
      ensures q'[i].txn != next
    {
      if i < |q| {
        assert q'[i] == q[i];
      }
    }
  }

  /** Every transaction the confirmation of `checkpointId` covers is still OPEN and
      its commit reaches the store. */
  ghost predicate CoveredCommittable(txns: map<TxnId, Txn>, q: seq<Binding>, checkpointId: int, faults: set<Call>)
  {
    forall i :: 0 <= i < DueCount(q, checkpointId) ==>
      q[i].txn in txns && txns[q[i].txn].status == Open && CommitCall(q[i].txn) !in faults
  }

  /** On a queue the writer keeps distinct, a confirmation whose covered transactions
      are all still OPEN and reachable commits exactly those and leaves the rest. */
  lemma WriterQueueCommitsDue(txns: map<TxnId, Txn>, q: seq<Binding>, current: Option<TxnId>,
                              checkpointId: int, faults: set<Call>)
    requires DistinctIds(q, current)
    requires CoveredCommittable(txns, q, checkpointId, faults)
    ensures Drain(txns, q, checkpointId, faults) ==
      Drained(CommittedDue(txns, q, checkpointId), q[DueCount(q, checkpointId)..], Ok)
  {
    DrainCommitsDue(txns, q, checkpointId, faults);
    var d := Drain(txns, q, checkpointId, faults);
    assert d.txns == CommittedDue(txns, q, checkpointId);
  }

  /** What is left of a queue after its front is committed stays distinct. */
  lemma SuffixKeepsDistinct(q: seq<Binding>, k: int, current: Option<TxnId>)
    requires 0 <= k <= |q|
    ensures DistinctIds(q, current) ==> DistinctIds(q[k..], current)
  {
    if DistinctIds(q, current) {
      forall i, j | 0 <= i < j < |q[k..]|
        ensures q[k..][i].txn != q[k..][j].txn
      {
        assert q[k..][i] == q[k + i] && q[k..][j] == q[k + j];
      }
      if current.Some? {
        forall i | 0 <= i < |q[k..]|
          ensures q[k..][i].txn != current.value
        {
          assert q[k..][i] == q[k + i];
        }
      }
    }
  }

  /** Appending one call to a log that already holds `log` and then `calls`. */
  lemma LogGrows(log: seq<Call>, calls: seq<Call>, c: Call)
    ensures log + calls + [c] == log + (calls + [c])
  {
  }

  /** Committing the binding at index `k` extends the commit calls of the first `k`. */
  lemma CommittedPrefixGrows(q: seq<Binding>, k: nat)
    requires k < |q|
    ensures CommitCalls(TxnIds(q[..k + 1])) == CommitCalls(TxnIds(q[..k])) + [CommitCall(q[k].txn)]
  {
    assert q[..k + 1] == q[..k] + [q[k]];
    TxnIdsAppend(q[..k], q[k]);
  }
}
