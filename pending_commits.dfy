/** The queue of transactions that a checkpoint has parked and that wait for the
    checkpoint's confirmation (TransactionWriter.txnsPendingCommit), and what
    notifyCheckpointComplete does to it and to the store. */
module PendingCommits {
  import opened Pravega

  /** TransactionAndCheckpoint: a parked transaction and the checkpoint that parked it. */
  datatype Binding = Binding(txn: TxnId, checkpointId: int)

  const NoPendingMessage := "checkpoint completed, but no transaction pending"

  /** The ids of the queued transactions, front to back: the snapshot payload. */
  function TxnIds(q: seq<Binding>): (ids: seq<TxnId>)
    ensures |ids| == |q|
    ensures forall i :: 0 <= i < |q| ==> ids[i] == q[i].txn
  {
    if q == [] then [] else [q[0].txn] + TxnIds(q[1..])
  }

  /** The commit calls issued for `ids`, in the same order. */
  function CommitCalls(ids: seq<TxnId>): (calls: seq<Call>)
    ensures |calls| == |ids|
    ensures forall i :: 0 <= i < |ids| ==> calls[i] == CommitCall(ids[i])
  {
    if ids == [] then [] else [CommitCall(ids[0])] + CommitCalls(ids[1..])
  }

  /** The length of the longest front prefix of `q` whose checkpoint ids are at most
      `checkpointId`: the bindings that a confirmation of `checkpointId` covers. */
  function DueCount(q: seq<Binding>, checkpointId: int): (n: nat)
    ensures n <= |q|
    ensures forall i :: 0 <= i < n ==> q[i].checkpointId <= checkpointId
    ensures n < |q| ==> q[n].checkpointId > checkpointId
  {
    if q == [] || q[0].checkpointId > checkpointId then 0
    else 1 + DueCount(q[1..], checkpointId)
  }

  /** Checkpoint ids never decrease from the front of the queue to its back. */
  predicate Sorted(q: seq<Binding>)
  {
    forall i, j :: 0 <= i < j < |q| ==> q[i].checkpointId <= q[j].checkpointId
  }

  /** The store, the queue that is left, and what the notification returns or throws. */
  datatype Drained = Drained(txns: map<TxnId, Txn>, rest: seq<Binding>, outcome: Outcome)

  /** The loop of notifyCheckpointComplete: while the front binding is covered by
      `checkpointId`, take it off the queue and then commit its transaction; a
      commit that throws ends the loop, with its binding already removed. */
  function Drain(txns: map<TxnId, Txn>, q: seq<Binding>, checkpointId: int, faults: set<Call>): Drained
    decreases |q|
  {
    if q == [] || q[0].checkpointId > checkpointId then Drained(txns, q, Ok)
    else
      var e := CommitEffect(txns, q[0].txn, faults);
      if e.outcome.Fail? then Drained(e.txns, q[1..], e.outcome)
      else Drain(e.txns, q[1..], checkpointId, faults)
  }

  /** One iteration of the loop: committing the covered front binding leaves a queue
      whose drain, or whose failure, is the drain of the whole queue. */
  lemma DrainStep(txns: map<TxnId, Txn>, q: seq<Binding>, checkpointId: int, faults: set<Call>)
    requires q != [] && q[0].checkpointId <= checkpointId
    ensures var e := CommitEffect(txns, q[0].txn, faults);
      Drain(txns, q, checkpointId, faults) ==
        if e.outcome.Fail? then Drained(e.txns, q[1..], e.outcome) else Drain(e.txns, q[1..], checkpointId, faults)
  {
  }

  /** The transactions a confirmation of `checkpointId` should leave: every
      transaction of the covered prefix is COMMITTING, everything else is as it was. */
  function CommittedDue(txns: map<TxnId, Txn>, q: seq<Binding>, checkpointId: int): (r: map<TxnId, Txn>)
    ensures r.Keys == txns.Keys
  {
    map t | t in txns :: if t in TxnIds(q[..DueCount(q, checkpointId)]) then txns[t].(status := Committing) else txns[t]
  }

  /** notifyCheckpointComplete: a confirmation with nothing pending is a protocol
      violation and throws IllegalStateException, changing nothing. */
  function Notify(txns: map<TxnId, Txn>, q: seq<Binding>, checkpointId: int, faults: set<Call>): Drained
  {
    if q == [] then Drained(txns, q, Fail(Raise(IllegalState(NoPendingMessage))))
    else Drain(txns, q, checkpointId, faults)
  }

  // ---------------------------------------------------------------------------
  //  properties
  // ---------------------------------------------------------------------------

  lemma {:induction false} TxnIdsAppend(q: seq<Binding>, b: Binding)
    ensures TxnIds(q + [b]) == TxnIds(q) + [b.txn]
  {
    if q != [] {
      assert (q + [b])[1..] == q[1..] + [b];
      TxnIdsAppend(q[1..], b);
    }
  }

  /** Parking a binding whose checkpoint id is not below any queued one keeps the
      queue sorted. */
  lemma AppendKeepsSorted(q: seq<Binding>, b: Binding)
    requires Sorted(q)
    requires forall i :: 0 <= i < |q| ==> q[i].checkpointId <= b.checkpointId
    ensures Sorted(q + [b])
  {
  }

  /** The loop removes a front prefix of the queue and leaves the rest as it was. It
      never removes more than the covered prefix; when no commit throws, it removes
      exactly the covered prefix, the longest one whose ids are at most
      `checkpointId`; when a commit throws, that binding is already gone. */
  lemma DrainPopsDuePrefix(txns: map<TxnId, Txn>, q: seq<Binding>, checkpointId: int, faults: set<Call>)
    ensures var d := Drain(txns, q, checkpointId, faults);
      && |d.rest| <= |q|
      && d.rest == q[|q| - |d.rest|..]
      && |q| - |d.rest| <= DueCount(q, checkpointId)
      && (d.outcome.Ok? ==> |q| - |d.rest| == DueCount(q, checkpointId))
      && (d.outcome.Fail? ==> |q| - |d.rest| >= 1)
  {
    DrainLeavesSuffix(txns, q, checkpointId, faults);
    DrainPopCount(txns, q, checkpointId, faults);
  }

  lemma {:induction false} DrainLeavesSuffix(txns: map<TxnId, Txn>, q: seq<Binding>, checkpointId: int, faults: set<Call>)
    ensures var d := Drain(txns, q, checkpointId, faults);
      |d.rest| <= |q| && d.rest == q[|q| - |d.rest|..]
  {
    if q != [] && q[0].checkpointId <= checkpointId {
      var e := CommitEffect(txns, q[0].txn, faults);
      if e.outcome.Ok? {
        DrainLeavesSuffix(e.txns, q[1..], checkpointId, faults);
        var rest := Drain(e.txns, q[1..], checkpointId, faults).rest;
        assert q[1..][|q| - 1 - |rest|..] == q[|q| - |rest|..];
      }
    }
  }

  lemma {:induction false} DrainPopCount(txns: map<TxnId, Txn>, q: seq<Binding>, checkpointId: int, faults: set<Call>)
    ensures var d := Drain(txns, q, checkpointId, faults);
      && |q| - |d.rest| <= DueCount(q, checkpointId)
      && (d.outcome.Ok? ==> |q| - |d.rest| == DueCount(q, checkpointId))
      && (d.outcome.Fail? ==> |q| - |d.rest| >= 1)
  {
    if q != [] && q[0].checkpointId <= checkpointId {
      var e := CommitEffect(txns, q[0].txn, faults);
      if e.outcome.Ok? {
        DrainPopCount(e.txns, q[1..], checkpointId, faults);
      }
    }
  }

  /** When every covered transaction is still OPEN, appears once, and its commit
      reaches the store, the loop commits all of them and nothing else, and leaves
      exactly the uncovered suffix. */
  lemma {:induction false} DrainCommitsDue(txns: map<TxnId, Txn>, q: seq<Binding>, checkpointId: int, faults: set<Call>)
    requires forall i :: 0 <= i < DueCount(q, checkpointId) ==>
      q[i].txn in txns && txns[q[i].txn].status == Open && CommitCall(q[i].txn) !in faults
    requires forall i, j :: 0 <= i < j < DueCount(q, checkpointId) ==> q[i].txn != q[j].txn
    ensures var d := Drain(txns, q, checkpointId, faults);
      && d.outcome == Ok
      && d.rest == q[DueCount(q, checkpointId)..]
      && d.txns.Keys == txns.Keys
      && forall t :: t in txns ==>
           d.txns[t] == if t in TxnIds(q[..DueCount(q, checkpointId)]) then txns[t].(status := Committing) else txns[t]
  {
    var n := DueCount(q, checkpointId);
    if n > 0 {
      var t0 := q[0].txn;
      var e := CommitEffect(txns, t0, faults);
      assert e.txns == txns[t0 := txns[t0].(status := Committing)];
      assert DueCount(q[1..], checkpointId) == n - 1;
      forall i | 0 <= i < n - 1
        ensures q[1..][i].txn != t0
      {
        assert q[1..][i] == q[i + 1];
      }
      DrainCommitsDue(e.txns, q[1..], checkpointId, faults);
      var d := Drain(e.txns, q[1..], checkpointId, faults);
      var later := TxnIds(q[1..][..n - 1]);
      TxnIdsCons(q, n);
      assert t0 !in later by {
        forall j | 0 <= j < |later|
          ensures later[j] != t0
        {
          assert later[j] == q[1..][j].txn;
        }
      }
      forall t | t in txns
        ensures d.txns[t] == if t in [t0] + later then txns[t].(status := Committing) else txns[t]
      {
        assert t in [t0] + later <==> t == t0 || t in later;
      }
    }
  }

  /** The ids of the queued transactions as a set. */
  function Parked(q: seq<Binding>): (s: set<TxnId>)
    ensures forall i :: 0 <= i < |q| ==> q[i].txn in s
    ensures forall t :: t in s ==> exists i :: 0 <= i < |q| && q[i].txn == t
  {
    set b | b in q :: b.txn
  }

  /** Whatever commit throws, the loop changes no transaction except by committing
      an OPEN one among the bindings it took off the queue; every transaction
      outside that removed prefix is left as it was. */
  lemma {:induction false} DrainFrame(txns: map<TxnId, Txn>, q: seq<Binding>, checkpointId: int, faults: set<Call>)
    ensures var d := Drain(txns, q, checkpointId, faults);
      && |d.rest| <= |q|
      && CommitsOnly(txns, d.txns, Parked(q[..|q| - |d.rest|]))
  {
    if q != [] && q[0].checkpointId <= checkpointId {
      var e := CommitEffect(txns, q[0].txn, faults);
      if e.outcome.Ok? {
        DrainFrame(e.txns, q[1..], checkpointId, faults);
        var d := Drain(e.txns, q[1..], checkpointId, faults);
        ParkedCons(q, |q| - |d.rest|);
        CommitsOnlyThen(txns, e.txns, d.txns, {q[0].txn}, Parked(q[1..][..|q| - 1 - |d.rest|]));
      }
    }
  }

  /** The ids of the first `n` bindings are the front id and the ids of the next
      `n - 1`. */
  lemma ParkedCons(q: seq<Binding>, n: nat)
    requires 0 < n <= |q|
    ensures Parked(q[..n]) == {q[0].txn} + Parked(q[1..][..n - 1])
  {
    assert q[..n] == [q[0]] + q[1..][..n - 1];
  }

  /** The ids of the first `n` bindings are the front id followed by the ids of the
      next `n - 1`. */
  lemma TxnIdsCons(q: seq<Binding>, n: nat)
    requires 0 < n <= |q|
    ensures TxnIds(q[..n]) == [q[0].txn] + TxnIds(q[1..][..n - 1])
  {
    assert q[..n][1..] == q[1..][..n - 1];
  }

  /** If the queue was sorted, a notification keeps it sorted, and a notification
      through which no commit threw leaves only bindings of later checkpoints. */
  lemma {:induction false} DrainLeavesLaterCheckpoints(txns: map<TxnId, Txn>, q: seq<Binding>, checkpointId: int, faults: set<Call>)
    requires Sorted(q)
    ensures var d := Drain(txns, q, checkpointId, faults);
      && Sorted(d.rest)
      && (d.outcome.Ok? ==> forall i :: 0 <= i < |d.rest| ==> d.rest[i].checkpointId > checkpointId)
  {
    var d := Drain(txns, q, checkpointId, faults);
    DrainPopsDuePrefix(txns, q, checkpointId, faults);
    SortedSuffixAbove(q, |q| - |d.rest|, checkpointId, d.outcome.Ok?);
  }

  /** The suffix of a sorted queue after index `k` is sorted, and when `k` is the
      covered count every binding in it is above `bound`. */
  lemma SortedSuffixAbove(q: seq<Binding>, k: nat, bound: int, covered: bool)
    requires Sorted(q) && k <= |q|
    requires covered ==> k == DueCount(q, bound)
    ensures Sorted(q[k..])
    ensures covered ==> forall i :: 0 <= i < |q[k..]| ==> q[k..][i].checkpointId > bound
  {
    SuffixSorted(q, k);
    if covered {
      forall i | 0 <= i < |q[k..]|
        ensures q[k..][i].checkpointId > bound
      {
        assert q[k..][i] == q[k + i];
        assert q[k].checkpointId <= q[k + i].checkpointId;
      }
    }
  }

  /** Every suffix of a sorted queue is sorted. */
  lemma SuffixSorted(q: seq<Binding>, k: nat)
    requires k <= |q|
    ensures Sorted(q) ==> Sorted(q[k..])
  {
  }

  /** A confirmation older than the front of the queue (delayed or duplicate) changes
      nothing and does not throw. */
  lemma StaleNotifyChangesNothing(txns: map<TxnId, Txn>, q: seq<Binding>, checkpointId: int, faults: set<Call>)
    requires q != [] && q[0].checkpointId > checkpointId
    ensures Notify(txns, q, checkpointId, faults) == Drained(txns, q, Ok)
  {
  }

  /** A second confirmation that is not newer than a first, successful one on a
      sorted queue is harmless only while something is still pending: it changes
      nothing if bindings remain, and throws on the drained queue otherwise. */
  lemma RepeatedNotify(txns: map<TxnId, Txn>, q: seq<Binding>, first: int, second: int, faults1: set<Call>, faults2: set<Call>)
    requires Sorted(q) && second <= first
    requires Notify(txns, q, first, faults1).outcome.Ok?
    ensures var d1 := Notify(txns, q, first, faults1);
            var d2 := Notify(d1.txns, d1.rest, second, faults2);
      if d1.rest == [] then
        d2 == Drained(d1.txns, [], Fail(Raise(IllegalState(NoPendingMessage))))
      else
        d2 == Drained(d1.txns, d1.rest, Ok)
  {
    DrainLeavesLaterCheckpoints(txns, q, first, faults1);
  }
}
