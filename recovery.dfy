/** What TransactionWriter.restoreState does to the store: after a restart it looks
    up every transaction id of a restored snapshot and commits the ones still OPEN. */
module Recovery {
  import opened Pravega

  /** One id of the list: an OPEN transaction is committed; a COMMITTING or
      COMMITTED one is left alone; any other status is only logged as a warning. */
  function ReconcileOne(txns: map<TxnId, Txn>, id: TxnId, faults: set<Call>): Effect
  {
    var status := StatusOf(txns, id, faults);
    if status.Failure? then Effect(txns, Fail(status.error))
    else if status.value == Open then CommitEffect(txns, id, faults)
    else Effect(txns, Ok)
  }

  /** The loop over the restored list, front to back; null ids are skipped and the
      first exception ends the loop. */
  function Reconcile(txns: map<TxnId, Txn>, ids: seq<Option<TxnId>>, faults: set<Call>): Effect
    decreases |ids|
  {
    if ids == [] then Effect(txns, Ok)
    else if ids[0].None? then Reconcile(txns, ids[1..], faults)
    else
      var e := ReconcileOne(txns, ids[0].value, faults);
      if e.outcome.Fail? then e else Reconcile(e.txns, ids[1..], faults)
  }

  /** restoreState: a null or empty list does nothing at all; otherwise a writer is
      created for the lookups before the loop runs. */
  function Restore(txns: map<TxnId, Txn>, list: Option<seq<Option<TxnId>>>, faults: set<Call>): Effect
  {
    if list.None? || |list.value| == 0 then Effect(txns, Ok)
    else if CreateWriterCall in faults then Effect(txns, Reach(CreateWriterCall, faults))
    else Reconcile(txns, list.value, faults)
  }

  /** The client calls the loop issues, in order: a status lookup per non-null id,
      followed by a commit when the transaction is OPEN; the first call that throws
      is the last one. */
  function ReconcileCalls(txns: map<TxnId, Txn>, ids: seq<Option<TxnId>>, faults: set<Call>): (calls: seq<Call>)
    ensures forall c :: c in calls ==> (c.StatusCall? || c.CommitCall?) && Some(c.txn) in ids
    decreases |ids|
  {
    if ids == [] then []
    else if ids[0].None? then
      var tail := ReconcileCalls(txns, ids[1..], faults);
      InCons(ids);
      tail
    else
      var id := ids[0].value;
      var status := StatusOf(txns, id, faults);
      var e := ReconcileOne(txns, id, faults);
      var head := if status.Success? && status.value == Open then [StatusCall(id), CommitCall(id)] else [StatusCall(id)];
      if e.outcome.Fail? then head
      else
        var tail := ReconcileCalls(e.txns, ids[1..], faults);
        InCons(ids);
        head + tail
  }

  /** The client calls restoreState issues: none for a null or empty list; otherwise
      the creation of a writer and then, if that succeeds, the calls of the loop. */
  function RestoreCalls(txns: map<TxnId, Txn>, list: Option<seq<Option<TxnId>>>, faults: set<Call>): seq<Call>
  {
    if list.None? || |list.value| == 0 then []
    else if CreateWriterCall in faults then [CreateWriterCall]
    else [CreateWriterCall] + ReconcileCalls(txns, list.value, faults)
  }

  /** Every non-null id of `ids` is a transaction of the store, and its status
      lookup and its commit both reach the store. */
  ghost predicate Reachable(txns: map<TxnId, Txn>, ids: seq<Option<TxnId>>, faults: set<Call>)
  {
    forall i :: 0 <= i < |ids| && ids[i].Some? ==>
      ids[i].value in txns && StatusCall(ids[i].value) !in faults && CommitCall(ids[i].value) !in faults
  }

  /** The transactions the reconciliation leaves behind: every listed OPEN
      transaction becomes COMMITTING, everything else is as it was. */
  function Reconciled(txns: map<TxnId, Txn>, ids: seq<Option<TxnId>>): (r: map<TxnId, Txn>)
    ensures r.Keys == txns.Keys
  {
    map t | t in txns :: if Some(t) in ids && txns[t].status == Open then txns[t].(status := Committing) else txns[t]
  }

  /** With every lookup and commit reaching the store, reconciliation succeeds,
      commits exactly the listed OPEN transactions, and leaves the COMMITTING,
      COMMITTED and ABORTED ones and every unlisted transaction unchanged. */
  lemma {:induction false} ReconcileCommitsOpen(txns: map<TxnId, Txn>, ids: seq<Option<TxnId>>, faults: set<Call>)
    requires Reachable(txns, ids, faults)
    ensures Reconcile(txns, ids, faults) == Effect(Reconciled(txns, ids), Ok)
  {
    if ids != [] {
      InCons(ids);
      if ids[0].None? {
        ReachableTail(txns, ids, faults, txns);
        ReconcileCommitsOpen(txns, ids[1..], faults);
        assert Reconciled(txns, ids[1..]) == Reconciled(txns, ids);
      } else {
        var id := ids[0].value;
        var after := if txns[id].status == Open then txns[id := txns[id].(status := Committing)] else txns;
        assert ReconcileOne(txns, id, faults) == Effect(after, Ok);
        ReachableTail(txns, ids, faults, after);
        ReconcileCommitsOpen(after, ids[1..], faults);
        ReconciledStep(txns, ids, after);
      }
    }
  }

  /** The rest of a reachable list stays reachable in a store with the same ids. */
  lemma ReachableTail(txns: map<TxnId, Txn>, ids: seq<Option<TxnId>>, faults: set<Call>, after: map<TxnId, Txn>)
    requires ids != [] && Reachable(txns, ids, faults) && after.Keys == txns.Keys
    ensures Reachable(after, ids[1..], faults)
  {
    forall i | 0 <= i < |ids[1..]| && ids[1..][i].Some?
      ensures ids[1..][i].value in after
    {
      assert ids[1..][i] == ids[i + 1];
    }
  }

  /** Reconciling the head and then the rest leaves what reconciling the list does. */
  lemma ReconciledStep(txns: map<TxnId, Txn>, ids: seq<Option<TxnId>>, after: map<TxnId, Txn>)
    requires ids != [] && ids[0].Some? && ids[0].value in txns
    requires after == if txns[ids[0].value].status == Open
      then txns[ids[0].value := txns[ids[0].value].(status := Committing)] else txns
    ensures Reconciled(after, ids[1..]) == Reconciled(txns, ids)
  {
    InCons(ids);
    forall t | t in txns
      ensures Reconciled(after, ids[1..])[t] == Reconciled(txns, ids)[t]
    {
      if t != ids[0].value {
        assert (Some(t) in ids) == (Some(t) in ids[1..]);
      }
    }
  }

  /** Membership in a non-empty list: the head or a member of the tail. */
  lemma InCons(ids: seq<Option<TxnId>>)
    requires ids != []
    ensures forall x :: x in ids <==> x == ids[0] || x in ids[1..]
  {
    assert ids == [ids[0]] + ids[1..];
  }

  /** The ids a restored list names, null entries left out. */
  function Listed(ids: seq<Option<TxnId>>): (s: set<TxnId>)
    ensures forall t :: t in s <==> Some(t) in ids
  {
    set o | o in ids && o.Some? :: o.value
  }

  /** Whatever lookup or commit throws, reconciliation changes no transaction except
      by committing a listed OPEN one: COMMITTING, COMMITTED, ABORTED and unlisted
      transactions are left as they are, also on the path that ends in an exception. */
  lemma {:induction false} ReconcileFrame(txns: map<TxnId, Txn>, ids: seq<Option<TxnId>>, faults: set<Call>)
    ensures CommitsOnly(txns, Reconcile(txns, ids, faults).txns, Listed(ids))
  {
    if ids != [] {
      InCons(ids);
      if ids[0].None? {
        ReconcileFrame(txns, ids[1..], faults);
        assert Listed(ids[1..]) == Listed(ids);
      } else {
        var e := ReconcileOne(txns, ids[0].value, faults);
        if e.outcome.Ok? {
          ReconcileFrame(e.txns, ids[1..], faults);
          assert Listed(ids) == {ids[0].value} + Listed(ids[1..]);
          CommitsOnlyThen(txns, e.txns, Reconcile(e.txns, ids[1..], faults).txns, {ids[0].value}, Listed(ids[1..]));
        }
      }
    }
  }

  /** restoreState, whatever fails: only listed OPEN transactions are committed, and
      a null list changes nothing. */
  lemma RestoreFrame(txns: map<TxnId, Txn>, list: Option<seq<Option<TxnId>>>, faults: set<Call>)
    ensures list.None? ==> Restore(txns, list, faults).txns == txns
    ensures list.Some? ==> CommitsOnly(txns, Restore(txns, list, faults).txns, Listed(list.value))
  {
    if list.Some? {
      ReconcileFrame(txns, list.value, faults);
    }
  }

  /** The recovery properties of restoreState: a null or empty list changes nothing;
      otherwise, when everything reaches the store, the listed OPEN transactions are
      committed and nothing else changes. */
  lemma RestoreCommitsOpen(txns: map<TxnId, Txn>, list: Option<seq<Option<TxnId>>>, faults: set<Call>)
    requires list.Some? && list.value != [] ==> Reachable(txns, list.value, faults) && CreateWriterCall !in faults
    ensures list.None? || list.value == [] ==> Restore(txns, list, faults) == Effect(txns, Ok)
    ensures list.Some? ==> Restore(txns, list, faults) == Effect(Reconciled(txns, list.value), Ok)
    ensures list.Some? ==> forall t :: t in txns && Some(t) in list.value && txns[t].status == Open ==>
      Restore(txns, list, faults).txns[t].status == Committing
  {
    if list.Some? && list.value != [] {
      ReconcileCommitsOpen(txns, list.value, faults);
    } else if list.Some? {
      assert Reconciled(txns, list.value) == txns;
    }
  }

  /** Running the loop a second time over the store the first run left, under the
      same failures, changes nothing more and ends the same way: every id the first
      run got past is no longer OPEN, and the first failing call fails again. */
  lemma {:induction false} ReconcileIdempotent(txns: map<TxnId, Txn>, ids: seq<Option<TxnId>>, faults: set<Call>)
    ensures var once := Reconcile(txns, ids, faults);
      Reconcile(once.txns, ids, faults) == once
  {
    if ids != [] {
      if ids[0].None? {
        ReconcileIdempotent(txns, ids[1..], faults);
      } else {
        var id := ids[0].value;
        var e := ReconcileOne(txns, id, faults);
        if e.outcome.Ok? {
          ReconcileIdempotent(e.txns, ids[1..], faults);
          ReconcileFrame(e.txns, ids[1..], faults);
          assert id in e.txns && e.txns[id].status != Open;
        }
      }
    }
  }

  /** Restoring the same list twice, whatever fails, has the effect of restoring it
      once. */
  lemma RestoreIdempotent(txns: map<TxnId, Txn>, list: Option<seq<Option<TxnId>>>, faults: set<Call>)
    ensures var once := Restore(txns, list, faults);
      Restore(once.txns, list, faults) == once
  {
    if list.Some? && list.value != [] && CreateWriterCall !in faults {
      ReconcileIdempotent(txns, list.value, faults);
    }
  }
}
