/** The Pravega client as the two writers see it: transaction ids and their status,
    the exceptions that the client and the connector throw, and the store-side
    effect of every client call.

    The store is a map from transaction id to transaction. Whether the network
    lets a call through is an input: every operation takes `faults`, the set of
    client calls that throw on their way to the store. */
module Pravega {

  type TxnId = nat

  datatype Option<T> = None | Some(value: T)

  /** Transaction.Status */
  datatype Status = Open | Committing | Committed | Aborted

  /** An event as the store keeps it: the routing key chosen for it and its serialized form. */
  datatype Event = Event(routingKey: string, payload: seq<int>)

  datatype Txn = Txn(status: Status, events: seq<Event>)

  /** The client calls the writers issue. */
  datatype Call =
    | BeginCall
    | WriteCall(txn: TxnId)
    | FlushCall(txn: TxnId)
    | CommitCall(txn: TxnId)
    | AbortCall(txn: TxnId)
    | StatusCall(txn: TxnId)
    | CreateWriterCall
    | FlushWriterCall
    | CloseWriterCall

  /** The exception classes thrown on the paths the model covers. */
  datatype Kind =
    | NullPointer(message: string)
    | IllegalArgument(message: string)
    | IllegalState(message: string)
    | UnsupportedOperation(message: string)
    | TxnFailed(txn: TxnId)          // the transaction is no longer OPEN
    | Remote(call: Call)             // the call did not reach the store
    | WriteFailure(cause: Exn)       // IOException("Write failure", cause)

  /** A thrown exception together with the exceptions added to it as suppressed. */
  datatype Exn = Exn(kind: Kind, suppressed: seq<Exn>)

  function Raise(kind: Kind): Exn
  {
    Exn(kind, [])
  }

  /** The result of a call that returns nothing: it returns normally or throws. */
  datatype Outcome = Ok | Fail(error: Exn)

  datatype Result<T> = Success(value: T) | Failure(error: Exn)

  /** ExceptionUtils.firstOrSuppressed: the first exception wins and every later one
      is appended to its suppressed list. */
  function FirstOrSuppressed(e: Exn, previous: Option<Exn>): (r: Exn)
    ensures previous.None? ==> r == e
    ensures previous.Some? ==> r.kind == previous.value.kind
    ensures previous.Some? ==> r.suppressed == previous.value.suppressed + [e]
  {
    match previous
    case None => e
    case Some(p) => p.(suppressed := p.suppressed + [e])
  }

  // ---------------------------------------------------------------------------
  //  store-side effects of the client calls
  // ---------------------------------------------------------------------------

  datatype Effect = Effect(txns: map<TxnId, Txn>, outcome: Outcome)

  /** `after` has the transactions of `before`, and differs from it at most in
      transactions of `listed` that were OPEN and are now COMMITTING. */
  ghost predicate CommitsOnly(before: map<TxnId, Txn>, after: map<TxnId, Txn>, listed: set<TxnId>)
  {
    && after.Keys == before.Keys
    && forall t :: t in before ==>
         after[t] == before[t] || (t in listed && before[t].status == Open && after[t] == before[t].(status := Committing))
  }

  /** Committing under one set of ids and then under another commits only ids of
      their union. */
  lemma CommitsOnlyThen(a: map<TxnId, Txn>, b: map<TxnId, Txn>, c: map<TxnId, Txn>, s1: set<TxnId>, s2: set<TxnId>)
    requires CommitsOnly(a, b, s1) && CommitsOnly(b, c, s2)
    ensures CommitsOnly(a, c, s1 + s2)
  {
  }

  /** writeEvent, flush, commit and abort on a transaction throw TxnFailedException
      once the transaction is no longer OPEN. */
  function RequireOpen(txns: map<TxnId, Txn>, id: TxnId, call: Call, faults: set<Call>): (r: Outcome)
    ensures r.Ok? <==> call !in faults && id in txns && txns[id].status == Open
  {
    if call in faults then Fail(Raise(Remote(call)))
    else if id !in txns || txns[id].status != Open then Fail(Raise(TxnFailed(id)))
    else Ok
  }

  /** Transaction.commit: an OPEN transaction moves to COMMITTING; the store
      completes it to COMMITTED on its own. */
  function CommitEffect(txns: map<TxnId, Txn>, id: TxnId, faults: set<Call>): (e: Effect)
    ensures e.outcome.Ok? <==> CommitCall(id) !in faults && id in txns && txns[id].status == Open
    ensures e.outcome.Ok? ==> e.txns == txns[id := txns[id].(status := Committing)]
    ensures e.outcome.Fail? ==> e.txns == txns
  {
    var o := RequireOpen(txns, id, CommitCall(id), faults);
    if o.Ok? then Effect(txns[id := txns[id].(status := Committing)], o) else Effect(txns, o)
  }

  /** Transaction.abort: an OPEN transaction is dropped with all its events. */
  function AbortEffect(txns: map<TxnId, Txn>, id: TxnId, faults: set<Call>): (e: Effect)
    ensures e.outcome.Ok? <==> AbortCall(id) !in faults && id in txns && txns[id].status == Open
    ensures e.outcome.Ok? ==> e.txns == txns[id := Txn(Aborted, [])]
    ensures e.outcome.Fail? ==> e.txns == txns
  {
    var o := RequireOpen(txns, id, AbortCall(id), faults);
    if o.Ok? then Effect(txns[id := Txn(Aborted, [])], o) else Effect(txns, o)
  }

  /** Transaction.checkStatus on a handle obtained with getTxn. */
  function StatusOf(txns: map<TxnId, Txn>, id: TxnId, faults: set<Call>): (r: Result<Status>)
    ensures r.Success? <==> StatusCall(id) !in faults && id in txns
    ensures r.Success? ==> r.value == txns[id].status
  {
    if StatusCall(id) in faults then Failure(Raise(Remote(StatusCall(id))))
    else if id !in txns then Failure(Raise(TxnFailed(id)))
    else Success(txns[id].status)
  }

  /** A call that does not touch any transaction (creating, flushing or closing a
      writer) fails only when the network fails it. */
  function Reach(call: Call, faults: set<Call>): (r: Outcome)
    ensures r.Ok? <==> call !in faults
  {
    if call in faults then Fail(Raise(Remote(call))) else Ok
  }

  // ---------------------------------------------------------------------------
  //  the store
  // ---------------------------------------------------------------------------

  /** The transactions of the destination stream. Transaction ids are never reused:
      every id in the store is below `nextId`, and beginTxn hands out `nextId`. */
  class Store {
    var txns: map<TxnId, Txn>
    var nextId: TxnId
    /** every client call that reached for the store, in order */
    ghost var calls: seq<Call>

    ghost predicate Valid()
      reads this
    {
      forall id :: id in txns ==> id < nextId
    }

    constructor (initial: map<TxnId, Txn>, firstFreeId: TxnId)
      requires forall id :: id in initial ==> id < firstFreeId
      ensures Valid()
      ensures txns == initial && nextId == firstFreeId && calls == []
    {
      txns := initial;
      nextId := firstFreeId;
      calls := [];
    }

    /** EventStreamWriter.beginTxn: a new OPEN and empty transaction with a fresh id. */
    method BeginTxn(faults: set<Call>) returns (r: Result<TxnId>)
      requires Valid()
      modifies this
      ensures Valid() && calls == old(calls) + [BeginCall]
      ensures BeginCall in faults ==> r == Failure(Raise(Remote(BeginCall))) && txns == old(txns) && nextId == old(nextId)
      ensures BeginCall !in faults ==> r.Success? && r.value !in old(txns)
      ensures BeginCall !in faults ==> txns == old(txns)[r.value := Txn(Open, [])]
    {
      calls := calls + [BeginCall];
      if BeginCall in faults {
        r := Failure(Raise(Remote(BeginCall)));
      } else {
        r := Success(nextId);
        txns := txns[nextId := Txn(Open, [])];
        nextId := nextId + 1;
      }
    }

    /** Transaction.writeEvent: the event is appended to the open transaction. */
    method WriteEvent(id: TxnId, event: Event, faults: set<Call>) returns (r: Outcome)
      requires Valid()
      modifies this
      ensures Valid() && calls == old(calls) + [WriteCall(id)]
      ensures r == RequireOpen(old(txns), id, WriteCall(id), faults)
      ensures r.Ok? ==> txns == old(txns)[id := Txn(Open, old(txns)[id].events + [event])]
      ensures r.Fail? ==> txns == old(txns)
      ensures nextId == old(nextId)
    {
      calls := calls + [WriteCall(id)];
      r := RequireOpen(txns, id, WriteCall(id), faults);
      if r.Ok? {
        txns := txns[id := Txn(Open, txns[id].events + [event])];
      }
    }

    /** Transaction.flush: the events written so far are durable; nothing else changes. */
    method Flush(id: TxnId, faults: set<Call>) returns (r: Outcome)
      modifies this
      ensures calls == old(calls) + [FlushCall(id)]
      ensures r == RequireOpen(txns, id, FlushCall(id), faults)
      ensures txns == old(txns) && nextId == old(nextId)
    {
      calls := calls + [FlushCall(id)];
      r := RequireOpen(txns, id, FlushCall(id), faults);
    }

    method Commit(id: TxnId, faults: set<Call>) returns (r: Outcome)
      requires Valid()
      modifies this
      ensures Valid() && calls == old(calls) + [CommitCall(id)]
      ensures Effect(txns, r) == CommitEffect(old(txns), id, faults)
      ensures txns.Keys == old(txns).Keys && nextId == old(nextId)
    {
      calls := calls + [CommitCall(id)];
      var e := CommitEffect(txns, id, faults);
      txns, r := e.txns, e.outcome;
    }

    method Abort(id: TxnId, faults: set<Call>) returns (r: Outcome)
      requires Valid()
      modifies this
      ensures Valid() && calls == old(calls) + [AbortCall(id)]
      ensures Effect(txns, r) == AbortEffect(old(txns), id, faults)
      ensures nextId == old(nextId)
    {
      calls := calls + [AbortCall(id)];
      var e := AbortEffect(txns, id, faults);
      txns, r := e.txns, e.outcome;
    }

    method CheckStatus(id: TxnId, faults: set<Call>) returns (r: Result<Status>)
      modifies this
      ensures calls == old(calls) + [StatusCall(id)]
      ensures r == StatusOf(txns, id, faults)
      ensures txns == old(txns) && nextId == old(nextId)
    {
      calls := calls + [StatusCall(id)];
      r := StatusOf(txns, id, faults);
    }

    /** createEventWriter, EventStreamWriter.flush and EventStreamWriter.close. */
    method Invoke(call: Call, faults: set<Call>) returns (r: Outcome)
      requires call == CreateWriterCall || call == FlushWriterCall || call == CloseWriterCall
      modifies this
      ensures calls == old(calls) + [call]
      ensures r == Reach(call, faults)
      ensures txns == old(txns) && nextId == old(nextId)
    {
      calls := calls + [call];
      r := Reach(call, faults);
    }
  }
}
