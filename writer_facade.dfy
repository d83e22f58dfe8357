/** The sink itself (FlinkPravegaWriter): the checks its constructor makes on its
    arguments, and the choice between the exactly-once and the at-least-once writer. */
module WriterFacade {
  import opened Pravega
  import TransactionWriters
  import StandardWriters

  /** PravegaWriterMode */
  datatype WriterMode = BestEffort | AtLeastOnce | ExactlyOnce

  /** The writer strategy the sink delegates to. */
  datatype WriterKind = TransactionKind | StandardKind

  const DefaultTxnTimeoutMillis: int := 2 * 60 * 60 * 1000
  const DefaultTxScaleGraceMillis: int := 10 * 60 * 1000
  const ExactlyOnceNeedsCheckpointing := "Pravega exactly once support requires checkpoint to be enabled"

  /** The configuration the constructor stores. The serialization schema and the
      event router are opaque here; only their presence is checked. */
  datatype WriterConfig = WriterConfig(
    controllerUri: string,
    scope: string,
    streamName: string,
    txnTimeoutMillis: int,
    txnMaxTimeMillis: int,
    txnGracePeriodMillis: int)

  /** The argument checks of the constructor, in their order: each reference must
      be present (NullPointerException naming it) and each duration positive
      (IllegalArgumentException). */
  function NewWriterConfig(
    controllerUri: Option<string>, scope: Option<string>, streamName: Option<string>,
    hasSerializationSchema: bool, hasRouter: bool,
    txnTimeoutMillis: int, txnMaxTimeMillis: int, txnGracePeriodMillis: int): (r: Result<WriterConfig>)
    ensures r.Success? <==>
      && controllerUri.Some? && scope.Some? && streamName.Some? && hasSerializationSchema && hasRouter
      && txnTimeoutMillis > 0 && txnMaxTimeMillis > 0 && txnGracePeriodMillis > 0
    ensures r.Success? ==>
      r.value == WriterConfig(controllerUri.value, scope.value, streamName.value,
                              txnTimeoutMillis, txnMaxTimeMillis, txnGracePeriodMillis)
    ensures r.Failure? && controllerUri.Some? && scope.Some? && streamName.Some? && hasSerializationSchema && hasRouter ==>
      r.error.kind.IllegalArgument?
    ensures r.Failure? && !(controllerUri.Some? && scope.Some? && streamName.Some? && hasSerializationSchema && hasRouter) ==>
      r.error.kind.NullPointer?
  {
    if controllerUri.None? then Failure(Raise(NullPointer("controllerURI")))
    else if scope.None? then Failure(Raise(NullPointer("scope")))
    else if streamName.None? then Failure(Raise(NullPointer("streamName")))
    else if !hasSerializationSchema then Failure(Raise(NullPointer("serializationSchema")))
    else if !hasRouter then Failure(Raise(NullPointer("router")))
    else if txnTimeoutMillis <= 0 then Failure(Raise(IllegalArgument("txnTimeoutMillis must be > 0")))
    else if txnMaxTimeMillis <= 0 then Failure(Raise(IllegalArgument("txnMaxTimeMillis must be > 0")))
    else if txnGracePeriodMillis <= 0 then Failure(Raise(IllegalArgument("txnGracePeriodMillis must be > 0")))
    else Success(WriterConfig(controllerUri.value, scope.value, streamName.value,
                              txnTimeoutMillis, txnMaxTimeMillis, txnGracePeriodMillis))
  }

  /** The five-argument constructor: transactions time out after two hours, may be
      extended up to two hours, and get ten minutes of grace after a scale event. */
  function NewDefaultWriterConfig(
    controllerUri: Option<string>, scope: Option<string>, streamName: Option<string>,
    hasSerializationSchema: bool, hasRouter: bool): (r: Result<WriterConfig>)
    ensures r.Success? <==>
      controllerUri.Some? && scope.Some? && streamName.Some? && hasSerializationSchema && hasRouter
    ensures r.Success? ==>
      && r.value.txnTimeoutMillis == 7200000
      && r.value.txnMaxTimeMillis == 7200000
      && r.value.txnGracePeriodMillis == 600000
  {
    NewWriterConfig(controllerUri, scope, streamName, hasSerializationSchema, hasRouter,
                    DefaultTxnTimeoutMillis, DefaultTxnTimeoutMillis, DefaultTxScaleGraceMillis)
  }

  /** invokeWriter: exactly-once needs checkpointing; it then gets the transaction
      writer, and every other mode gets the standard writer. */
  function SelectWriter(mode: WriterMode, checkpointingEnabled: bool): (r: Result<WriterKind>)
    ensures r.Failure? <==> mode == ExactlyOnce && !checkpointingEnabled
    ensures r.Failure? ==> r.error == Raise(UnsupportedOperation(ExactlyOnceNeedsCheckpointing))
    ensures r.Success? ==> (r.value == TransactionKind <==> mode == ExactlyOnce)
  {
    if mode == ExactlyOnce then
      if !checkpointingEnabled then Failure(Raise(UnsupportedOperation(ExactlyOnceNeedsCheckpointing)))
      else Success(TransactionKind)
    else Success(StandardKind)
  }

  /** The writer object the sink holds after invokeWriter. */
  datatype InternalWriter =
    | Transactional(txnWriter: TransactionWriters.TransactionWriter)
    | Standard(stdWriter: StandardWriters.StandardWriter)

  /** invokeWriter: creates a new writer of the selected kind. The at-least-once
      writer comes out initialized; the transaction writer still has to begin its
      first transaction. */
  method InvokeWriter(mode: WriterMode, checkpointingEnabled: bool, store: Store, hasClientWriter: bool)
    returns (r: Result<InternalWriter>)
    requires store.Valid()
    ensures var selected := SelectWriter(mode, checkpointingEnabled);
      && (r.Failure? <==> selected.Failure?)
      && (r.Failure? ==> r.error == selected.error)
      && (r.Success? ==> (r.value.Transactional? <==> selected.value == TransactionKind))
    ensures r.Success? && r.value.Transactional? ==>
      var w := r.value.txnWriter;
      && fresh(w) && w.Valid() && w.store == store && w.hasClientWriter == hasClientWriter
      && w.currentTxn == None && w.pending == []
    ensures r.Success? && r.value.Standard? ==>
      var w := r.value.stdWriter;
      && fresh(w) && w.Valid() && w.State() == StandardWriters.Cells(0, None) && w.inFlight == 0
  {
    var selected := SelectWriter(mode, checkpointingEnabled);
    if selected.Failure? {
      return Failure(selected.error);
    }
    if selected.value == TransactionKind {
      var w := new TransactionWriters.TransactionWriter(store, hasClientWriter);
      r := Success(Transactional(w));
    } else {
      var w := new StandardWriters.StandardWriter();
      r := Success(Standard(w));
    }
  }
}
