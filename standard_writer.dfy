/** The at-least-once writer (FlinkPravegaWriter.StandardWriter): every event is an
    independent asynchronous write; the writer counts the writes in flight and keeps
    the first failure its completions report, and a checkpoint waits for the count
    to reach zero and then reports that failure.

    The completions run on a thread pool in the source; here each completion is an
    explicit call, and the wait for the counter is the precondition that it is zero. */
module StandardWriters {
  import opened Pravega

  /** How one asynchronous write completed. */
  datatype Completion = Succeeded | Failed(cause: Exn)

  /** pendingWritesCount and writeError */
  datatype Cells = Cells(pendingWrites: int, writeError: Option<Exn>)

  /** writeError.compareAndSet(null, cause): only the first failure is kept. */
  function RecordFailure(error: Option<Exn>, done: Completion): Option<Exn>
  {
    if error.None? && done.Failed? then Some(done.cause) else error
  }

  /** The completion callback as written: a success decrements the counter; a failure
      records its cause and leaves the counter as it is. */
  function Completed(c: Cells, done: Completion): Cells
  {
    match done
    case Succeeded => c.(pendingWrites := c.pendingWrites - 1)
    case Failed(_) => c.(writeError := RecordFailure(c.writeError, done))
  }

  /** The completion callback as evidently intended: every completed write leaves the
      count, and a failure is recorded as well. */
  function CompletedIntended(c: Cells, done: Completion): Cells
  {
    Cells(c.pendingWrites - 1, RecordFailure(c.writeError, done))
  }

  /** The cells after the completions `cs`, in order, through the callback as written. */
  function CompletedAll(c: Cells, cs: seq<Completion>): Cells
    decreases |cs|
  {
    if cs == [] then c else CompletedAll(Completed(c, cs[0]), cs[1..])
  }

  /** The same through the corrected callback. */
  function CompletedAllIntended(c: Cells, cs: seq<Completion>): Cells
    decreases |cs|
  {
    if cs == [] then c else CompletedAllIntended(CompletedIntended(c, cs[0]), cs[1..])
  }

  function Successes(cs: seq<Completion>): (n: nat)
    ensures n <= |cs|
  {
    if cs == [] then 0 else (if cs[0].Succeeded? then 1 else 0) + Successes(cs[1..])
  }

  /** The cause of the first failed completion, if any. */
  function FirstFailure(cs: seq<Completion>): Option<Exn>
  {
    if cs == [] then None
    else if cs[0].Failed? then Some(cs[0].cause)
    else FirstFailure(cs[1..])
  }

  lemma {:induction false} FailureIsNotSuccess(cs: seq<Completion>)
    ensures FirstFailure(cs).Some? <==> Successes(cs) < |cs|
  {
    if cs != [] {
      FailureIsNotSuccess(cs[1..]);
    }
  }

  /** As written, completions subtract only their successes from the counter, and the
      recorded error is the one already there or else the first failure among them. */
  lemma {:induction false} CompletedAllCounts(c: Cells, cs: seq<Completion>)
    ensures CompletedAll(c, cs).pendingWrites == c.pendingWrites - Successes(cs)
    ensures CompletedAll(c, cs).writeError == if c.writeError.Some? then c.writeError else FirstFailure(cs)
    decreases |cs|
  {
    if cs != [] {
      CompletedAllCounts(Completed(c, cs[0]), cs[1..]);
    }
  }

  /** The quirk of the source: once one of the writes counted in `c` has failed, the
      counter stays above zero even after every write has completed, so the wait of
      flushAndVerify never ends. */
  lemma FailedWriteNeverDrains(c: Cells, cs: seq<Completion>)
    requires c.pendingWrites == |cs|
    requires FirstFailure(cs).Some?
    ensures CompletedAll(c, cs).pendingWrites > 0
    ensures CompletedAll(c, cs).writeError.Some?
  {
    CompletedAllCounts(c, cs);
    FailureIsNotSuccess(cs);
  }

  /** With the corrected callback every completion leaves the count, so once all
      counted writes have completed the count is zero, and the first failure is
      recorded for flushAndVerify to report. */
  lemma {:induction false} CompletedAllIntendedDrains(c: Cells, cs: seq<Completion>)
    ensures CompletedAllIntended(c, cs).pendingWrites == c.pendingWrites - |cs|
    ensures CompletedAllIntended(c, cs).writeError == if c.writeError.Some? then c.writeError else FirstFailure(cs)
    decreases |cs|
  {
    if cs != [] {
      CompletedAllIntendedDrains(CompletedIntended(c, cs[0]), cs[1..]);
    }
  }

  /** The exception checkWriteError throws for a recorded cause. */
  function WriteFailed(cause: Exn): Exn
  {
    Raise(WriteFailure(cause))
  }

  class StandardWriter {
    /** writeError: the first failure a completion reported, until it is read */
    var writeError: Option<Exn>
    /** pendingWritesCount */
    var pendingWritesCount: int
    /** the events handed to the client writer, in order */
    ghost var issued: seq<Event>
    /** writes issued whose completion has not run yet */
    ghost var inFlight: nat
    /** failed completions, which the counter as written never gives back */
    ghost var stuck: nat

    ghost predicate Valid()
      reads this
    {
      pendingWritesCount == inFlight + stuck
    }

    function State(): Cells
      reads this
    {
      Cells(pendingWritesCount, writeError)
    }

    /** The writer after initialize: no error and no write in flight. */
    constructor ()
      ensures Valid()
      ensures State() == Cells(0, None) && issued == [] && inFlight == 0 && stuck == 0
    {
      writeError := None;
      pendingWritesCount := 0;
      issued := [];
      inFlight := 0;
      stuck := 0;
    }

    /** getAndSet(null) on the error cell: a recorded failure is thrown once,
        wrapped in an IOException, and the cell is empty afterwards. */
    method CheckWriteError() returns (r: Outcome)
      modifies this`writeError
      ensures writeError == None
      ensures old(writeError).Some? ==> r == Fail(WriteFailed(old(writeError).value))
      ensures old(writeError).None? ==> r == Ok
    {
      var error := writeError;
      writeError := None;
      if error.Some? {
        return Fail(WriteFailed(error.value));
      }
      r := Ok;
    }

    /** A recorded failure is thrown (and cleared) before anything else; otherwise the
        write is counted and issued, and its completion comes later. */
    method Write(event: Event) returns (r: Outcome)
      requires Valid()
      modifies this
      ensures Valid() && stuck == old(stuck)
      ensures old(writeError).Some? ==>
        && r == Fail(WriteFailed(old(writeError).value))
        && State() == Cells(old(pendingWritesCount), None)
        && issued == old(issued) && inFlight == old(inFlight)
      ensures old(writeError).None? ==>
        && r == Ok
        && State() == Cells(old(pendingWritesCount) + 1, None)
        && issued == old(issued) + [event] && inFlight == old(inFlight) + 1
    {
      r := CheckWriteError();
      if r.Fail? {
        return;
      }
      pendingWritesCount := pendingWritesCount + 1;
      issued := issued + [event];
      inFlight := inFlight + 1;
    }

    /** The completion of one issued write, as written. */
    method OnComplete(done: Completion)
      requires Valid() && inFlight > 0
      modifies this
      ensures Valid()
      ensures State() == Completed(old(State()), done)
      ensures issued == old(issued) && inFlight == old(inFlight) - 1
      ensures stuck == old(stuck) + (if done.Failed? then 1 else 0)
    {
      if done.Succeeded? {
        pendingWritesCount := pendingWritesCount - 1;
      } else {
        if writeError.None? {
          writeError := Some(done.cause);
        }
        stuck := stuck + 1;
      }
      inFlight := inFlight - 1;
    }

    /** The completion of one issued write, corrected: the count drops in both cases. */
    method OnCompleteIntended(done: Completion)
      requires Valid() && inFlight > 0
      modifies this
      ensures Valid()
      ensures State() == CompletedIntended(old(State()), done)
      ensures issued == old(issued) && inFlight == old(inFlight) - 1 && stuck == old(stuck)
    {
      if done.Failed? && writeError.None? {
        writeError := Some(done.cause);
      }
      pendingWritesCount := pendingWritesCount - 1;
      inFlight := inFlight - 1;
    }

    /** Flushes the client writer, waits until no write is in flight, then reports a
        recorded failure. The wait ends only when the counter is zero, which the
        invariant allows only when no completion has failed. */
    method FlushAndVerify(faults: set<Call>) returns (r: Outcome)
      requires Valid()
      requires FlushWriterCall !in faults ==> pendingWritesCount == 0
      modifies this`writeError
      ensures FlushWriterCall in faults ==> r == Reach(FlushWriterCall, faults) && writeError == old(writeError)
      ensures FlushWriterCall !in faults ==> old(stuck) == 0 && inFlight == 0 && writeError == None
      ensures FlushWriterCall !in faults && old(writeError).Some? ==> r == Fail(WriteFailed(old(writeError).value))
      ensures FlushWriterCall !in faults && old(writeError).None? ==> r == Ok
    {
      r := Reach(FlushWriterCall, faults);
      if r.Fail? {
        return;
      }
      r := CheckWriteError();
    }

    /** A checkpoint: everything issued so far is confirmed or its failure reported;
        there is no state to carry into the checkpoint. */
    method SnapshotState(checkpointId: int, faults: set<Call>) returns (r: Result<seq<TxnId>>)
      requires Valid()
      requires FlushWriterCall !in faults ==> pendingWritesCount == 0
      modifies this`writeError
      ensures r.Success? <==> FlushWriterCall !in faults && old(writeError).None?
      ensures r.Success? ==> r.value == []
      ensures FlushWriterCall !in faults && old(writeError).Some? ==> r == Failure(WriteFailed(old(writeError).value))
      ensures FlushWriterCall in faults ==> writeError == old(writeError)
      ensures FlushWriterCall !in faults ==> writeError == None
    {
      var flushed := FlushAndVerify(faults);
      if flushed.Fail? {
        return Failure(flushed.error);
      }
      r := Success([]);
    }

    /** Flush and verify, then close the client writer; a failure of the first
        skips the second. */
    method Close(faults: set<Call>) returns (r: Outcome)
      requires Valid()
      requires FlushWriterCall !in faults ==> pendingWritesCount == 0
      modifies this`writeError
      ensures FlushWriterCall in faults ==> r == Reach(FlushWriterCall, faults)
      ensures FlushWriterCall !in faults && old(writeError).Some? ==> r == Fail(WriteFailed(old(writeError).value))
      ensures FlushWriterCall !in faults && old(writeError).None? ==> r == Reach(CloseWriterCall, faults)
      ensures writeError == if FlushWriterCall in faults then old(writeError) else None
    {
      r := FlushAndVerify(faults);
      if r.Fail? {
        return;
      }
      r := Reach(CloseWriterCall, faults);
    }

    /** Nothing is deferred past a checkpoint, so a confirmation has nothing to do. */
    method NotifyCheckpointComplete(checkpointId: int) returns (r: Outcome)
      ensures r == Ok
    {
      r := Ok;
    }

    /** Nothing is carried across a restart, so a restore has nothing to do. */
    method RestoreState(list: Option<seq<Option<TxnId>>>) returns (r: Outcome)
      ensures r == Ok
    {
      r := Ok;
    }
  }
}
