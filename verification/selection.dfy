/**
 * The selector's view of a connection: interest and readiness bits, what a
 * non-blocking read can return, and the order in which one selected key's
 * handlers run in the selection loop.
 */
module Selection {

  /** The `SelectionKey` operation bits. */
  const OP_READ: bv32 := 1
  const OP_WRITE: bv32 := 4
  const OP_ACCEPT: bv32 := 16

  predicate Has(ops: bv32, op: bv32) {
    ops & op != 0
  }

  /** `ops | OP_WRITE`: write interest on, every other bit as it was. */
  function WithWrite(ops: bv32): (r: bv32)
    ensures Has(r, OP_WRITE)
    ensures r & !OP_WRITE == ops & !OP_WRITE
  {
    ops | OP_WRITE
  }

  /** `ops & ~OP_WRITE`: write interest off, every other bit as it was. */
  function WithoutWrite(ops: bv32): (r: bv32)
    ensures !Has(r, OP_WRITE)
    ensures r & !OP_WRITE == ops & !OP_WRITE
  {
    ops & !OP_WRITE
  }

  /** Setting write interest twice is setting it once, so a connection that
      receives several messages in one read event is armed once. */
  lemma WithWriteIdempotent(ops: bv32)
    ensures WithWrite(WithWrite(ops)) == WithWrite(ops)
  {
  }

  /** What `SocketChannel.read` into the 4096-byte read buffer can give, with
      the bytes already decoded to characters. */
  datatype ReadResult =
    | EndOfStream          // read returned -1: the peer closed the connection
    | NoBytes              // read returned 0: nothing available yet
    | Chars(text: string)  // read returned a positive count, decoded to `text`
    | ReadError            // read threw an IOException

  /** The handlers of the selection loop, and `closeKey`. */
  datatype Handler = Accept | Read | Write | Close

  /** What happened for one selected key: the handlers that ran, in order,
      and whether an exception escaped the selection loop (ending the server). */
  datatype Step = Step(calls: seq<Handler>, escapes: bool)

  /** The step ended by tearing the key down. */
  predicate Closes(step: Step) {
    step.calls != [] && step.calls[|step.calls| - 1] == Close
  }

  /** The write stage of one key, reached while the key is still valid: a
      write error is caught and closes the key. */
  function WriteStage(calls: seq<Handler>, ready: bv32, writeFails: bool): Step {
    if Has(ready, OP_WRITE) then
      Step(calls + [Write] + (if writeFails then [Close] else []), false)
    else
      Step(calls, false)
  }

  /** One selected key, as the selection loop is written: `isWritable()` is
      asked even after `handleRead` cancelled the key on end of stream, and on
      a cancelled key it throws `CancelledKeyException`, which the loop's
      `catch (IOException)` does not catch. */
  function KeyStepAsWritten(valid: bool, ready: bv32, read: ReadResult, writeFails: bool): Step {
    if !valid then Step([], false)
    else
      var calls := if Has(ready, OP_ACCEPT) then [Accept] else [];
      if !Has(ready, OP_READ) then WriteStage(calls, ready, writeFails)
      else
        match read
        case ReadError => Step(calls + [Read, Close], false)
        case EndOfStream => Step(calls + [Read, Close], true)
        case _ => WriteStage(calls + [Read], ready, writeFails)
  }

  /** The read and write stages of one valid key, after `calls`: a failed
      read is caught and closes the key, end of stream closes it inside the
      read handler, and either way the key is then skipped; otherwise the
      write stage follows. */
  function ReadWriteStage(calls: seq<Handler>, ready: bv32, read: ReadResult, writeFails: bool): Step {
    if !Has(ready, OP_READ) then WriteStage(calls, ready, writeFails)
    else
      match read
      case ReadError => Step(calls + [Read, Close], false)
      case EndOfStream => Step(calls + [Read, Close], false)
      case _ => WriteStage(calls + [Read], ready, writeFails)
  }

  /** The read stage tears the key down: the read failed, or the peer closed
      the connection. */
  predicate ReadCloses(ready: bv32, read: ReadResult) {
    Has(ready, OP_READ) && (read == ReadError || read == EndOfStream)
  }

  /** The write stage runs: the key is write-ready and its read stage, if
      there was one, left it valid. */
  predicate WriteRuns(ready: bv32, read: ReadResult) {
    Has(ready, OP_WRITE) && !ReadCloses(ready, read)
  }

  /** What the read and write stages of a valid key run after `calls`: the
      read handler exactly when the key is read-ready, the write handler
      exactly when `WriteRuns`, and a close, as the last handler, exactly
      when the read stage tears the key down or the write fails. */
  lemma ReadWriteStageRuns(calls: seq<Handler>, ready: bv32, read: ReadResult, writeFails: bool)
    requires Read !in calls && Write !in calls && Close !in calls
    ensures var s := ReadWriteStage(calls, ready, read, writeFails);
            !s.escapes && s.calls[..|calls|] == calls
            && (Read in s.calls <==> Has(ready, OP_READ))
            && (Write in s.calls <==> WriteRuns(ready, read))
            && (Close in s.calls <==> Closes(s))
            && (Closes(s) <==> ReadCloses(ready, read) || (WriteRuns(ready, read) && writeFails))
  {
    var s := ReadWriteStage(calls, ready, read, writeFails);
    var r := if Has(ready, OP_READ) then calls + [Read] else calls;
    if ReadCloses(ready, read) {
      assert s.calls == r + [Close] && s.calls[|s.calls| - 1] == Close;
    } else if Has(ready, OP_WRITE) {
      assert s.calls == r + [Write] + (if writeFails then [Close] else []);
      assert s.calls[|r|] == Write;
    } else {
      assert s.calls == r;
      assert Close !in r;
      assert !Closes(s) by {
        if s.calls != [] {
          assert s.calls[|s.calls| - 1] in r;
        }
      }
    }
  }

  /** One selected key with validity checked again before `isWritable()`:
      a key cancelled by its read handler is skipped for the rest of the step. */
  function KeyStep(valid: bool, ready: bv32, read: ReadResult, writeFails: bool): Step {
    if !valid then Step([], false)
    else ReadWriteStage(if Has(ready, OP_ACCEPT) then [Accept] else [], ready, read, writeFails)
  }

  /** As written, the selection loop dies exactly when a valid key is
      read-ready and its peer has closed the connection: every clean client
      disconnect stops the whole server. */
  lemma AsWrittenEscapesOnDisconnect(valid: bool, ready: bv32, read: ReadResult, writeFails: bool)
    ensures KeyStepAsWritten(valid, ready, read, writeFails).escapes
            <==> valid && Has(ready, OP_READ) && read == EndOfStream
  {
  }

  /** The input that shows it: a connected client's read event that reports
      end of stream. */
  lemma ClientDisconnectStopsServer()
    ensures KeyStepAsWritten(true, OP_READ, EndOfStream, false).escapes
  {
  }

  /** With validity checked, no per-connection event ends the loop, and every
      step on which the code as written survives runs the same handlers. */
  lemma KeyStepIsContained(valid: bool, ready: bv32, read: ReadResult, writeFails: bool)
    ensures !KeyStep(valid, ready, read, writeFails).escapes
    ensures !KeyStepAsWritten(valid, ready, read, writeFails).escapes ==>
              KeyStep(valid, ready, read, writeFails) == KeyStepAsWritten(valid, ready, read, writeFails)
    ensures KeyStep(valid, ready, read, writeFails).calls
            == KeyStepAsWritten(valid, ready, read, writeFails).calls
  {
  }

  /** A key is torn down at most once, and no handler runs on it afterwards. */
  lemma CloseIsLast(valid: bool, ready: bv32, read: ReadResult, writeFails: bool)
    ensures var calls := KeyStep(valid, ready, read, writeFails).calls;
            forall i :: 0 <= i < |calls| && calls[i] == Close ==> i == |calls| - 1
    ensures Close in KeyStep(valid, ready, read, writeFails).calls
            <==> Closes(KeyStep(valid, ready, read, writeFails))
  {
  }

  /** A key that was no longer valid when selected gets no handler at all. */
  lemma InvalidKeyIsSkipped(ready: bv32, read: ReadResult, writeFails: bool)
    ensures KeyStep(false, ready, read, writeFails) == Step([], false)
  {
  }
}
