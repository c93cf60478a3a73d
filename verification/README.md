# NIO broadcast chat reactor, in Dafny

This project models `NioChatServer` (`src/server/nio_server/NIOServer.java`). It is a single-threaded,
non-blocking chat server built on a selector:

- One listening key accepts connections.
- Every client key carries a `ClientAttachment`. The attachment holds a text accumulator (`incoming`)
  and a FIFO of byte buffers waiting to be written (`writeQueue`).
- A read appends the decoded text to the accumulator. Every complete line in the accumulator is then
  cut off in order. Each line that is not blank after `trim()` is broadcast as
  `"[address] line\n"` to every other valid client. The accumulator keeps only the text after the
  last newline.
- A broadcast appends one buffer to each recipient's queue and sets its write interest.
- A write drains the queue front to back. It stops at the first buffer the transport does not take
  completely, and drops write interest once the queue is empty.

The model has five modules:

- `Utf8` models `String.getBytes(UTF_8)`: a concrete encoder, with lemmas showing that it distributes
  over concatenation and that the byte 0x0A occurs only where the text has a newline.
- `Framing` holds the pure line framing of `handleRead`: `indexOf`, `trim`, the cut into lines
  (`RawLines`), the remainder after the last newline (`Rest`), and the messages a text yields
  (`Messages`). It proves reconstruction, remainder, order, blank-line suppression and split
  invariance.
- `WriteQueue` models the write queue as a sequence of `ByteBuffer` values (bytes and position). It
  proves byte conservation and resumption of a partially written buffer.
- `Selection` covers the interest bits, what a read can return, and the order in which the selection
  loop runs the handlers of one key. It has the loop both as written and as corrected; see
  "Findings" below.
- `Reactor` defines the classes `SelectionKey`, `ClientAttachment` and `NioChatServer`. The handlers
  are imperative methods over them. `Valid()` states the shape of the key set: each key sits at one
  position, no attachment is shared, the listening key has only accept interest, and every client
  key keeps read interest and has nothing but read and write interest. `Settled()` states that no
  accumulator holds a complete line between events. Every handler preserves both. The effect of
  broadcasts on every other key is stated through `View` (a key's changeable state as a value) and
  `Deliver` (that state after some messages were broadcast).

## Model

| member | source | states |
|---|---|---|
| Utf8.EncodeChar | src/server/nio_server/NIOServer.java:133 | one to four bytes per character, by code-point range; ASCII encodes as itself; every byte of a multi-byte sequence is at least 0x80 |
| Utf8.Encode | src/server/nio_server/NIOServer.java:133 | the encoding is between one and four times as long as the text |
| Utf8.EncodeAppend | src/server/nio_server/NIOServer.java:133 | the encoding of a concatenation is the concatenation of the encodings |
| Utf8.EncodeHasLF | src/server/nio_server/NIOServer.java:133 | the byte LF occurs in the encoding exactly when '\n' occurs in the text |
| Utf8.EncodeEndsWithLF | src/server/nio_server/NIOServer.java:101 | a message ending in '\n' ends in LF on the wire |
| Framing.IndexOf | src/server/nio_server/NIOServer.java:97 | the first position of the character, or -1 exactly when it does not occur |
| Framing.Trim | src/server/nio_server/NIOServer.java:98 | `String.trim()`: cut the leading and trailing characters up to U+0020; its contract is stated by `Framing.TrimCutsSpaces` |
| Framing.TrimCutsSpaces | src/server/nio_server/NIOServer.java:98 | `trim()` returns the infix left after cutting leading and trailing characters up to U+0020; the result neither starts nor ends with one; it is empty exactly when the line is blank |
| Framing.TrimKeepsNoNewline | src/server/nio_server/NIOServer.java:98 | trimming a newline-free line leaves it newline-free |
| Framing.RawLines | src/server/nio_server/NIOServer.java:95-99 | the complete lines the loop cuts off, in order, each without its terminator; `Framing.Reassemble`, `Framing.CutUnlines` and `Framing.LinesHaveNoNewline` state what they are |
| Framing.LinesHaveNoNewline | src/server/nio_server/NIOServer.java:97-98 | no cut line contains a newline |
| Framing.Rest | src/server/nio_server/NIOServer.java:97-107 | the text kept in the accumulator has no newline and is no longer than the input |
| Framing.CutCons | src/server/nio_server/NIOServer.java:97-99 | a newline-free line followed by '\n' is cut off first, and the cut goes on with the text after it |
| Framing.Reassemble | src/server/nio_server/NIOServer.java:95-107 | the cut lines, each followed by '\n', then the remainder, give back the input |
| Framing.RestIsAfterLastNewline | src/server/nio_server/NIOServer.java:106-107 | the accumulator keeps exactly the text after the last '\n' (all of it when there is none) |
| Framing.CutUnlines | src/server/nio_server/NIOServer.java:97-99 | cutting undoes joining: newline-free lines and a newline-free tail are recovered exactly |
| Framing.CutAppend | src/server/nio_server/NIOServer.java:92-99 | appending text never changes the lines already complete; the new lines come from the old remainder continued |
| Framing.Format | src/server/nio_server/NIOServer.java:101 | the message `"[" + address + "] " + line + "\n"`; `Framing.FormatIsOneLine` states that it is exactly one line |
| Framing.FormatIsOneLine | src/server/nio_server/NIOServer.java:101 | a broadcast message is exactly one line, `[address] text`, on the receiving side |
| Framing.Emit | src/server/nio_server/NIOServer.java:100-104 | the message one cut line yields; `Framing.OutgoingOne` states it: none for a blank line, else the trimmed line formatted |
| Framing.Outgoing | src/server/nio_server/NIOServer.java:100-104 | a sequence of lines yields at most one message per line |
| Framing.Messages | src/server/nio_server/NIOServer.java:95-105 | the messages one read event broadcasts for the accumulated text; `Framing.OutgoingIsFilterMap` and `Framing.MessagesStep` state their content and order |
| Framing.SplitAtFirst | src/server/nio_server/NIOServer.java:97-99 | the text is the newline-free part before the first '\n', that '\n', and the rest |
| Framing.MessagesCons | src/server/nio_server/NIOServer.java:97-104 | the first line's message (or none) comes before the messages of the rest |
| Framing.MessagesStep | src/server/nio_server/NIOServer.java:97-104 | one turn of the line loop: the messages of the text are the first line's message then those of the text after its newline, with the same remainder |
| Framing.EmitAfter | src/server/nio_server/NIOServer.java:100-104 | one line appends its formatted message to those already sent, or nothing when it is blank |
| Framing.FrameStep | src/server/nio_server/NIOServer.java:97-104 | the line loop's invariant, messages sent plus messages still to come, is kept by one turn |
| Framing.MessagesNone | src/server/nio_server/NIOServer.java:97 | a text without a newline yields no message and is kept whole |
| Framing.OutgoingAppend | src/server/nio_server/NIOServer.java:97-104 | the messages of two runs of lines are those of each run, in order |
| Framing.OutgoingOne | src/server/nio_server/NIOServer.java:98-104 | a blank line yields no message; any other line yields exactly one, `[address] trimmed\n` |
| Framing.NonBlankKeeps | src/server/nio_server/NIOServer.java:100 | the lines kept are not blank and are lines of the input, and every line that is not blank is kept |
| Framing.OutgoingIsFilterMap | src/server/nio_server/NIOServer.java:98-104 | one message per non-blank line, in order, each the trimmed line formatted with the address |
| Framing.MessagesAreLines | src/server/nio_server/NIOServer.java:97-104 | for an address without a newline, every message a read broadcasts is exactly one line on the receiving side, with nothing left pending |
| Framing.Feed | src/server/nio_server/NIOServer.java:75-107 | successive read events on one connection, each appending to the accumulator and cutting its lines; `Framing.FeedIsOnePass` states that the split does not matter |
| Framing.SplitRead | src/server/nio_server/NIOServer.java:92-107 | two consecutive reads broadcast the same messages, and keep the same remainder, as one read of both texts |
| Framing.FeedIsOnePass | src/server/nio_server/NIOServer.java:92-107 | however a stream is split into reads, the messages and the remainder are those of one read of the whole stream |
| WriteQueue.HasRemaining | src/server/nio_server/NIOServer.java:119 | `ByteBuffer.hasRemaining()`: the position has not reached the end of the bytes |
| WriteQueue.Wrap | src/server/nio_server/NIOServer.java:166 | a wrapped buffer has every byte still to send |
| WriteQueue.Advance | src/server/nio_server/NIOServer.java:118 | a write moves the position forward; the bytes taken and those remaining make up what remained before |
| WriteQueue.Pending | src/server/nio_server/NIOServer.java:114-124 | the bytes the queue still has to send, front buffer first; `WriteQueue.PendingChunks` and `WriteQueue.WriteFront` state it |
| WriteQueue.PendingAppend | src/server/nio_server/NIOServer.java:167 | the bytes pending in two queues one after the other are those of each, in order |
| WriteQueue.Chunks | src/server/nio_server/NIOServer.java:143 | one buffer per message |
| WriteQueue.ChunksAppend | src/server/nio_server/NIOServer.java:143 | queueing two batches of messages queues the buffers of both, in order |
| WriteQueue.PendingChunks | src/server/nio_server/NIOServer.java:133-143 | the buffers queued for some messages hold exactly the encoding of their concatenation |
| WriteQueue.WriteFront | src/server/nio_server/NIOServer.java:117-123 | one write into the front buffer loses no byte; a front buffer written out completely can be dropped |
| WriteQueue.DrainedFrom | src/server/nio_server/NIOServer.java:114-124 | what a drain can leave of a queue: whole buffers gone from the front, the new front possibly advanced, the rest untouched; `WriteQueue.DrainedTransitive` shows that drains compose |
| WriteQueue.DrainedTransitive | src/server/nio_server/NIOServer.java:116-124 | a drain resumed where the last one stopped is a drain of the original queue |
| Selection.WithWrite | src/server/nio_server/NIOServer.java:144 | write interest set, every other bit kept |
| Selection.WithoutWrite | src/server/nio_server/NIOServer.java:128 | write interest cleared, every other bit kept |
| Selection.WithWriteIdempotent | src/server/nio_server/NIOServer.java:144 | setting write interest twice is setting it once |
| Selection.WriteStage | src/server/nio_server/NIOServer.java:51-55 | the write stage of a key still valid: write, then close when the write failed |
| Selection.KeyStepAsWritten | src/server/nio_server/NIOServer.java:46-56 | the handlers one selected key runs as the loop is written, and whether an exception escapes; `Selection.AsWrittenEscapesOnDisconnect` states when one does |
| Selection.ReadWriteStage | src/server/nio_server/NIOServer.java:50-55 | the read and write stages of a valid key with validity checked before the write stage |
| Selection.ReadWriteStageRuns | src/server/nio_server/NIOServer.java:50-55 | read runs exactly when the key is read-ready; write runs exactly when it is write-ready and the read did not fail or meet end of stream; the key is closed, as the last handler, exactly when the read closed it or the write failed; nothing escapes |
| Selection.KeyStep | src/server/nio_server/NIOServer.java:46-56 | one selected key in the corrected loop; `Selection.KeyStepIsContained`, `Selection.CloseIsLast` and `Selection.InvalidKeyIsSkipped` state it |
| Selection.AsWrittenEscapesOnDisconnect | src/server/nio_server/NIOServer.java:46-56 | as written, an exception escapes the loop exactly when a valid key is read-ready and its peer closed the connection |
| Selection.ClientDisconnectStopsServer | src/server/nio_server/NIOServer.java:50-52 | as written, a client's end of stream stops the selection loop |
| Selection.KeyStepIsContained | src/server/nio_server/NIOServer.java:46-56 | corrected, no per-key event ends the loop; wherever the code as written survives, both run the same handlers |
| Selection.CloseIsLast | src/server/nio_server/NIOServer.java:46-56 | a key is closed at most once, and no handler runs on it after that |
| Selection.InvalidKeyIsSkipped | src/server/nio_server/NIOServer.java:47 | a key already cancelled gets no handler |
| Reactor.Deliver | src/server/nio_server/NIOServer.java:135-147 | a key's state after messages were broadcast from a sender: `Reactor.DeliverQueuesBytes` and `Reactor.DeliverTwice` state it |
| Reactor.DeliverQueuesBytes | src/server/nio_server/NIOServer.java:132-150 | a recipient's queue keeps what it held, followed by exactly the UTF-8 bytes of the messages in order, and gets write interest with the other bits kept; the sender, invalid keys and keys without an attachment are unchanged |
| Reactor.DeliverTwice | src/server/nio_server/NIOServer.java:97-105 | broadcasting `a` and then `b` leaves every key as broadcasting `a + b` would |
| Reactor.ServedThen | src/server/nio_server/NIOServer.java:50-51 | a read stage followed by a write stage changes a key as the two stages at once |
| Reactor.ClientAttachment.constructor | src/server/nio_server/NIOServer.java:181-185 | a new attachment has an empty accumulator and an empty write queue |
| Reactor.SelectionKey.constructor | src/server/nio_server/NIOServer.java:66-68 | a new key is valid, with the given interest, channel and attachment |
| Reactor.NioChatServer.constructor | src/server/nio_server/NIOServer.java:30-35 | the selector starts with the listening key alone, valid and interested in accepting |
| Reactor.NioChatServer.EnqueueBytesToAttachment | src/server/nio_server/NIOServer.java:165-168 | one buffer wrapping the bytes is appended at the tail of the queue; nothing else changes |
| Reactor.NioChatServer.Broadcast | src/server/nio_server/NIOServer.java:132-150 | every valid client key other than the sender that has an attachment gets the message's buffer at its tail and write interest; every other key, and everything already queued, is unchanged |
| Reactor.NioChatServer.EnqueueMessage | src/server/nio_server/NIOServer.java:152-163 | on a valid key with an attachment, the message's bytes are queued and write interest is set; with no key, or no attachment, nothing is queued and the interest is unchanged |
| Reactor.NioChatServer.CloseKey | src/server/nio_server/NIOServer.java:170-178 | the key is cancelled; its interest and attachment are left as they were |
| Reactor.NioChatServer.HandleAccept | src/server/nio_server/NIOServer.java:61-73 | one new valid client key is registered with a fresh attachment: empty accumulator, the welcome line queued, read and write interest |
| Reactor.NioChatServer.DrainQueue | src/server/nio_server/NIOServer.java:114-124 | the bytes sent and those still queued are exactly those queued before; the queue only loses whole buffers from the front and advances the new front; a drain that did not fail stops only at an empty queue or at a front buffer with bytes left |
| Reactor.NioChatServer.HandleWrite | src/server/nio_server/NIOServer.java:110-130 | on a valid key: the drain above, and write interest cleared exactly when the queue ended empty without a failure, every other bit kept; read interest and validity are never touched |
| Reactor.NioChatServer.HandleRead | src/server/nio_server/NIOServer.java:75-108 | end of stream cancels the key; a read of nothing changes nothing; a failed read reports the failure and changes nothing; decoded text leaves the accumulator holding the text after the last newline, and every other key receives exactly the messages of the accumulated text |
| Reactor.NioChatServer.FrameAndBroadcast | src/server/nio_server/NIOServer.java:90-107 | the accumulator becomes the remainder of the old accumulator plus the new text; each other key receives that text's messages, in order; the reading key's interest and queue are unchanged |
| Reactor.NioChatServer.BroadcastLines | src/server/nio_server/NIOServer.java:95-105 | the line loop returns the remainder of the text and has broadcast exactly its messages, in order, to every recipient |
| Reactor.NioChatServer.ProcessKey | src/server/nio_server/NIOServer.java:43-56 | a cancelled key runs nothing and changes nothing; otherwise the handlers run are `Selection.KeyStep`; an accept appends one valid client key with an empty accumulator, the welcome line queued and read and write interest, and no other key is added; the key ends cancelled exactly when a close ran; its accumulator becomes the text after the last newline of what it held plus the decoded text; what the write stage sent plus what stays queued is what was queued, drained from the front; write interest is dropped exactly when the write ran without failing and emptied the queue; every other key receives exactly the messages of the read, and nothing when there was no read |
| Reactor.NioChatServer.ServeClient | src/server/nio_server/NIOServer.java:50-55 | read if read-ready, then write only if the key is still valid: a key cancelled by end of stream or a failed read sends nothing and keeps its queue and interest; the key's accumulator, queue and interest change as the read and write handlers state; a failed write closes the key; every other key receives exactly the read's messages |
| Reactor.NioChatServer.ServeRead | src/server/nio_server/NIOServer.java:50-55 | read if read-ready, cancelling the key when the read fails; the key stays valid exactly when the read neither failed nor met end of stream; its queue and interest are unchanged; every other key receives exactly the read's messages |
| Reactor.NioChatServer.ServeWrite | src/server/nio_server/NIOServer.java:51-55 | write if write-ready, cancelling the key when the write fails; the bytes sent and those still queued are those queued before; write interest drops exactly when the queue emptied; no other key changes |

## Left out

- Sockets are not modelled: `Selector.open`, `bind`, `register`, `select`, `wakeup`, the iteration of
  the selected-key set, and the `main` entry point. The selection loop is modelled one selected key
  at a time (`ProcessKey`). The key's ready set and what its channel's read returns are parameters.
- Logging to standard output and standard error is not modelled.
- `ProcessKey` and `ServeClient` model the corrected loop, which checks validity again before the
  write stage. `HandleWrite` requires a valid key, because `isWritable()` throws on a cancelled
  key before the handler is reached. `EnqueueMessage` requires a valid key too, because
  `interestOps()` throws on a cancelled key after the bytes are queued; its one caller,
  `HandleAccept`, passes the key it has just registered. The loop as written is `Selection.KeyStepAsWritten`; see
  "Findings".
- `HandleRead` takes the read as already decoded text (`ReadResult.Chars`). The following are not
  part of this model:
  - the 4096-byte read buffer, which bounds how much one read returns;
  - `CharsetDecoder` replacement of a multi-byte UTF-8 sequence that is split across two reads.
    Each read is decoded on its own, so such a character arrives as replacement characters.
- `HandleAccept` takes the peer's address as a parameter. The model does not capture:
  - `accept()` returning null when no connection is pending;
  - `configureBlocking` failing.
- `HandleAccept` queues `greeting`. This is a constant field of the server that the constructor
  sets to the welcome line.
- `getRemoteAddress()` is the fixed `address` of a client channel. Its `IOException` on a closed
  channel is not modelled.
- `CloseKey` models only `key.cancel()`. Closing the channel, and the `IOException` that closing
  swallows, are not modelled. Cancelled keys stay in the key set. The selector's deregistration of
  them on the next `select` is not modelled.
- `HandleWrite` models `write` as taking any number of the front buffer's remaining bytes, or
  failing. Which of these happens is chosen by the model, not by a transport.
- `Broadcast` compares the recipient's key with the sender's key. The source compares channels,
  which is the same test because a channel has one key per selector.
- `Broadcast` visits the keys in key-set order. The order of `selector.keys()` is unspecified. Each
  key receives the same buffers in either case.
- The accumulator holds decoded text (`StringBuilder incoming`), not raw bytes.
- Lines are trimmed with Java's `trim()`, which strips every character up to U+0020.

## Findings

| source | as written | input that shows it | evidently intended | confidence | as-written member | corrected member |
|---|---|---|---|---|---|---|
| src/server/nio_server/NIOServer.java:50-52 | on end of stream, `handleRead` cancels the key (line 84); line 51 then calls `key.isWritable()` on the cancelled key, which throws `CancelledKeyException`; that exception is not an `IOException`, so it escapes the selection loop and ends the server | a connected client closes its connection: a valid key, ready to read, whose read returns -1 | the disconnected key is skipped and the loop goes on serving the other keys: `ServeClient` checks validity before its write stage, which requires a valid key, and a key closed by its read sends nothing and keeps its queue | not executed; follows from `SelectionKey.isWritable` throwing on a cancelled key | Selection.ClientDisconnectStopsServer | Reactor.NioChatServer.ServeClient |
