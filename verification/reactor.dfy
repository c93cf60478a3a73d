/**
 * The non-blocking broadcast chat reactor: the selector's key set, each
 * client's attachment (read accumulator and write queue), and the handlers
 * the selection loop runs for accept, read and write readiness.
 *
 * Sockets are not modelled: a read is given as its `ReadResult`, and a write
 * takes any number of bytes up to what the buffer holds, or fails.
 */
module Reactor {
  import opened Utf8
  import opened Framing
  import opened WriteQueue
  import opened Selection

  /** The line every accepted client is sent first. */
  const WELCOME: string := "Welcome to NIO Chat!\n"

  /** The channel behind a key: the listening server socket, or a connected
      client socket and its remote address as `getRemoteAddress()` prints it. */
  datatype Channel = Listener | Client(address: string)

  /** `ClientAttachment`: the per-client text accumulator and write queue. */
  class ClientAttachment {
    var incoming: string
    var writeQueue: seq<Chunk>
    /** The position in the key set of the key this attachment belongs to. */
    ghost const slot: nat

    constructor (ghost slot: nat)
      ensures incoming == [] && writeQueue == [] && this.slot == slot
    {
      incoming := [];
      writeQueue := [];
      this.slot := slot;
    }
  }

  /** `SelectionKey`: a channel's registration with the selector. The
      attachment is fixed when the key is created: `handleAccept` attaches it
      right after registering, before anything else can see the key. */
  class SelectionKey {
    const channel: Channel
    const attachment: ClientAttachment?
    var valid: bool
    var interestOps: bv32
    /** The key's position in the key set. */
    ghost const slot: nat

    constructor (channel: Channel, ops: bv32, attachment: ClientAttachment?, ghost slot: nat)
      ensures this.channel == channel && this.attachment == attachment && this.slot == slot
      ensures valid && interestOps == ops
    {
      this.channel := channel;
      this.attachment := attachment;
      this.slot := slot;
      valid := true;
      interestOps := ops;
    }
  }

  /** Whether key `k`, valid or not as `valid` says, is reached by a
      broadcast from `sender`: a valid client socket other than the sender
      that carries an attachment. */
  predicate IsRecipient(k: SelectionKey, sender: SelectionKey, valid: bool) {
    valid && k.channel.Client? && k != sender && k.attachment != null
  }

  /** The shape every registered key keeps: the listening key has no
      attachment and only accept interest; a client key has an attachment,
      always keeps read interest, and is interested in nothing but reading
      and writing. */
  predicate WellFormed(k: SelectionKey)
    reads k
  {
    match k.channel
    case Listener => k.attachment == null && k.interestOps == OP_ACCEPT
    case Client(_) =>
      k.attachment != null && Has(k.interestOps, OP_READ)
      && k.interestOps & !(OP_READ | OP_WRITE) == 0
  }

  /** The messages a read event broadcasts for a connection at `address`
      whose accumulator held `incoming`. */
  function ReadMessages(address: string, incoming: string, result: ReadResult): seq<string> {
    if result.Chars? then Messages(address, incoming + result.text) else []
  }

  /** What the handlers change about a key: its validity and interest, and
      its attachment's accumulator and write queue (empty for a key without
      an attachment). */
  datatype KeyView = KeyView(valid: bool, interestOps: bv32, incoming: string, writeQueue: seq<Chunk>)

  ghost function View(k: SelectionKey): KeyView
    reads k, k.attachment
  {
    if k.attachment == null then KeyView(k.valid, k.interestOps, [], [])
    else KeyView(k.valid, k.interestOps, k.attachment.incoming, k.attachment.writeQueue)
  }

  /** Key `k`, seen as `v`, after `msgs` were broadcast from `sender`: a
      recipient (a valid client key other than the sender, with an
      attachment) has the messages' buffers appended to its queue, in order,
      and write interest set; any other key is left as it was. */
  function Deliver(k: SelectionKey, sender: SelectionKey, v: KeyView, msgs: seq<string>): KeyView {
    if IsRecipient(k, sender, v.valid) && msgs != [] then
      v.(interestOps := WithWrite(v.interestOps), writeQueue := v.writeQueue + Chunks(msgs))
    else v
  }

  /** Key state `w` after a key in state `v` went through its read stage
      (when `readRan`, with result `read`) and its write stage (when
      `writeRan`): decoded text leaves the accumulator holding the text after
      the last newline; the bytes `sent` and those still queued are exactly
      those queued before, the queue having lost only whole buffers from its
      front; a write that did not fail stops only at an empty queue or at a
      front buffer with bytes left, and drops write interest exactly when the
      queue ended empty; without a write the queue and the interest are as
      they were. */
  predicate Served(v: KeyView, w: KeyView, readRan: bool, read: ReadResult, writeRan: bool,
                   sent: seq<byte>, writeFailed: bool)
  {
    && w.incoming == (if readRan && read.Chars? then Rest(v.incoming + read.text) else v.incoming)
    && sent + Pending(w.writeQueue) == Pending(v.writeQueue)
    && DrainedFrom(v.writeQueue, w.writeQueue)
    && (!writeRan ==> sent == [] && !writeFailed && w.writeQueue == v.writeQueue)
    && (writeRan && !writeFailed && w.writeQueue != [] ==> HasRemaining(w.writeQueue[0]))
    && w.interestOps == if writeRan && !writeFailed && w.writeQueue == [] then WithoutWrite(v.interestOps)
                        else v.interestOps
  }

  /** A read stage that wrote nothing followed by a write stage that read
      nothing is both stages at once. */
  lemma ServedThen(v: KeyView, m: KeyView, w: KeyView, readRan: bool, read: ReadResult, writeRan: bool,
                   sent: seq<byte>, writeFailed: bool)
    requires Served(v, m, readRan, read, false, [], false)
    requires Served(m, w, false, NoBytes, writeRan, sent, writeFailed)
    ensures Served(v, w, readRan, read, writeRan, sent, writeFailed)
  {
  }

  /** What a delivery means on the wire: a recipient's queue keeps what it
      held and then holds exactly the UTF-8 bytes of the messages, in order,
      with write interest set and every other interest bit kept; any other
      key is left as it was. */
  lemma DeliverQueuesBytes(k: SelectionKey, sender: SelectionKey, v: KeyView, msgs: seq<string>)
    requires msgs != []
    ensures var w := Deliver(k, sender, v, msgs);
            if IsRecipient(k, sender, v.valid) then
              w.valid == v.valid && w.incoming == v.incoming
              && Pending(w.writeQueue) == Pending(v.writeQueue) + Encode(Concat(msgs))
              && Has(w.interestOps, OP_WRITE) && w.interestOps & !OP_WRITE == v.interestOps & !OP_WRITE
            else w == v
  {
    if IsRecipient(k, sender, v.valid) {
      PendingAppend(v.writeQueue, Chunks(msgs));
      PendingChunks(msgs);
    }
  }

  /** Broadcasting `a` and then `b` leaves every key as broadcasting `a + b`
      at once would: queues grow in message order and interest is set once. */
  lemma DeliverTwice(k: SelectionKey, sender: SelectionKey, v: KeyView, a: seq<string>, b: seq<string>)
    ensures Deliver(k, sender, Deliver(k, sender, v, a), b) == Deliver(k, sender, v, a + b)
    ensures Deliver(k, sender, v, a).valid == v.valid && Deliver(k, sender, v, a).incoming == v.incoming
  {
    if a == [] {
      assert a + b == b;
    } else if b == [] {
      assert a + b == a;
    } else {
      ChunksAppend(a, b);
      Associative(v.writeQueue, Chunks(a), Chunks(b));
      WithWriteIdempotent(v.interestOps);
    }
  }

  class NioChatServer {
    /** `selector.keys()`: every registered key, cancelled ones included until
        the selector deregisters them. */
    var keys: seq<SelectionKey>
    /** The line queued for every accepted client: `WELCOME`. */
    const greeting: string

    /** The keys and their attachments: everything the handlers may update. */
    ghost var Repr: set<object>

    /** Every key knows its own position, and so does its attachment: no key
        is registered twice and no two keys share an attachment. Every key is
        well formed, and it and its attachment belong to `Repr`. */
    ghost predicate Valid()
      reads this, Repr
    {
      this !in Repr
      && forall i :: 0 <= i < |keys| ==>
           keys[i] in Repr && keys[i].slot == i && WellFormed(keys[i])
           && (keys[i].attachment != null ==> keys[i].attachment in Repr && keys[i].attachment.slot == i)
    }

    /** Between read events no accumulator holds a complete line. */
    ghost predicate Settled()
      reads this, Repr
      requires Valid()
    {
      forall i :: 0 <= i < |keys| && keys[i].attachment != null ==> NoNewline(keys[i].attachment.incoming)
    }

    /** The selector with the listening key registered for accepting. */
    constructor ()
      ensures Valid() && Settled()
      ensures |keys| == 1 && keys[0].channel == Listener && keys[0].valid
      ensures greeting == WELCOME
    {
      greeting := WELCOME;
      var listening := new SelectionKey(Listener, OP_ACCEPT, null, 0);
      keys := [listening];
      Repr := {listening};
    }

    /** `enqueueBytesToAttachment`: append one buffer holding `bytes` at the
        tail of the attachment's write queue. */
    method EnqueueBytesToAttachment(attach: ClientAttachment, bytes: seq<byte>)
      modifies attach
      ensures attach.writeQueue == old(attach.writeQueue) + [Wrap(bytes)]
      ensures attach.incoming == old(attach.incoming)
    {
      attach.writeQueue := attach.writeQueue + [Wrap(bytes)];
    }

    /** `broadcast`: every valid client key other than the sender gets the
        message's bytes as one buffer at the tail of its queue and has write
        interest set; all other keys, and everything already queued, are left
        as they were. */
    method Broadcast(message: string, sender: SelectionKey)
      requires Valid()
      modifies Repr
      ensures Valid()
      ensures forall i :: 0 <= i < |keys| ==> View(keys[i]) == Deliver(keys[i], sender, old(View(keys[i])), [message])
    {
      var bytes := Encode(message);
      assert Chunks([message]) == [Wrap(bytes)];
      for i := 0 to |keys|
        invariant forall j :: 0 <= j < |keys| ==> WellFormed(keys[j])
        invariant forall j :: 0 <= j < |keys| ==>
                    View(keys[j]) == Deliver(keys[j], sender, old(View(keys[j])), if j < i then [message] else [])
      {
        var key := keys[i];
        if !key.valid {
          continue;
        }
        if key.channel.Client? {
          if key == sender {
            continue;
          }
          var attach := key.attachment;
          if attach != null {
            EnqueueBytesToAttachment(attach, bytes);
            key.interestOps := WithWrite(key.interestOps);
          }
        }
      }
    }

    /** `enqueueMessage`: queue `message` for the connection whose key is
        `key` (`sc.keyFor(selector)`, null when the channel is not registered)
        and set its write interest; nothing happens without a key or an
        attachment. The key must be valid: on a cancelled key `interestOps()`
        throws once the bytes are queued. */
    method EnqueueMessage(key: SelectionKey?, message: string)
      requires key != null ==> WellFormed(key) && key.valid
      modifies key, if key != null && key.attachment != null then {key.attachment} else {}
      ensures key != null ==> WellFormed(key) && key.valid
      ensures key != null && key.attachment != null ==>
                key.attachment.writeQueue == old(key.attachment.writeQueue) + [Wrap(Encode(message))]
                && key.attachment.incoming == old(key.attachment.incoming)
                && key.interestOps == WithWrite(old(key.interestOps))
      ensures key != null && key.attachment == null ==> key.interestOps == old(key.interestOps)
    {
      var bytes := Encode(message);
      if key == null {
        return;
      }
      var attach := key.attachment;
      if attach == null {
        return;
      }
      EnqueueBytesToAttachment(attach, bytes);
      key.interestOps := WithWrite(key.interestOps);
    }

    /** `closeKey`: cancel the key. It stays in the key set, invalid, until
        the selector deregisters it; its attachment is left as it was. */
    method CloseKey(key: SelectionKey)
      modifies key
      ensures !key.valid && key.interestOps == old(key.interestOps)
    {
      key.valid := false;
    }

    /** `handleAccept`: register the accepted connection from `peer` for
        reading with a fresh attachment, and queue the welcome line for it. */
    method HandleAccept(peer: string) returns (client: SelectionKey)
      requires Valid() && Settled()
      modifies this
      ensures Valid() && Settled()
      ensures keys == old(keys) + [client]
      ensures fresh(client) && fresh(client.attachment)
      ensures Repr == old(Repr) + {client, client.attachment}
      ensures client.channel == Client(peer) && client.valid
      ensures client.interestOps == OP_READ | OP_WRITE
      ensures client.attachment != null && client.attachment.incoming == []
      ensures client.attachment.writeQueue == [Wrap(Encode(greeting))]
    {
      var attach := new ClientAttachment(|keys|);
      client := new SelectionKey(Client(peer), OP_READ, attach, |keys|);
      ghost var before := keys;
      assert forall i :: 0 <= i < |before| ==> before[i] != client && before[i].attachment != attach;
      keys := keys + [client];
      Repr := Repr + {client, attach};
      EnqueueMessage(client, greeting);
      assert Valid() && Settled() by {
        assert forall i :: 0 <= i < |before| ==> keys[i] == before[i];
        assert keys[|before|] == client;
      }
    }

    /** The drain loop of `handleWrite`: send the queued buffers front to
        back. The transport takes any number of a buffer's remaining bytes, or
        fails (`failed`, an `IOException` from `write`); a buffer it does not
        take completely stays at the front, advanced, and ends the attempt.
        `sent` is what went out on the wire: it and what is still queued
        together are exactly what was queued before. */
    method DrainQueue(attach: ClientAttachment) returns (sent: seq<byte>, failed: bool)
      modifies attach
      ensures attach.incoming == old(attach.incoming)
      ensures sent + Pending(attach.writeQueue) == Pending(old(attach.writeQueue))
      ensures DrainedFrom(old(attach.writeQueue), attach.writeQueue)
      ensures failed ==> attach.writeQueue != []
      ensures !failed && attach.writeQueue != [] ==> HasRemaining(attach.writeQueue[0])
    {
      sent, failed := [], false;
      while attach.writeQueue != []
        invariant sent + Pending(attach.writeQueue) == Pending(old(attach.writeQueue))
        invariant DrainedFrom(old(attach.writeQueue), attach.writeQueue)
        invariant attach.incoming == old(attach.incoming)
        decreases |attach.writeQueue|
      {
        var q := attach.writeQueue;
        var writeFails: bool :| true;
        if writeFails {
          failed := true;
          return;
        }
        var n: nat :| n <= |Remaining(q[0])|;
        var buf := Advance(q[0], n);
        WriteFront(q, n);
        Associative(sent, Remaining(q[0])[..n], Pending([buf] + q[1..]));
        sent := sent + Remaining(q[0])[..n];
        if HasRemaining(buf) {
          attach.writeQueue := [buf] + q[1..];
          DrainedTransitive(old(attach.writeQueue), q, attach.writeQueue);
          break;
        }
        attach.writeQueue := q[1..];
        DrainedTransitive(old(attach.writeQueue), q, attach.writeQueue);
      }
    }

    /** `handleWrite`: drain the key's write queue, and drop write interest
        once it is empty, every other interest bit kept. A failed write
        propagates with the interest left as it was. The key must be valid:
        on a cancelled key `isWritable()` throws before the handler is
        reached. */
    method HandleWrite(key: SelectionKey) returns (sent: seq<byte>, failed: bool)
      requires Valid() && Settled() && key in keys && key.valid && key.channel.Client? && key.attachment != null
      modifies key, key.attachment
      ensures Valid() && Settled()
      ensures key.valid == old(key.valid)
      ensures key.attachment.incoming == old(key.attachment.incoming)
      ensures sent + Pending(key.attachment.writeQueue) == Pending(old(key.attachment.writeQueue))
      ensures DrainedFrom(old(key.attachment.writeQueue), key.attachment.writeQueue)
      ensures !failed && key.attachment.writeQueue != [] ==> HasRemaining(key.attachment.writeQueue[0])
      ensures key.interestOps == if !failed && key.attachment.writeQueue == []
                                 then WithoutWrite(old(key.interestOps))
                                 else old(key.interestOps)
    {
      var attach := key.attachment;
      sent, failed := DrainQueue(attach);
      if failed {
        return;
      }
      if attach.writeQueue == [] {
        key.interestOps := WithoutWrite(key.interestOps);
      }
    }

    /** `handleRead`: one read event on a client connection. End of stream
        cancels the key; a read of nothing changes nothing; a read error
        (`failed`, an `IOException`) propagates with nothing changed. Decoded
        text is appended to the accumulator, every complete line in it is cut
        off in order, and each one that is not blank after trimming is
        broadcast as `"[address] line\n"` to every other client; the
        accumulator keeps the text after the last newline. */
    method HandleRead(key: SelectionKey, result: ReadResult) returns (failed: bool)
      requires Valid() && Settled() && key in keys && key.valid && key.channel.Client? && key.attachment != null
      modifies Repr
      ensures Valid() && Settled()
      ensures failed <==> result == ReadError
      ensures key.valid <==> result != EndOfStream
      ensures key.interestOps == old(key.interestOps)
      ensures key.attachment.writeQueue == old(key.attachment.writeQueue)
      ensures key.attachment.incoming
              == if result.Chars? then Rest(old(key.attachment.incoming) + result.text)
                 else old(key.attachment.incoming)
      ensures forall i :: 0 <= i < |keys| && keys[i] != key ==>
                View(keys[i]) == Deliver(keys[i], key, old(View(keys[i])),
                                         ReadMessages(key.channel.address, old(key.attachment.incoming), result))
    {
      match result
      case ReadError =>
        return true;
      case EndOfStream =>
        CloseKey(key);
        assert Chunks([]) == [];
        return false;
      case NoBytes =>
        assert Chunks([]) == [];
        return false;
      case Chars(text) =>
        assert ReadMessages(key.channel.address, key.attachment.incoming, result)
               == Messages(key.channel.address, key.attachment.incoming + text);
        FrameAndBroadcast(key, text);
        return false;
    }

    /** The decoded-text half of `handleRead`: append `text` to the
        accumulator, broadcast the complete lines in it, and keep the text
        after the last newline. */
    method FrameAndBroadcast(key: SelectionKey, text: string)
      requires Valid() && Settled() && key in keys && key.valid && key.channel.Client? && key.attachment != null
      modifies Repr
      ensures Valid() && Settled()
      ensures key.valid && key.interestOps == old(key.interestOps)
      ensures key.attachment.writeQueue == old(key.attachment.writeQueue)
      ensures key.attachment.incoming == Rest(old(key.attachment.incoming) + text)
      ensures forall i :: 0 <= i < |keys| && keys[i] != key ==>
                View(keys[i]) == Deliver(keys[i], key, old(View(keys[i])),
                                         Messages(key.channel.address, old(key.attachment.incoming) + text))
    {
      var attach := key.attachment;
      ghost var pos :| 0 <= pos < |keys| && keys[pos] == key;
      attach.incoming := attach.incoming + text;
      label appended:
      var sb := BroadcastLines(key, attach.incoming);
      assert View(keys[pos]) == old@appended(View(keys[pos]));
      label lines:
      attach.incoming := sb;
      forall i | 0 <= i < |keys| && i != pos
        ensures View(keys[i]) == Deliver(keys[i], key, old(View(keys[i])),
                                         Messages(key.channel.address, old(key.attachment.incoming) + text))
      {
        assert keys[i].attachment != attach;
        assert old@appended(View(keys[i])) == old(View(keys[i]));
        assert View(keys[i]) == old@lines(View(keys[i]));
      }
      assert Settled() by {
        forall i | 0 <= i < |keys| && keys[i].attachment != null
          ensures NoNewline(keys[i].attachment.incoming)
        {
          if i != pos {
            assert View(keys[i]).incoming == old(View(keys[i])).incoming;
          }
        }
      }
    }

    /** The line loop of `handleRead`: cut every complete line off the front
        of `s` in order, broadcast each one that is not blank after trimming
        as `"[address] line\n"` from `key` to every other client, and return
        the text after the last newline. */
    method BroadcastLines(key: SelectionKey, s: string) returns (rest: string)
      requires Valid() && key in keys && key.channel.Client?
      modifies Repr
      ensures Valid()
      ensures rest == Rest(s)
      ensures forall i :: 0 <= i < |keys| ==>
                View(keys[i]) == Deliver(keys[i], key, old(View(keys[i])), Messages(key.channel.address, s))
    {
      var address := key.channel.address;
      var sb := s;
      ghost var sent: seq<string> := [];
      var idx := IndexOf(sb, NL);
      while idx != -1
        invariant Valid()
        invariant idx == IndexOf(sb, NL)
        invariant sent + Messages(address, sb) == Messages(address, s)
        invariant Rest(sb) == Rest(s)
        invariant forall i :: 0 <= i < |keys| ==> View(keys[i]) == Deliver(keys[i], key, old(View(keys[i])), sent)
        decreases |sb|
      {
        FrameStep(address, sb, sent);
        var line := Trim(sb[..idx]);
        sb := sb[idx + 1..];
        if line != [] {
          var message := Format(address, line);
          Broadcast(message, key);
          forall i | 0 <= i < |keys|
            ensures View(keys[i]) == Deliver(keys[i], key, old(View(keys[i])), sent + [message])
          {
            DeliverTwice(keys[i], key, old(View(keys[i])), sent, [message]);
          }
          sent := sent + [message];
        }
        idx := IndexOf(sb, NL);
      }
      MessagesNone(address, sb);
      assert sent == Messages(address, s);
      rest := sb;
    }

    /** One selected key in the selection loop, with the key's validity
        checked again before its write stage: skip a cancelled key, accept if
        acceptable, then read and write. `ready` is the key's ready set from
        the selector, a subset of its interest set; `read` is what the
        channel's read gives, and `peer` the address of the connection an
        accept takes. `sent` is what the write stage put on the wire and
        `writeFailed` whether its `write` failed. */
    method ProcessKey(key: SelectionKey, ready: bv32, read: ReadResult, peer: string)
      returns (step: Step, sent: seq<byte>, writeFailed: bool)
      requires Valid() && Settled() && key in keys && ready & !key.interestOps == 0
      modifies this, Repr
      ensures Valid() && Settled()
      ensures step == KeyStep(old(key.valid), ready, read, writeFailed)
      ensures key.valid <==> old(key.valid) && !Closes(step)
      ensures |old(keys)| <= |keys| && keys[..|old(keys)|] == old(keys)
      ensures |keys| == |old(keys)| + (if old(key.valid) && Has(ready, OP_ACCEPT) then 1 else 0)
      ensures |keys| > |old(keys)| ==>
                keys[|old(keys)|].channel == Client(peer)
                && View(keys[|old(keys)|]) == KeyView(true, OP_READ | OP_WRITE, [], [Wrap(Encode(greeting))])
      ensures writeFailed ==> old(key.valid) && WriteRuns(ready, read)
      ensures Served(old(View(key)), View(key), old(key.valid) && Has(ready, OP_READ), read,
                     old(key.valid) && WriteRuns(ready, read), sent, writeFailed)
      ensures forall i :: 0 <= i < |old(keys)| && keys[i] != key ==>
                View(keys[i]) == Deliver(keys[i], key, old(View(keys[i])),
                                         if old(key.valid) && Has(ready, OP_READ)
                                         then ReadMessages(key.channel.address, old(View(key)).incoming, read)
                                         else [])
    {
      if !key.valid {
        return Step([], false), [], false;
      }
      if Has(ready, OP_ACCEPT) {
        assert !Has(ready, OP_READ) && !Has(ready, OP_WRITE);
        var _ := HandleAccept(peer);
        label accepted:
        step, sent, writeFailed := ServeClient(key, ready, read, [Accept]);
        assert forall i :: 0 <= i < |keys| && keys[i] != key ==> View(keys[i]) == old@accepted(View(keys[i]));
      } else {
        step, sent, writeFailed := ServeClient(key, ready, read, []);
      }
    }

    /** The read and write stages of a valid key after `calls`: read if
        readable, cancelling the key when the read fails (the selection
        loop's `catch`) or the peer closed the connection; then, if the key
        is still valid, the write stage. A listening key is never readable or
        writable. */
    method ServeClient(key: SelectionKey, ready: bv32, read: ReadResult, calls: seq<Handler>)
      returns (step: Step, sent: seq<byte>, writeFailed: bool)
      requires Valid() && Settled() && key in keys && key.valid
      requires Read !in calls && Write !in calls && Close !in calls
      requires Has(ready, OP_READ) || Has(ready, OP_WRITE) ==> key.channel.Client?
      modifies Repr
      ensures Valid() && Settled()
      ensures step == ReadWriteStage(calls, ready, read, writeFailed)
      ensures key.valid <==> !Closes(step)
      ensures writeFailed ==> WriteRuns(ready, read)
      ensures Served(old(View(key)), View(key), Has(ready, OP_READ), read, WriteRuns(ready, read), sent, writeFailed)
      ensures forall i :: 0 <= i < |keys| && keys[i] != key ==>
                View(keys[i]) == Deliver(keys[i], key, old(View(keys[i])),
                                         if Has(ready, OP_READ)
                                         then ReadMessages(key.channel.address, old(View(key)).incoming, read)
                                         else [])
    {
      ServeRead(key, ready, read);
      ReadWriteStageRuns(calls, ready, read, false);
      if !key.valid {
        return Step(calls + [Read, Close], false), [], false;
      }
      label readDone:
      sent, writeFailed := ServeWrite(key, ready);
      ServedThen(old(View(key)), old@readDone(View(key)), View(key), Has(ready, OP_READ), read,
                 WriteRuns(ready, read), sent, writeFailed);
      step := WriteStage(if Has(ready, OP_READ) then calls + [Read] else calls, ready, writeFailed);
      ReadWriteStageRuns(calls, ready, read, writeFailed);
    }

    /** The read stage of a valid key: read if readable, cancelling the key
        when the read fails (the selection loop's `catch`); end of stream
        cancels it inside the read handler. */
    method ServeRead(key: SelectionKey, ready: bv32, read: ReadResult)
      requires Valid() && Settled() && key in keys && key.valid
      requires Has(ready, OP_READ) ==> key.channel.Client?
      modifies Repr
      ensures Valid() && Settled()
      ensures key.valid <==> !ReadCloses(ready, read)
      ensures Served(old(View(key)), View(key), Has(ready, OP_READ), read, false, [], false)
      ensures forall i :: 0 <= i < |keys| && keys[i] != key ==>
                View(keys[i]) == Deliver(keys[i], key, old(View(keys[i])),
                                         if Has(ready, OP_READ)
                                         then ReadMessages(key.channel.address, old(View(key)).incoming, read)
                                         else [])
    {
      if Has(ready, OP_READ) {
        var failed := HandleRead(key, read);
        if failed {
          CloseKey(key);
        }
      }
    }

    /** The write stage of a key still valid after its read stage: write if
        writable, cancelling the key when the write fails (the selection
        loop's `catch`). */
    method ServeWrite(key: SelectionKey, ready: bv32) returns (sent: seq<byte>, writeFailed: bool)
      requires Valid() && Settled() && key in keys && key.valid
      requires Has(ready, OP_WRITE) ==> key.channel.Client?
      modifies key, key.attachment
      ensures Valid() && Settled()
      ensures key.valid == !writeFailed
      ensures writeFailed ==> Has(ready, OP_WRITE)
      ensures Served(old(View(key)), View(key), false, NoBytes, Has(ready, OP_WRITE), sent, writeFailed)
      ensures forall i :: 0 <= i < |keys| && keys[i] != key ==> View(keys[i]) == old(View(keys[i]))
    {
      ghost var pos :| 0 <= pos < |keys| && keys[pos] == key;
      sent, writeFailed := [], false;
      if Has(ready, OP_WRITE) {
        sent, writeFailed := HandleWrite(key);
        if writeFailed {
          CloseKey(key);
        }
      }
      forall i | 0 <= i < |keys| && i != pos
        ensures View(keys[i]) == old(View(keys[i]))
      {
        assert keys[i].attachment != null ==> keys[i].attachment != key.attachment;
      }
    }
  }
}
