/**
 * A connection's outgoing queue: a FIFO of byte buffers, one per queued
 * message, each with the position up to which the transport has taken it.
 */
module WriteQueue {
  import opened Utf8
  import Framing

  /** A `ByteBuffer` wrapped around one message's bytes; `position` counts the
      bytes the transport has already taken. */
  datatype ByteBuffer = ByteBuffer(data: seq<byte>, position: nat)

  /** A buffer whose position lies within its bytes, as `ByteBuffer` keeps it. */
  type Chunk = b: ByteBuffer | b.position <= |b.data| witness ByteBuffer([], 0)

  /** The bytes of `c` not yet taken by the transport. */
  function Remaining(c: Chunk): seq<byte> {
    c.data[c.position..]
  }

  /** `ByteBuffer.hasRemaining()`. */
  predicate HasRemaining(c: Chunk) {
    c.position < |c.data|
  }

  /** `ByteBuffer.wrap(bytes)`: a buffer with every byte still to send. */
  function Wrap(bytes: seq<byte>): (c: Chunk)
    ensures Remaining(c) == bytes
  {
    ByteBuffer(bytes, 0)
  }

  /** The buffer after the transport took `n` more of its bytes. */
  function Advance(c: Chunk, n: nat): (c': Chunk)
    requires n <= |Remaining(c)|
    ensures c'.data == c.data && c'.position == c.position + n
    ensures Remaining(c) == Remaining(c)[..n] + Remaining(c')
  {
    ByteBuffer(c.data, c.position + n)
  }

  /** The bytes still to be sent, front buffer first. */
  function Pending(q: seq<Chunk>): seq<byte> {
    if q == [] then [] else Remaining(q[0]) + Pending(q[1..])
  }

  lemma {:induction false} PendingAppend(q: seq<Chunk>, r: seq<Chunk>)
    ensures Pending(q + r) == Pending(q) + Pending(r)
  {
    if q == [] {
      assert q + r == r;
    } else {
      assert (q + r)[0] == q[0];
      assert (q + r)[1..] == q[1..] + r;
      PendingAppend(q[1..], r);
      Framing.Associative(Remaining(q[0]), Pending(q[1..]), Pending(r));
    }
  }

  /** The buffers queued for a sequence of messages: one per message, in order,
      each wrapping the message's UTF-8 bytes. */
  function Chunks(msgs: seq<string>): (q: seq<Chunk>)
    ensures |q| == |msgs|
  {
    if msgs == [] then [] else [Wrap(Encode(msgs[0]))] + Chunks(msgs[1..])
  }

  /** Queueing two batches of messages one after the other queues the
      buffers of the whole batch. */
  lemma {:induction false} ChunksAppend(a: seq<string>, b: seq<string>)
    ensures Chunks(a + b) == Chunks(a) + Chunks(b)
  {
    if a == [] {
      assert a + b == b;
    } else {
      assert (a + b)[0] == a[0];
      assert (a + b)[1..] == a[1..] + b;
      ChunksAppend(a[1..], b);
      Framing.Associative([Wrap(Encode(a[0]))], Chunks(a[1..]), Chunks(b));
    }
  }

  /** Queueing the chunks of several messages queues exactly the encoding of
      the messages' concatenation: every message arrives whole and in order. */
  lemma {:induction false} PendingChunks(msgs: seq<string>)
    ensures Pending(Chunks(msgs)) == Encode(Framing.Concat(msgs))
  {
    if msgs != [] {
      var q := Chunks(msgs);
      assert q[1..] == Chunks(msgs[1..]);
      PendingChunks(msgs[1..]);
      EncodeAppend(msgs[0], Framing.Concat(msgs[1..]));
    }
  }

  /** `after` is what a drain can leave of `before`: whole buffers taken off the
      front, then possibly the new front buffer advanced, the rest untouched. */
  predicate DrainedFrom(before: seq<Chunk>, after: seq<Chunk>) {
    |after| <= |before| &&
    (after != [] ==>
       var d := |before| - |after|;
       after[1..] == before[d + 1..] && after[0].data == before[d].data
       && before[d].position <= after[0].position)
  }

  /** One write into the front buffer: the transport takes the first `n` of
      its remaining bytes, and the queue with that buffer advanced still holds
      everything else, in order. A front buffer written out completely can be
      dropped without losing a byte. */
  lemma WriteFront(q: seq<Chunk>, n: nat)
    requires q != [] && n <= |Remaining(q[0])|
    ensures var b := Advance(q[0], n);
            Pending(q) == Remaining(q[0])[..n] + Pending([b] + q[1..])
            && DrainedFrom(q, [b] + q[1..])
            && (!HasRemaining(b) ==> Pending([b] + q[1..]) == Pending(q[1..]) && DrainedFrom(q, q[1..]))
  {
    var b := Advance(q[0], n);
    var q' := [b] + q[1..];
    assert q'[0] == b && q'[1..] == q[1..];
    Framing.Associative(Remaining(q[0])[..n], Remaining(b), Pending(q[1..]));
    if !HasRemaining(b) {
      assert Remaining(b) == [];
      if |q| > 1 {
        assert q[1..][1..] == q[2..];
      }
    }
  }

  /** Draining again where the previous drain stopped is a drain of the
      original queue: a partially written buffer resumes at its position. */
  lemma DrainedTransitive(q0: seq<Chunk>, q1: seq<Chunk>, q2: seq<Chunk>)
    requires DrainedFrom(q0, q1) && DrainedFrom(q1, q2)
    ensures DrainedFrom(q0, q2)
  {
    if q2 != [] {
      var d1 := |q0| - |q1|;
      var d2 := |q1| - |q2|;
      assert q1[1..] == q0[d1 + 1..];
      if d2 > 0 {
        assert q1[d2] == q0[d1 + d2];
        assert q1[d2 + 1..] == q0[d1 + d2 + 1..];
      }
    }
  }
}
