/** The ciphertext queues between TCP and TLS (kernel/src/net.rs:1100-1179): a receive buffer that is
    compacted lazily, and a transmit buffer that is flushed in segments. */
module TlsQueue {
  import opened Bytes
  import opened Arithmetic

  const TLS_CIPHER_RX_CAP := 49152
  const TLS_TX_CAP := 24576
  const COMPACT_ABOVE := 24576
  const MSS := 1400
  /** Everything in a frame but the payload: the virtio header, Ethernet, IP and TCP. */
  const FRAME_OVERHEAD := 12 + 14 + 20 + 20
  const U16 := 0x1_0000

  class CipherQueue {
    const cipherIn: array<byte>
    var off: nat
    var len: nat

    predicate Valid()
      reads this
    {
      cipherIn.Length == TLS_CIPHER_RX_CAP && off <= len <= TLS_CIPHER_RX_CAP
    }

    /** The bytes that wait to be read. */
    function Contents(): bytes
      requires Valid()
      reads this, cipherIn
    {
      cipherIn[off..len]
    }

    constructor ()
      ensures Valid() && Contents() == [] && fresh(cipherIn)
    {
      cipherIn := new byte[TLS_CIPHER_RX_CAP](_ => 0);
      off, len := 0, 0;
    }

    method Compact()
      requires Valid()
      modifies this`off, this`len, cipherIn
      ensures Valid() && off == 0 && Contents() == old(Contents())
    {
      if off == 0 {
        return;
      }
      var rem := len - off;
      if rem > 0 {
        forall i | 0 <= i < rem {
          cipherIn[i] := cipherIn[off + i];
        }
      }
      len := rem;
      off := 0;
    }

    /** A bounded queue: data is taken whole if and only if it fits beside the live bytes. */
    method Append(data: bytes) returns (ok: bool)
      requires Valid()
      modifies this`off, this`len, cipherIn
      ensures Valid() && ok == (|old(Contents())| + |data| <= TLS_CIPHER_RX_CAP)
      ensures Contents() == if ok then old(Contents()) + data else old(Contents())
    {
      if len + |data| > cipherIn.Length {
        Compact();
      }
      if len + |data| > cipherIn.Length {
        return false;
      }
      ghost var was := Contents();
      var end := len;
      forall i | 0 <= i < |data| {
        cipherIn[end + i] := data[i];
      }
      len := len + |data|;
      assert cipherIn[off..len] == was + data;
      return true;
    }

    /** Fills a caller's buffer of `room` bytes with the longest prefix that fits. */
    method Pop(room: nat) returns (out: bytes)
      requires Valid()
      modifies this`off, this`len, cipherIn
      ensures Valid() && old(Contents()) == out + Contents()
      ensures |out| == if |old(Contents())| < room then |old(Contents())| else room
    {
      var avail := len - off;
      if avail == 0 {
        return [];
      }
      var n := if avail < room then avail else room;
      out := cipherIn[off..off + n];
      off := off + n;
      assert old(Contents()) == out + Contents();
      if off >= len {
        off := 0;
        len := 0;
      } else if off > COMPACT_ABOVE {
        Compact();
      }
    }

    method Apply(op: QueueOp) returns (ok: bool, out: bytes)
      requires Valid()
      modifies this`off, this`len, cipherIn
      ensures Valid() && Reply(ok, out, Contents()) == Answer(old(Contents()), op)
    {
      ok, out := true, [];
      match op {
        case Put(data) =>
          ok := Append(data);
        case Get(room) =>
          out := Pop(room);
          assert old(Contents())[..|out|] == out && old(Contents())[|out|..] == Contents();
      }
    }

    /** Any run of appends and reads, whatever compaction happens on the way, gives what a bounded first-in,
        first-out queue gives. */
    method Run(ops: seq<QueueOp>) returns (accepted: seq<bool>, out: bytes)
      requires Valid()
      modifies this`off, this`len, cipherIn
      ensures Valid() && Queue(accepted, out, Contents()) == Answered(old(Contents()), ops, |ops|)
    {
      hide Contents, Answer;
      accepted, out := [], [];
      for k := 0 to |ops|
        invariant Valid() && Queue(accepted, out, Contents()) == Answered(old(Contents()), ops, k)
      {
        var ok, bytes := Apply(ops[k]);
        accepted := accepted + [ok];
        out := out + bytes;
      }
    }
  }

  // ----- the bounded queue that it implements

  datatype QueueOp = Put(data: bytes) | Get(room: nat)

  /** Whether the operation was accepted, what it returned, and what waits afterwards. */
  datatype Reply = Reply(ok: bool, out: bytes, waiting: bytes)

  /** Data is taken whole or not at all; a read returns as much as there is and its caller has room for. */
  function Answer(waiting: bytes, op: QueueOp): Reply {
    match op
    case Put(data) => if |waiting| + |data| <= TLS_CIPHER_RX_CAP then Reply(true, [], waiting + data) else Reply(false, [], waiting)
    case Get(room) => var n := if |waiting| < room then |waiting| else room; Reply(true, waiting[..n], waiting[n..])
  }

  /** A run so far: the answers to the appends, everything read, and what waits. */
  datatype Queue = Queue(accepted: seq<bool>, out: bytes, waiting: bytes)

  function Answered(waiting: bytes, ops: seq<QueueOp>, n: nat): (q: Queue)
    requires n <= |ops|
    ensures |q.accepted| == n
  {
    if n == 0 then Queue([], [], waiting) else
    var q := Answered(waiting, ops, n - 1);
    var r := Answer(q.waiting, ops[n - 1]);
    Queue(q.accepted + [r.ok], q.out + r.out, r.waiting)
  }

  function Taken(op: QueueOp, ok: bool): bytes {
    if op.Put? && ok then op.data else []
  }

  /** The bytes that the first n operations put into the queue. */
  function Accepted(ops: seq<QueueOp>, ok: seq<bool>, n: nat): bytes
    requires n <= |ops| && n <= |ok|
  {
    if n == 0 then [] else Accepted(ops, ok, n - 1) + Taken(ops[n - 1], ok[n - 1])
  }

  lemma {:induction false} SameAccepted(ops: seq<QueueOp>, a: seq<bool>, b: seq<bool>, n: nat)
    requires n <= |ops| && n <= |a| && a <= b
    ensures Accepted(ops, a, n) == Accepted(ops, b, n)
  {
    if n > 0 {
      SameAccepted(ops, a, b, n - 1);
    }
  }

  lemma {:induction false} AnswerConserves(waiting: bytes, op: QueueOp)
    ensures var r := Answer(waiting, op); r.out + r.waiting == waiting + Taken(op, r.ok)
    ensures |Answer(waiting, op).waiting| <= if |waiting| <= TLS_CIPHER_RX_CAP then TLS_CIPHER_RX_CAP else |waiting|
  {
    assert [] + waiting == waiting == waiting + [];
  }

  /** Over any run, the bytes that were read, followed by those that wait, are the bytes that were accepted, in
      order: nothing is lost, repeated or moved. Never more wait than the buffer holds. */
  lemma {:induction false} QueueConserves(waiting: bytes, ops: seq<QueueOp>, n: nat)
    requires n <= |ops| && |waiting| <= TLS_CIPHER_RX_CAP
    ensures var q := Answered(waiting, ops, n);
            q.out + q.waiting == waiting + Accepted(ops, q.accepted, n) && |q.waiting| <= TLS_CIPHER_RX_CAP
  {
    hide Answer, Taken;
    if n == 0 {
      assert [] + waiting == waiting == waiting + [];
    } else {
      QueueConserves(waiting, ops, n - 1);
      var q := Answered(waiting, ops, n - 1);
      var r := Answer(q.waiting, ops[n - 1]);
      AnswerConserves(q.waiting, ops[n - 1]);
      SameAccepted(ops, q.accepted, q.accepted + [r.ok], n - 1);
      assert q.out + r.out + r.waiting == q.out + (r.out + r.waiting) == q.out + q.waiting + Taken(ops[n - 1], r.ok);
      var before, more := Accepted(ops, q.accepted, n - 1), Taken(ops[n - 1], r.ok);
      assert waiting + (before + more) == waiting + before + more;
    }
  }

  // ----- transmission

  /** Addition of 16-bit counters. */
  function Plus16(a: nat, b: nat): (r: nat)
    ensures r < U16
  {
    (a + b) % U16
  }

  lemma {:induction false} Plus16Twice(a: nat, b: nat, c: nat)
    ensures Plus16(Plus16(a, b), c) == Plus16(a, b + c)
    ensures a < U16 ==> Plus16(a, 0) == a
  {
    assert a + b == (a + b) / U16 * U16 + Plus16(a, b);
  }

  /** A segment as it leaves: its sequence number, its IP identification and its payload. */
  datatype Segment = Segment(seqNo: nat, ident: nat, payload: bytes)

  function Sent(segments: seq<Segment>, n: nat): bytes
    requires n <= |segments|
  {
    if n == 0 then [] else Sent(segments, n - 1) + segments[n - 1].payload
  }

  lemma {:induction false} SentPrefix(a: seq<Segment>, b: seq<Segment>, n: nat)
    requires n <= |a| && a <= b
    ensures Sent(a, n) == Sent(b, n)
  {
    if n > 0 {
      SentPrefix(a, b, n - 1);
    }
  }

  /** Segment k carries the sequence number of its first byte, a fresh identification and at most a full
      segment's payload. */
  ghost predicate Numbered(segments: seq<Segment>, seqNo: nat, ident: nat, k: nat)
    requires k < |segments|
  {
    && segments[k].seqNo == (seqNo + |Sent(segments, k)|) % 0x1_0000_0000
    && segments[k].ident == (ident + k + 1) % 0x1_0000
    && 0 < |segments[k].payload| <= MSS
  }

  /** Segment k is as long as can be, 1400 bytes or all that is left of the queue's `size` bytes, and its frame fits. */
  ghost predicate FullSegment(segments: seq<Segment>, size: nat, scratch: nat, k: nat)
    requires k < |segments|
  {
    && |Sent(segments, k)| <= size && |segments[k].payload| == Min(size - |Sent(segments, k)|, 1400)
    && 66 + |segments[k].payload| <= scratch
  }

  lemma {:induction false} OneMoreFull(segments: seq<Segment>, s: Segment, size: nat, scratch: nat)
    requires forall k :: 0 <= k < |segments| ==> FullSegment(segments, size, scratch, k)
    requires |Sent(segments, |segments|)| <= size && |s.payload| == Min(size - |Sent(segments, |segments|)|, 1400)
    requires 66 + |s.payload| <= scratch
    ensures forall k :: 0 <= k < |segments| + 1 ==> FullSegment(segments + [s], size, scratch, k)
  {
    var more := segments + [s];
    forall k | 0 <= k < |more| ensures FullSegment(more, size, scratch, k) {
      SentPrefix(segments, more, k);
      assert k < |segments| ==> FullSegment(segments, size, scratch, k);
    }
  }

  class TxQueue {
    var pending: bytes
    var tcpSeq: nat
    var ipId: nat
    var flushPending: bool

    predicate Valid()
      reads this
    {
      |pending| <= TLS_TX_CAP && tcpSeq < U32 && ipId < U16
    }

    constructor (tcpSeq: nat, ipId: nat)
      requires tcpSeq < U32 && ipId < U16
      ensures Valid() && pending == []
    {
      pending, this.tcpSeq, this.ipId, flushPending := [], tcpSeq, ipId, false;
    }

    method Append(data: bytes) returns (ok: bool)
      requires Valid()
      modifies this`pending
      ensures Valid() && ok == (|old(pending)| + |data| <= TLS_TX_CAP)
      ensures pending == if ok then old(pending) + data else old(pending)
    {
      if |pending| + |data| > TLS_TX_CAP {
        return false;
      }
      pending := pending + data;
      return true;
    }

    /** The network card accepts `willing` frames and refuses the next; `scratch` is the size of the frame
        buffer. No byte is lost or sent twice: the accepted payloads, followed by what is left, are the
        queue, and each segment is numbered by the bytes before it. */
    method FlushAll(willing: nat, scratch: nat) returns (segments: seq<Segment>)
      requires Valid()
      modifies this
      ensures Valid() && Sent(segments, |segments|) + pending == old(pending)
      ensures forall k :: 0 <= k < |segments| ==> Numbered(segments, old(tcpSeq), old(ipId), k)
      ensures forall k :: 0 <= k < |segments| ==> FullSegment(segments, |old(pending)|, scratch, k)
      ensures tcpSeq == (old(tcpSeq) + |Sent(segments, |segments|)|) % 0x1_0000_0000
      ensures pending == [] || |segments| == willing || 66 + Min(|pending|, 1400) > scratch
      ensures ipId == (old(ipId) + |segments| + (if pending == [] then 0 else 1)) % 0x1_0000
      ensures |segments| <= willing && !flushPending
    {
      hide Numbered, FullSegment, Add32, Plus16;
      segments := [];
      Add32Twice(tcpSeq, 0, 0);
      Plus16Twice(ipId, 0, 0);
      while |pending| > 0
        invariant Valid() && |segments| <= willing
        invariant Sent(segments, |segments|) + pending == old(pending)
        invariant forall k :: 0 <= k < |segments| ==> Numbered(segments, old(tcpSeq), old(ipId), k)
        invariant forall k :: 0 <= k < |segments| ==> FullSegment(segments, |old(pending)|, scratch, k)
        invariant tcpSeq == Add32(old(tcpSeq), |Sent(segments, |segments|)|)
        invariant ipId == Plus16(old(ipId), |segments|)
        decreases |pending|
      {
        var n := FirstSegment(pending);
        Plus16Twice(old(ipId), |segments|, 1);
        ipId := Plus16(ipId, 1);
        if FRAME_OVERHEAD + n > scratch || |segments| == willing {
          break;
        }
        var s := Segment(tcpSeq, ipId, pending[..n]);
        OneMoreFull(segments, s, |old(pending)|, scratch);
        OneMore(segments, s, old(tcpSeq), old(ipId), pending, n);
        Add32Twice(old(tcpSeq), |Sent(segments, |segments|)|, n);
        segments := segments + [s];
        tcpSeq := Add32(tcpSeq, n);
        pending := pending[n..];
      }
      flushPending := false;
      Modulo(old(tcpSeq), |Sent(segments, |segments|)|);
      Modulo(old(ipId), |segments| + (if pending == [] then 0 else 1));
    }
  }

  lemma {:induction false} Modulo(a: nat, b: nat)
    ensures Add32(a, b) == (a + b) % 0x1_0000_0000 && Plus16(a, b) == (a + b) % 0x1_0000
  {
  }

  function FirstSegment(pending: bytes): (n: nat)
    ensures n <= |pending| && n <= MSS && (|pending| > 0 ==> n > 0)
  {
    if |pending| < MSS then |pending| else MSS
  }

  lemma {:induction false} OneMore(segments: seq<Segment>, s: Segment, seqNo: nat, ident: nat, pending: bytes, n: nat)
    requires 0 < n <= |pending| && n <= MSS && s.payload == pending[..n]
    requires s.seqNo == Add32(seqNo, |Sent(segments, |segments|)|) && s.ident == Plus16(ident, |segments| + 1)
    requires forall k :: 0 <= k < |segments| ==> Numbered(segments, seqNo, ident, k)
    ensures var more := segments + [s];
            && Sent(more, |more|) + pending[n..] == Sent(segments, |segments|) + pending
            && |Sent(more, |more|)| == |Sent(segments, |segments|)| + n
            && forall k :: 0 <= k < |more| ==> Numbered(more, seqNo, ident, k)
  {
    var more := segments + [s];
    Modulo(seqNo, |Sent(segments, |segments|)|);
    Modulo(ident, |segments| + 1);
    hide Add32, Plus16;
    SentPrefix(segments, more, |segments|);
    assert Sent(more, |more|) == Sent(segments, |segments|) + pending[..n];
    assert pending == pending[..n] + pending[n..];
    forall k | 0 <= k < |more| ensures Numbered(more, seqNo, ident, k) {
      if k < |segments| {
        assert Numbered(segments, seqNo, ident, k);
        SentPrefix(segments, more, k);
      }
    }
  }
}
