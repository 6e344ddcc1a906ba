/** The receiving half of a TCP endpoint: it turns the peer's segments into
    reassembler insertions and reports the acknowledgment number and the
    window, in the manner of sections 3.3 and 3.7 of RFC 793. */
module TCPReceiving {
  import opened Common
  import opened Wrap32
  import opened ByteStreams
  import opened Reassembly
  import opened TCPMessages

  /** The checkpoint for unwrapping: the absolute sequence number of the next
      payload byte, `bytes_pushed + 1` in 64-bit unsigned arithmetic. */
  function Checkpoint(pushed: nat): u64
  {
    (pushed + 1) % U64_LIMIT
  }

  /** The stream index of a segment's first payload byte: its absolute
      sequence number, plus one when the segment carries the SYN (which
      occupies the sequence number before the payload), minus one for the
      SYN that precedes every stream byte, all in 64-bit unsigned arithmetic.
      A segment without SYN that claims the SYN's own sequence number
      therefore gets index 2^64 - 1. */
  function StreamIndex(seqno: u32, zeroPoint: u32, pushed: nat, syn: bool): u64
  {
    (Unwrap(seqno, zeroPoint, Checkpoint(pushed)) + (if syn then 1 else 0) + U64_LIMIT - 1) % U64_LIMIT
  }

  /** The window the receiver advertises: the free capacity, clamped to the
      16-bit window field of section 3.1 of RFC 793. */
  function Window(available: nat): (w: u16)
    ensures w <= available && (w == available || w == U16_MAX)
    ensures available <= U16_MAX ==> w == available
  {
    if available > U16_MAX then U16_MAX else available
  }

  /** The receiver's observable state: the zero point (the peer's initial
      sequence number, once a SYN has arrived) and the reassembler's state. */
  datatype RecvState = RecvState(zeroPoint: Option<u32>, r: RState)

  /** `TCPReceiver::receive` on the abstract state. */
  function Received(s: RecvState, m: SenderMessage): RecvState
  {
    if s.r.stream.error then s
    else if m.RST then s.(r := s.r.(stream := s.r.stream.(error := true)))
    else if s.zeroPoint.None? && !m.SYN then s
    else
      var zp := if s.zeroPoint.Some? then s.zeroPoint.value else m.seqno;
      RecvState(Some(zp), Inserted(s.r, StreamIndex(m.seqno, zp, s.r.FirstUnassembled(), m.SYN), m.payload, m.FIN))
  }

  /** Round trip: a segment whose absolute sequence number `a` lies within
      2^31 of the next expected one lands at stream index `a + SYN - 1`. */
  lemma {:induction false} StreamIndexNear(a: u64, zeroPoint: u32, pushed: nat, syn: bool)
    requires Dist(a, Checkpoint(pushed)) < BASE / 2
    ensures StreamIndex(Wrap(a, zeroPoint), zeroPoint, pushed, syn) == (a + (if syn then 1 else 0) + U64_LIMIT - 1) % U64_LIMIT
  {
    UnwrapWrap(a, zeroPoint, Checkpoint(pushed));
  }

  /** A connection's first segment, whose sequence number is the zero point
      itself, puts its payload at stream index 0. */
  lemma SynLandsAtZero(zeroPoint: u32)
    ensures StreamIndex(zeroPoint, zeroPoint, 0, true) == 0
  {
    StreamIndexNear(0, zeroPoint, 0, true);
  }

  /** Once the stream has failed, every segment is ignored. */
  lemma ReceivedAfterError(s: RecvState, m: SenderMessage)
    requires s.r.stream.error
    ensures Received(s, m) == s
  {
  }

  /** A reset segment only marks the stream as failed. */
  lemma ReceivedReset(s: RecvState, m: SenderMessage)
    requires !s.r.stream.error && m.RST
    ensures Received(s, m) == s.(r := s.r.(stream := s.r.stream.(error := true)))
  {
  }

  /** The zero point is latched from the first SYN and never changes after. */
  lemma ZeroPointLatched(s: RecvState, m: SenderMessage)
    ensures s.zeroPoint.Some? ==> Received(s, m).zeroPoint == s.zeroPoint
    ensures s.zeroPoint.None? ==>
              (Received(s, m).zeroPoint == if !s.r.stream.error && !m.RST && m.SYN then Some(m.seqno) else None)
  {
  }

  /** Before any SYN, a segment without SYN changes nothing. */
  lemma ReceivedBeforeSyn(s: RecvState, m: SenderMessage)
    requires s.zeroPoint.None? && !m.SYN && !m.RST
    ensures Received(s, m) == s
  {
  }

  /** Receiving keeps the reassembler's invariant. */
  lemma ReceivedInv(s: RecvState, m: SenderMessage)
    requires s.r.Inv()
    ensures Received(s, m).r.Inv()
  {
    if !s.r.stream.error && !m.RST && !(s.zeroPoint.None? && !m.SYN) {
      var zp := if s.zeroPoint.Some? then s.zeroPoint.value else m.seqno;
      InsertedInv(s.r, StreamIndex(m.seqno, zp, s.r.FirstUnassembled(), m.SYN), m.payload, m.FIN);
    }
  }

  /** The segment the receiver asks for next, sent with the acknowledgment
      number as its sequence number, is written to the stream whole when
      nothing is held back and it fits in the window. */
  lemma {:induction false} ReceivedInOrder(s: RecvState, m: SenderMessage)
    requires s.r.Inv() && s.zeroPoint.Some? && !s.r.stream.error && !s.r.stream.closed && s.r.pending == map[]
    requires !m.RST && !m.SYN && m.payload != []
    requires s.r.FirstUnassembled() + 1 < U64_LIMIT
    requires m.seqno == Wrap(s.r.FirstUnassembled() + 1, s.zeroPoint.value)
    requires s.r.FirstUnassembled() + |m.payload| <= s.r.FirstUnacceptable()
    ensures Received(s, m).r.stream.written == s.r.stream.written + m.payload
    ensures Received(s, m).r.stream.closed <==> m.FIN || s.r.endFlag
  {
    var u := s.r.FirstUnassembled();
    var z := s.zeroPoint.value;
    assert Checkpoint(u) == u + 1;
    StreamIndexNear(u + 1, z, u, false);
    assert (u + 1 + 0 + U64_LIMIT - 1) % U64_LIMIT == u by {
      assert u + 1 + 0 + U64_LIMIT - 1 == u + U64_LIMIT;
    }
    assert Received(s, m) == RecvState(Some(z), Inserted(s.r, u, m.payload, m.FIN));
    InOrderWritten(s.r, m.payload, m.FIN);
  }

  /** `TCPReceiver`: the reassembler (which owns the output stream) and the
      optional zero point. */
  class TCPReceiver {
    const reassembler: Reassembler
    var zeroPoint: Option<u32>

    ghost predicate Valid()
      reads this, reassembler, reassembler.output
    {
      reassembler.Valid()
    }

    ghost function State(): RecvState
      reads this, reassembler, reassembler.output
    {
      RecvState(zeroPoint, reassembler.State())
    }

    constructor (reassembler: Reassembler)
      requires reassembler.Valid()
      ensures Valid() && this.reassembler == reassembler
      ensures State() == RecvState(None, old(reassembler.State()))
    {
      this.reassembler := reassembler;
      zeroPoint := None;
    }

    /** `TCPReceiver::receive`. */
    method Receive(m: SenderMessage)
      requires Valid()
      modifies this, reassembler, reassembler.output
      ensures Valid()
      ensures State() == Received(old(State()), m)
    {
      var output := reassembler.output;
      if output.HasError() {
        return;
      }
      if m.RST {
        output.SetError();
        return;
      }
      if zeroPoint.None? {
        if !m.SYN {
          return;
        }
        zeroPoint := Some(m.seqno);
      }
      ghost var s := State();
      var checkpoint := (output.BytesPushed() + 1) % U64_LIMIT;
      var absolute := Unwrap(m.seqno, zeroPoint.value, checkpoint);
      var index := (absolute + (if m.SYN then 1 else 0) + U64_LIMIT - 1) % U64_LIMIT;
      assert index == StreamIndex(m.seqno, zeroPoint.value, s.r.FirstUnassembled(), m.SYN);
      reassembler.Insert(index, m.payload, m.FIN);
    }

    /** `TCPReceiver::send`: the acknowledgment number is present exactly
        once a SYN has arrived, and then unwraps to the absolute sequence
        number of the next byte expected: the SYN, every byte written, and
        the FIN once the stream is closed. */
    function Send(): (reply: ReceiverMessage)
      reads this, reassembler, reassembler.output
      requires Valid()
      ensures reply.windowSize == Window(reassembler.output.AvailableCapacity())
      ensures reply.ackno.Some? <==> zeroPoint.Some?
      ensures reply.RST == reassembler.output.error
      ensures var pushed := reassembler.output.BytesPushed();
              zeroPoint.Some? && pushed + 2 < U64_LIMIT ==>
                Unwrap(reply.ackno.value, zeroPoint.value, Checkpoint(pushed))
                == pushed + 1 + (if reassembler.output.closed then 1 else 0)
    {
      var output := reassembler.output;
      var window := Window(output.AvailableCapacity());
      if zeroPoint.Some? then
        var ack := (output.BytesPushed() + 1 + (if output.IsClosed() then 1 else 0)) % U64_LIMIT;
        AcknoUnwraps(output.BytesPushed(), output.IsClosed(), zeroPoint.value);
        ReceiverMessage(Some(Wrap(ack, zeroPoint.value)), window, output.HasError())
      else
        ReceiverMessage(None, window, output.HasError())
    }
  }

  /** The acknowledgment number, unwrapped against the receiver's own
      checkpoint, is the absolute index it was made from. */
  lemma AcknoUnwraps(pushed: nat, closed: bool, zeroPoint: u32)
    ensures var ack := pushed + 1 + (if closed then 1 else 0);
            pushed + 2 < U64_LIMIT ==> Unwrap(Wrap(ack % U64_LIMIT, zeroPoint), zeroPoint, Checkpoint(pushed)) == ack
  {
    var ack := pushed + 1 + (if closed then 1 else 0);
    if pushed + 2 < U64_LIMIT {
      assert ack % U64_LIMIT == ack && Checkpoint(pushed) == pushed + 1;
      assert Dist(ack, pushed + 1) <= 1;
      UnwrapWrap(ack, zeroPoint, pushed + 1);
    }
  }
}
