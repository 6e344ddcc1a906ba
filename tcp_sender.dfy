/** The sending half of a TCP endpoint: it cuts the outbound byte stream into
    segments that fit the peer's window, keeps the unacknowledged ones, and
    retransmits the oldest on timeout with exponential back-off, in the manner
    of section 3.7 of RFC 793 and section 5 of RFC 6298. */
module TCPSending {
  import opened Common
  import opened Wrap32
  import opened ByteStreams
  import opened TCPMessages

  /** `TCPSenderMessage::sequence_length`: the SYN and the FIN each occupy one
      sequence number, as every payload byte does. */
  function SeqLen(m: SenderMessage): nat
  {
    (if m.SYN then 1 else 0) + |m.payload| + (if m.FIN then 1 else 0)
  }

  /** Sequence numbers occupied by a queue of segments. */
  function SumLengths(q: seq<SenderMessage>): nat
  {
    if q == [] then 0 else SeqLen(q[0]) + SumLengths(q[1..])
  }

  /** The payloads of a queue of segments, in order. */
  function Payloads(q: seq<SenderMessage>): Bytes
  {
    if q == [] then [] else q[0].payload + Payloads(q[1..])
  }

  lemma {:induction false} SumLengthsConcat(a: seq<SenderMessage>, b: seq<SenderMessage>)
    ensures SumLengths(a + b) == SumLengths(a) + SumLengths(b)
  {
    if a == [] {
      assert a + b == b;
    } else {
      assert (a + b)[0] == a[0] && (a + b)[1..] == a[1..] + b;
      SumLengthsConcat(a[1..], b);
    }
  }

  lemma {:induction false} PayloadsConcat(a: seq<SenderMessage>, b: seq<SenderMessage>)
    ensures Payloads(a + b) == Payloads(a) + Payloads(b)
  {
    if a == [] {
      assert a + b == b;
    } else {
      assert (a + b)[0] == a[0] && (a + b)[1..] == a[1..] + b;
      PayloadsConcat(a[1..], b);
    }
  }

  /** The window the sender fills: the advertised window, or one sequence
      number when the peer advertises zero, so that the sender keeps probing. */
  function SendWindow(windowSize: u16): (w: nat)
    ensures w >= 1 && (windowSize > 0 ==> w == windowSize)
  {
    if windowSize == 0 then 1 else windowSize
  }

  /** The RTO after `n` consecutive back-offs from `initial`, each doubling
      it in 64-bit unsigned arithmetic. */
  function Backoff(initial: u64, n: nat): u64
  {
    if n == 0 then initial else (2 * Backoff(initial, n - 1)) % U64_LIMIT
  }

  /** Until it wraps around, the back-off doubles the initial RTO once per
      consecutive retransmission (rule 5.5 of section 5 of RFC 6298). */
  lemma {:induction false} BackoffDoubles(initial: u64, n: nat)
    requires initial * Pow2(n) < U64_LIMIT
    ensures Backoff(initial, n) == initial * Pow2(n)
  {
    if n > 0 {
      assert initial * Pow2(n) == 2 * (initial * Pow2(n - 1));
      BackoffDoubles(initial, n - 1);
    }
  }

  /** A queue of segments sent back to back from absolute sequence number
      `start`: each carries the wrapped form of its own start, only the one
      at 0 carries the SYN, none is empty and no payload is over the limit. */
  ghost predicate Segments(q: seq<SenderMessage>, start: nat, isn: u32, maxPayload: nat)
    decreases |q|
  {
    q == [] ||
    (&& q[0].seqno == Wrap(start % U64_LIMIT, isn)
     && (q[0].SYN <==> start == 0)
     && 0 < SeqLen(q[0]) && |q[0].payload| <= maxPayload
     && Segments(q[1..], start + SeqLen(q[0]), isn, maxPayload))
  }

  lemma {:induction false} SegmentsConcat(a: seq<SenderMessage>, b: seq<SenderMessage>, start: nat, isn: u32, maxPayload: nat)
    requires Segments(a, start, isn, maxPayload)
    requires Segments(b, start + SumLengths(a), isn, maxPayload)
    ensures Segments(a + b, start, isn, maxPayload)
    decreases |a|
  {
    if a != [] {
      assert (a + b)[1..] == a[1..] + b;
      SegmentsConcat(a[1..], b, start + SeqLen(a[0]), isn, maxPayload);
    } else {
      assert a + b == b;
    }
  }

  /** The SYN flag is set on exactly the first segment of the connection. */
  lemma {:induction false} SegmentsSyn(q: seq<SenderMessage>, start: nat, isn: u32, maxPayload: nat)
    requires Segments(q, start, isn, maxPayload)
    ensures forall i | 0 <= i < |q| :: q[i].SYN <==> (i == 0 && start == 0)
    decreases |q|
  {
    if q != [] {
      SegmentsSyn(q[1..], start + SeqLen(q[0]), isn, maxPayload);
      forall i | 0 < i < |q| ensures q[i].SYN <==> false {
        assert q[i] == q[1..][i - 1];
      }
    }
  }

  /** The queue left once the acknowledgment `ack` retires every front
      segment that it covers completely. */
  function Unacked(q: seq<SenderMessage>, start: nat, ack: nat): seq<SenderMessage>
    decreases |q|
  {
    if q != [] && start + SeqLen(q[0]) <= ack then Unacked(q[1..], start + SeqLen(q[0]), ack) else q
  }

  /** The start of the first segment still unacknowledged after `ack`. */
  function AckedUpTo(q: seq<SenderMessage>, start: nat, ack: nat): nat
    decreases |q|
  {
    if q != [] && start + SeqLen(q[0]) <= ack then AckedUpTo(q[1..], start + SeqLen(q[0]), ack) else start
  }

  /** Retiring whole segments: the acknowledged point never passes `ack`
      (nor moves back), the front segment left over is not wholly covered by
      `ack`, no sequence number is lost, and the rest stays well numbered. */
  lemma {:induction false} UnackedProps(q: seq<SenderMessage>, start: nat, ack: nat, isn: u32, maxPayload: nat)
    requires Segments(q, start, isn, maxPayload)
    ensures var u, a := Unacked(q, start, ack), AckedUpTo(q, start, ack);
            && start <= a && (a == start || a <= ack)
            && (u != [] ==> a + SeqLen(u[0]) > ack)
            && a + SumLengths(u) == start + SumLengths(q)
            && Segments(u, a, isn, maxPayload)
            && |u| <= |q|
            && (|u| == |q| ==> u == q && a == start)
    decreases |q|
  {
    if q != [] && start + SeqLen(q[0]) <= ack {
      UnackedProps(q[1..], start + SeqLen(q[0]), ack, isn, maxPayload);
    }
  }

  /** What stays unacknowledged is a suffix of the queue, the front segments
      before it being the ones retired. */
  lemma {:induction false} UnackedSuffix(q: seq<SenderMessage>, start: nat, ack: nat)
    ensures var u := Unacked(q, start, ack);
            |u| <= |q| && q == q[..|q| - |u|] + u
    decreases |q|
  {
    if q != [] && start + SeqLen(q[0]) <= ack {
      UnackedSuffix(q[1..], start + SeqLen(q[0]), ack);
      var u := Unacked(q, start, ack);
      assert q[1..] == q[1..][..|q| - 1 - |u|] + u;
      assert q[..|q| - |u|] == [q[0]] + q[1..][..|q| - 1 - |u|];
    } else {
      assert q[..0] == [];
    }
  }

  lemma QueueOne(m: SenderMessage, start: nat, isn: u32, maxPayload: nat)
    ensures SumLengths([m]) == SeqLen(m) && Payloads([m]) == m.payload
    ensures Segments([m], start, isn, maxPayload) <==>
              m.seqno == Wrap(start % U64_LIMIT, isn) && (m.SYN <==> start == 0)
              && 0 < SeqLen(m) && |m.payload| <= maxPayload
  {
    assert [m][1..] == [];
  }

  /** A batch of segments sent back to back from `start`, numbered as in
      `Segments`, carrying the leading bytes of `b` in order, all with the
      same RST flag, and with the FIN, if any, on the last. */
  ghost predicate Batch(sent: seq<SenderMessage>, start: nat, b: Bytes, rst: bool, isn: u32, maxPayload: nat)
    decreases |sent|
  {
    sent == [] ||
    (&& sent[0].seqno == Wrap(start % U64_LIMIT, isn)
     && (sent[0].SYN <==> start == 0)
     && 0 < SeqLen(sent[0]) && |sent[0].payload| <= maxPayload
     && sent[0].RST == rst && (sent[0].FIN ==> |sent| == 1)
     && |sent[0].payload| <= |b| && sent[0].payload == b[..|sent[0].payload|]
     && Batch(sent[1..], start + SeqLen(sent[0]), b[|sent[0].payload|..], rst, isn, maxPayload))
  }

  /** A batch's payloads are a prefix of the bytes it was cut from. */
  lemma {:induction false} BatchPayloads(sent: seq<SenderMessage>, start: nat, b: Bytes, rst: bool, isn: u32, maxPayload: nat)
    requires Batch(sent, start, b, rst, isn, maxPayload)
    ensures |Payloads(sent)| <= |b| && Payloads(sent) == b[..|Payloads(sent)|]
    decreases |sent|
  {
    if sent != [] {
      var n := |sent[0].payload|;
      BatchPayloads(sent[1..], start + SeqLen(sent[0]), b[n..], rst, isn, maxPayload);
      assert b[..n + |Payloads(sent[1..])|] == b[..n] + b[n..][..|Payloads(sent[1..])|];
    }
  }

  /** A batch is numbered as an outstanding queue must be, and only its
      last segment may carry the FIN. */
  lemma {:induction false} BatchSegments(sent: seq<SenderMessage>, start: nat, b: Bytes, rst: bool, isn: u32, maxPayload: nat)
    requires Batch(sent, start, b, rst, isn, maxPayload)
    ensures Segments(sent, start, isn, maxPayload)
    ensures forall i | 0 <= i < |sent| :: sent[i].RST == rst && (sent[i].FIN ==> i == |sent| - 1)
    decreases |sent|
  {
    if sent != [] {
      BatchSegments(sent[1..], start + SeqLen(sent[0]), b[|sent[0].payload|..], rst, isn, maxPayload);
      forall i | 0 < i < |sent| ensures sent[i].RST == rst && (sent[i].FIN ==> i == |sent| - 1) {
        assert sent[i] == sent[1..][i - 1];
      }
    }
  }

  /** Sending `m` from `next`, the end of a batch, with the bytes `rest`
      that follow the batch's payload in `b`, extends the batch. */
  lemma {:induction false} BatchExtend(sent: seq<SenderMessage>, m: SenderMessage, start: nat, next: nat, b: Bytes,
                                       rest: Bytes, rst: bool, isn: u32, maxPayload: nat)
    requires Batch(sent, start, b, rst, isn, maxPayload)
    requires sent == [] || !sent[|sent| - 1].FIN
    requires next == start + SumLengths(sent)
    requires |Payloads(sent)| <= |b| && rest == b[|Payloads(sent)|..]
    requires m.seqno == Wrap(next % U64_LIMIT, isn) && (m.SYN <==> next == 0) && m.RST == rst
    requires 0 < SeqLen(m) && |m.payload| <= maxPayload
    requires |m.payload| <= |rest| && m.payload == rest[..|m.payload|]
    ensures Batch(sent + [m], start, b, rst, isn, maxPayload)
    decreases |sent|
  {
    if sent == [] {
      assert [m][1..] == [] && sent + [m] == [m];
    } else {
      var h, n := sent[0], |sent[0].payload|;
      assert |sent| > 1 ==> sent[1..][|sent[1..]| - 1] == sent[|sent| - 1];
      assert b[n..][|Payloads(sent[1..])|..] == rest;
      BatchExtend(sent[1..], m, start + SeqLen(h), next, b[n..], rest, rst, isn, maxPayload);
      BatchCons(sent, m, start, b, rst, isn, maxPayload);
    }
  }

  /** A batch whose tail, extended by `m`, is a batch is itself a batch once
      extended by `m`. */
  lemma BatchCons(sent: seq<SenderMessage>, m: SenderMessage, start: nat, b: Bytes, rst: bool, isn: u32, maxPayload: nat)
    requires sent != [] && Batch(sent, start, b, rst, isn, maxPayload) && !sent[0].FIN
    requires Batch(sent[1..] + [m], start + SeqLen(sent[0]), b[|sent[0].payload|..], rst, isn, maxPayload)
    ensures Batch(sent + [m], start, b, rst, isn, maxPayload)
  {
    assert (sent + [m])[0] == sent[0] && (sent + [m])[1..] == sent[1..] + [m];
  }

  /** The source's size rule, segment by segment: with `limit` the right
      edge of the window, each segment's payload is as long as the payload
      limit, the room left after its SYN, and the bytes left in `b` allow,
      and it carries the FIN exactly when room is left over for it and the
      stream, closed, has nothing more to give. */
  ghost predicate CutToFit(sent: seq<SenderMessage>, start: nat, b: Bytes, limit: int, closed: bool, maxPayload: nat)
    decreases |sent|
  {
    sent == [] ||
    (var m, syn := sent[0], if sent[0].SYN then 1 else 0;
     && |m.payload| <= |b|
     && |m.payload| == Min(Min(maxPayload, limit - start - syn), |b|)
     && (m.FIN <==> limit - start > syn + |m.payload| && closed && |m.payload| == |b|)
     && CutToFit(sent[1..], start + SeqLen(m), b[|m.payload|..], limit, closed, maxPayload))
  }

  /** A segment cut by the size rule from the bytes that follow a cut batch
      extends the batch. */
  lemma {:induction false} CutExtend(sent: seq<SenderMessage>, m: SenderMessage, start: nat, next: nat, b: Bytes,
                                     rest: Bytes, limit: int, closed: bool, maxPayload: nat)
    requires CutToFit(sent, start, b, limit, closed, maxPayload)
    requires next == start + SumLengths(sent)
    requires |Payloads(sent)| <= |b| && rest == b[|Payloads(sent)|..]
    requires var syn := if m.SYN then 1 else 0;
             && |m.payload| == Min(Min(maxPayload, limit - next - syn), |rest|)
             && (m.FIN <==> limit - next > syn + |m.payload| && closed && |m.payload| == |rest|)
    ensures CutToFit(sent + [m], start, b, limit, closed, maxPayload)
    decreases |sent|
  {
    if sent == [] {
      assert [m][1..] == [] && sent + [m] == [m];
    } else {
      var h, n := sent[0], |sent[0].payload|;
      assert b[n..][|Payloads(sent[1..])|..] == rest;
      CutExtend(sent[1..], m, start + SeqLen(h), next, b[n..], rest, limit, closed, maxPayload);
      CutCons(sent, m, start, b, limit, closed, maxPayload);
    }
  }

  /** A cut batch whose tail, extended by `m`, is cut by the size rule is
      itself cut by it once extended by `m`. */
  lemma CutCons(sent: seq<SenderMessage>, m: SenderMessage, start: nat, b: Bytes, limit: int, closed: bool, maxPayload: nat)
    requires sent != [] && CutToFit(sent, start, b, limit, closed, maxPayload)
    requires CutToFit(sent[1..] + [m], start + SeqLen(sent[0]), b[|sent[0].payload|..], limit, closed, maxPayload)
    ensures CutToFit(sent + [m], start, b, limit, closed, maxPayload)
  {
    assert (sent + [m])[0] == sent[0] && (sent + [m])[1..] == sent[1..] + [m];
  }

  /** The size rule leaves no freedom: two batches of the same number of
      segments, both cut by it from the same bytes at the same point, are the
      same segments. */
  lemma {:induction false} CutUnique(x: seq<SenderMessage>, y: seq<SenderMessage>, start: nat, b: Bytes, rst: bool,
                                     isn: u32, maxPayload: nat, limit: int, closed: bool)
    requires |x| == |y|
    requires Batch(x, start, b, rst, isn, maxPayload) && CutToFit(x, start, b, limit, closed, maxPayload)
    requires Batch(y, start, b, rst, isn, maxPayload) && CutToFit(y, start, b, limit, closed, maxPayload)
    ensures x == y
    decreases |x|
  {
    if x != [] {
      assert x[0] == y[0];
      CutUnique(x[1..], y[1..], start + SeqLen(x[0]), b[|x[0].payload|..], rst, isn, maxPayload, limit, closed);
      assert x == [x[0]] + x[1..] && y == [y[0]] + y[1..];
    }
  }

  /** Taking `n` more bytes of `b` after the first `k`. */
  lemma TakeMore(b: Bytes, k: nat, n: nat)
    requires k + n <= |b|
    ensures b[..k + n] == b[..k] + b[k..][..n] && b[k + n..] == b[k..][n..]
  {
  }

  /** `RetransmissionTimer`: an RTO, the time elapsed since the timer was
      (re)started, and whether it runs. */
  class RetransmissionTimer {
    var active: bool
    var rto: u64
    var elapsed: u64

    constructor (initialRTO: u64)
      ensures !active && rto == initialRTO && elapsed == 0
    {
      active, rto, elapsed := false, initialRTO, 0;
    }

    function IsActive(): bool
      reads this
    {
      active
    }

    /** `is_expired`: running, and at least one RTO has elapsed. */
    function IsExpired(): bool
      reads this
    {
      active && elapsed >= rto
    }

    method Reset()
      modifies this`elapsed
      ensures elapsed == 0
    {
      elapsed := 0;
    }

    /** `exponential_backoff`: double the RTO (in 64-bit arithmetic). */
    method ExponentialBackoff()
      modifies this`rto
      ensures rto == (2 * old(rto)) % U64_LIMIT
    {
      rto := (2 * rto) % U64_LIMIT;
    }

    method Reload(initialRTO: u64)
      modifies this`rto, this`elapsed
      ensures rto == initialRTO && elapsed == 0
    {
      rto := initialRTO;
      Reset();
    }

    method Start()
      modifies this`active, this`elapsed
      ensures active && elapsed == 0
    {
      active := true;
      Reset();
    }

    method Stop()
      modifies this`active, this`elapsed
      ensures !active && elapsed == 0
    {
      active := false;
      Reset();
    }

    /** `tick`: time counts only while the timer runs. */
    method Tick(ms: u64)
      modifies this`elapsed
      ensures elapsed == if active then (old(elapsed) + ms) % U64_LIMIT else old(elapsed)
    {
      elapsed := (elapsed + (if active then ms else 0)) % U64_LIMIT;
    }
  }

  /** Everything a sender's methods can change, as one value. */
  datatype SenderState = SenderState(
    synSent: bool, finSent: bool, nextSeqno: nat, ackSeqno: nat, windowSize: u16,
    outstanding: seq<SenderMessage>, retransmissions: nat,
    timerActive: bool, rto: u64, elapsed: u64, stream: StreamState)

  /** `receive` on the sender's state: a failed stream ignores everything,
      a reset fails the stream, otherwise the window is taken, and an
      acknowledgment that is not beyond the next sequence number retires the
      segments it wholly covers; when it retires any, the retransmission
      count is cleared, the RTO goes back to its initial value and the timer
      restarts, or stops once nothing is outstanding. */
  ghost function AfterAck(s: SenderState, m: ReceiverMessage, isn: u32, initialRTO: u64): SenderState
  {
    if s.stream.error then s
    else if m.RST then s.(stream := s.stream.(error := true))
    else
      var s1 := s.(windowSize := m.windowSize);
      if m.ackno.None? then s1
      else
        var ack := Unwrap(m.ackno.value, isn, s.nextSeqno % U64_LIMIT);
        if ack > s.nextSeqno then s1 else Retired(s1, ack, initialRTO)
  }

  /** An acknowledgment of everything before absolute sequence number `ack`
      retires the segments it wholly covers; when it retires any, the
      retransmission count is cleared, the RTO goes back to its initial
      value and the timer restarts, or stops once nothing is outstanding. */
  ghost function Retired(s: SenderState, ack: nat, initialRTO: u64): SenderState
  {
    var q := Unacked(s.outstanding, s.ackSeqno, ack);
    if |q| == |s.outstanding| then s
    else s.(outstanding := q, ackSeqno := AckedUpTo(s.outstanding, s.ackSeqno, ack),
            retransmissions := 0, timerActive := q != [], rto := initialRTO, elapsed := 0)
  }

  /** Whether the timer, advanced by `ms`, has run for a full RTO. */
  function Expires(s: SenderState, ms: u64): bool
  {
    s.timerActive && (s.elapsed + ms) % U64_LIMIT >= s.rto
  }

  /** `tick` on the sender's state: time passes on a running timer; when it
      expires with a segment outstanding, the timer restarts, and the RTO is
      doubled and the retransmission counted only if the window is open. */
  ghost function Ticked(s: SenderState, ms: u64): SenderState
  {
    if Expires(s, ms) && s.outstanding != [] then
      if s.windowSize != 0 then
        s.(retransmissions := s.retransmissions + 1, rto := (2 * s.rto) % U64_LIMIT, elapsed := 0)
      else s.(elapsed := 0)
    else if s.timerActive then s.(elapsed := (s.elapsed + ms) % U64_LIMIT)
    else s
  }

  /** What `tick` sends: the oldest outstanding segment, on expiry. */
  function Retransmission(s: SenderState, ms: u64): seq<SenderMessage>
  {
    if Expires(s, ms) && s.outstanding != [] then [s.outstanding[0]] else []
  }

  /** The sender's invariant on its state: the outstanding segments are
      exactly the sequence numbers between the acknowledged point and the
      next one, well numbered; the next sequence number counts the SYN, the
      bytes popped and the FIN; the RTO is the initial one backed off once
      per consecutive retransmission; the timer runs exactly while something
      is outstanding. */
  ghost predicate SenderInv(s: SenderState, isn: u32, initialRTO: u64, maxPayload: nat)
  {
    && maxPayload > 0
    && s.stream.popped <= |s.stream.written|
    && s.ackSeqno + SumLengths(s.outstanding) == s.nextSeqno
    && Segments(s.outstanding, s.ackSeqno, isn, maxPayload)
    && s.nextSeqno == (if s.synSent then 1 else 0) + s.stream.popped + (if s.finSent then 1 else 0)
    && (!s.synSent ==> !s.finSent && s.stream.popped == 0)
    && (s.finSent ==> s.stream.closed && s.stream.popped == |s.stream.written|)
    && s.rto == Backoff(initialRTO, s.retransmissions)
    && (s.timerActive <==> s.outstanding != [])
  }

  /** `receive` keeps the invariant. It never moves the next sequence number
      nor touches the stream beyond its error flag; the acknowledged point
      only moves forward and never passes the next sequence number, and what
      stays outstanding is a suffix of what was. */
  lemma AfterAckInv(s: SenderState, m: ReceiverMessage, isn: u32, initialRTO: u64, maxPayload: nat)
    requires SenderInv(s, isn, initialRTO, maxPayload)
    ensures var t := AfterAck(s, m, isn, initialRTO);
            && SenderInv(t, isn, initialRTO, maxPayload)
            && t.nextSeqno == s.nextSeqno && t.synSent == s.synSent && t.finSent == s.finSent
            && t.stream == s.stream.(error := t.stream.error)
            && s.ackSeqno <= t.ackSeqno <= t.nextSeqno
            && |t.outstanding| <= |s.outstanding|
            && s.outstanding == s.outstanding[..|s.outstanding| - |t.outstanding|] + t.outstanding
  {
    if !s.stream.error && !m.RST && m.ackno.Some? {
      var ack := Unwrap(m.ackno.value, isn, s.nextSeqno % U64_LIMIT);
      if ack <= s.nextSeqno {
        RetiredInv(s.(windowSize := m.windowSize), ack, isn, initialRTO, maxPayload);
      }
    }
    assert s.outstanding[..|s.outstanding| - |s.outstanding|] == [];
  }

  /** Retiring up to an acknowledgment not beyond the next sequence number
      keeps the invariant, moves the acknowledged point forward but not past
      the next sequence number, and leaves a suffix of the queue. */
  lemma RetiredInv(s: SenderState, ack: nat, isn: u32, initialRTO: u64, maxPayload: nat)
    requires SenderInv(s, isn, initialRTO, maxPayload) && ack <= s.nextSeqno
    ensures var t := Retired(s, ack, initialRTO);
            && SenderInv(t, isn, initialRTO, maxPayload)
            && t.nextSeqno == s.nextSeqno && t.synSent == s.synSent && t.finSent == s.finSent
            && t.stream == s.stream && t.windowSize == s.windowSize
            && s.ackSeqno <= t.ackSeqno <= t.nextSeqno
            && |t.outstanding| <= |s.outstanding|
            && s.outstanding == s.outstanding[..|s.outstanding| - |t.outstanding|] + t.outstanding
  {
    UnackedProps(s.outstanding, s.ackSeqno, ack, isn, maxPayload);
    UnackedSuffix(s.outstanding, s.ackSeqno, ack);
  }

  /** Acknowledgments retire whole segments only. A message carrying an
      acknowledgment beyond the next sequence number changes nothing but the
      window; one that retires at least one segment clears the retransmission
      count, reloads the RTO and restarts the timer (stopping it once nothing
      is outstanding); one that retires nothing leaves the queue and the
      timer as they were. The acknowledged point advances by the lengths of
      the segments retired, up to at most the acknowledgment, and the front
      segment left is not wholly covered by it. */
  lemma AckRetiresWholeSegments(s: SenderState, m: ReceiverMessage, isn: u32, initialRTO: u64, maxPayload: nat)
    requires SenderInv(s, isn, initialRTO, maxPayload)
    requires !s.stream.error && !m.RST && m.ackno.Some?
    ensures var t, ack := AfterAck(s, m, isn, initialRTO), Unwrap(m.ackno.value, isn, s.nextSeqno % U64_LIMIT);
            var k := |s.outstanding| - |t.outstanding|;
            && t.windowSize == m.windowSize
            && (ack > s.nextSeqno ==> t == s.(windowSize := m.windowSize))
            && 0 <= k
            && t.ackSeqno == s.ackSeqno + SumLengths(s.outstanding[..k])
            && (k > 0 ==> t.ackSeqno <= ack
                          && t.retransmissions == 0 && t.rto == initialRTO && t.elapsed == 0
                          && (t.timerActive <==> t.outstanding != []))
            && (k == 0 ==> t == s.(windowSize := m.windowSize))
            && (t.outstanding != [] && ack <= s.nextSeqno ==> ack < t.ackSeqno + SeqLen(t.outstanding[0]))
  {
    var ack := Unwrap(m.ackno.value, isn, s.nextSeqno % U64_LIMIT);
    var t := AfterAck(s, m, isn, initialRTO);
    UnackedProps(s.outstanding, s.ackSeqno, ack, isn, maxPayload);
    UnackedSuffix(s.outstanding, s.ackSeqno, ack);
    var k := |s.outstanding| - |t.outstanding|;
    SumLengthsConcat(s.outstanding[..k], t.outstanding);
  }

  /** `tick` keeps the invariant and changes nothing but the retransmission
      count, the RTO and the elapsed time. */
  lemma TickedInv(s: SenderState, ms: u64, isn: u32, initialRTO: u64, maxPayload: nat)
    requires SenderInv(s, isn, initialRTO, maxPayload)
    ensures var t := Ticked(s, ms);
            && SenderInv(t, isn, initialRTO, maxPayload)
            && t == s.(retransmissions := t.retransmissions, rto := t.rto, elapsed := t.elapsed)
  {
  }

  /** Rule 5.5 of section 5 of RFC 6298, skipped for a zero window: the
      retransmission count rises by one, and the RTO doubles, exactly when
      the timer expires with a segment outstanding and the peer's window is
      open; otherwise both stay as they were. Expiry always restarts the
      elapsed time from zero. */
  lemma TickBacksOff(s: SenderState, ms: u64, isn: u32, initialRTO: u64, maxPayload: nat)
    requires SenderInv(s, isn, initialRTO, maxPayload)
    ensures var t, backoff := Ticked(s, ms), Expires(s, ms) && s.windowSize != 0;
            && t.retransmissions == s.retransmissions + (if backoff then 1 else 0)
            && t.rto == (if backoff then Backoff(initialRTO, s.retransmissions + 1) else s.rto)
            && (Expires(s, ms) ==> t.elapsed == 0)
            && (!s.timerActive ==> t.elapsed == s.elapsed)
  {
  }

  /** On expiry `tick` resends exactly one segment, the oldest outstanding
      one, which starts at the acknowledged point; it sends nothing when the
      timer has not expired. */
  lemma RetransmitsOldest(s: SenderState, ms: u64, isn: u32, initialRTO: u64, maxPayload: nat)
    requires SenderInv(s, isn, initialRTO, maxPayload)
    ensures var r := Retransmission(s, ms);
            && (r != [] <==> Expires(s, ms))
            && (r != [] ==> r == [s.outstanding[0]]
                            && r[0].seqno == Wrap(s.ackSeqno % U64_LIMIT, isn) && 0 < SeqLen(r[0]))
  {
  }

  /** Partway through `push` from state `s0`, in state `s` with `sent` sent
      so far: the sent segments were queued and form a `Batch` cut from the
      bytes buffered at `s0` by the size rule `CutToFit` against the window's
      right edge, the bytes have been popped, the FIN is only on the
      last of them, the window, when anything was sent, is not exceeded, and
      the timer was started if it was stopped. */
  ghost predicate PushedFrom(sent: seq<SenderMessage>, s0: SenderState, s: SenderState, isn: u32, maxPayload: nat)
  {
    && s0.stream.popped <= |s0.stream.written|
    && (s0.timerActive <==> s0.outstanding != [])
    && s.outstanding == s0.outstanding + sent
    && s.nextSeqno == s0.nextSeqno + SumLengths(sent)
    && Batch(sent, s0.nextSeqno, s0.stream.Buffered(), s0.stream.error, isn, maxPayload)
    && CutToFit(sent, s0.nextSeqno, s0.stream.Buffered(), s0.ackSeqno + SendWindow(s0.windowSize),
                s0.stream.closed, maxPayload)
    && s0.stream.popped + |Payloads(sent)| <= |s0.stream.written|
    && s.stream == s0.stream.(popped := s0.stream.popped + |Payloads(sent)|)
    && (sent != [] && sent[|sent| - 1].FIN ==> s.finSent)
    && (s0.finSent ==> s.finSent && sent == [])
    && s.windowSize == s0.windowSize && s.ackSeqno == s0.ackSeqno
    && (sent != [] ==> s.nextSeqno <= s.ackSeqno + SendWindow(s.windowSize))
    && s.elapsed == if s0.timerActive || sent == [] then s0.elapsed else 0
  }

  /** `push` from a given state has one way to cut a given number of
      segments, which leave the same queue, next sequence number and stream. */
  lemma PushedUnique(x: seq<SenderMessage>, y: seq<SenderMessage>, s0: SenderState, s: SenderState, t: SenderState,
                     isn: u32, maxPayload: nat)
    requires PushedFrom(x, s0, s, isn, maxPayload) && PushedFrom(y, s0, t, isn, maxPayload) && |x| == |y|
    ensures x == y
    ensures s.outstanding == t.outstanding && s.nextSeqno == t.nextSeqno && s.stream == t.stream
  {
    CutUnique(x, y, s0.nextSeqno, s0.stream.Buffered(), s0.stream.error, isn, maxPayload,
              s0.ackSeqno + SendWindow(s0.windowSize), s0.stream.closed);
  }

  /** One segment `m` sent from state `s`, reaching state `t`: it is numbered
      from the next sequence number, carries the SYN exactly when nothing was
      sent before, occupies at least one sequence number, carries the
      stream's leading bytes, as many as `FitsRoom` says, which are popped,
      and joins the outstanding queue; the FIN flag is latched with it, the
      window is respected and a stopped timer starts from zero. */
  ghost predicate SentOne(s: SenderState, t: SenderState, m: SenderMessage, isn: u32, maxPayload: nat)
  {
    && m.seqno == Wrap(s.nextSeqno % U64_LIMIT, isn) && (m.SYN <==> s.nextSeqno == 0)
    && 0 < SeqLen(m) && |m.payload| <= maxPayload && m.RST == s.stream.error
    && t.outstanding == s.outstanding + [m] && t.nextSeqno == s.nextSeqno + SeqLen(m)
    && (t.finSent <==> m.FIN)
    && t.windowSize == s.windowSize && t.ackSeqno == s.ackSeqno
    && t.nextSeqno <= t.ackSeqno + SendWindow(t.windowSize)
    && s.stream.popped + |m.payload| <= |s.stream.written|
    && m.payload == s.stream.written[s.stream.popped..][..|m.payload|]
    && FitsRoom(s, m, maxPayload)
    && t.stream == s.stream.(popped := s.stream.popped + |m.payload|)
    && t.elapsed == if s.timerActive then s.elapsed else 0
  }

  /** The size rule of `push` for a segment cut in state `s`: the payload
      is as long as the payload limit, the window room left after the SYN,
      and the buffered bytes allow, and the FIN rides along exactly when room
      is left for it and the closed stream has been emptied. */
  ghost predicate FitsRoom(s: SenderState, m: SenderMessage, maxPayload: nat)
  {
    var room, syn, avail := s.ackSeqno + SendWindow(s.windowSize) - s.nextSeqno, (if m.SYN then 1 else 0),
                            |s.stream.written| - s.stream.popped;
    && |m.payload| == Min(Min(maxPayload, room - syn), avail)
    && (m.FIN <==> room > syn + |m.payload| && s.stream.closed && |m.payload| == avail)
  }

  /** A segment cut with `remaining` the window room of `s` follows the
      size rule. */
  lemma MadeToFit(s: SenderState, m: SenderMessage, remaining: nat, maxPayload: nat, before: Bytes, after: Bytes)
    requires s.stream.popped <= |s.stream.written| && before == s.stream.written[s.stream.popped..]
    requires s.ackSeqno + SendWindow(s.windowSize) - s.nextSeqno == remaining
    requires var syn := if m.SYN then 1 else 0;
             && |m.payload| == Min(Min(maxPayload, remaining - syn), |before|)
             && (m.FIN <==> remaining > syn + |m.payload| && s.stream.closed && after == [])
    requires after == before[|m.payload|..]
    ensures FitsRoom(s, m, maxPayload)
  {
  }

  /** Sending one more segment `m` from state `s`, reaching state `t`, keeps
      `PushedFrom`. */
  lemma PushedFromExtend(sent: seq<SenderMessage>, m: SenderMessage, s0: SenderState, s: SenderState, t: SenderState,
                         isn: u32, maxPayload: nat)
    requires PushedFrom(sent, s0, s, isn, maxPayload) && !s.finSent
    requires s.timerActive <==> s.outstanding != []
    requires SentOne(s, t, m, isn, maxPayload)
    ensures PushedFrom(sent + [m], s0, t, isn, maxPayload)
  {
    var b := s0.stream.Buffered();
    var k := |Payloads(sent)|;
    assert s.stream.written == s0.stream.written;
    assert b[k..] == s.stream.written[s.stream.popped..];
    BatchExtend(sent, m, s0.nextSeqno, s.nextSeqno, b, b[k..], s0.stream.error, isn, maxPayload);
    PushedCutExtend(sent, m, s0, s, t, isn, maxPayload);
    SumLengthsConcat(sent, [m]);
    PayloadsConcat(sent, [m]);
    QueueOne(m, s.nextSeqno, isn, maxPayload);
    AppendAssoc(s0.outstanding, sent, [m]);
    assert (sent + [m])[|sent + [m]| - 1] == m;
  }

  /** The size rule of a batch survives one more segment cut by it. */
  lemma PushedCutExtend(sent: seq<SenderMessage>, m: SenderMessage, s0: SenderState, s: SenderState, t: SenderState,
                        isn: u32, maxPayload: nat)
    requires PushedFrom(sent, s0, s, isn, maxPayload)
    requires SentOne(s, t, m, isn, maxPayload)
    ensures CutToFit(sent + [m], s0.nextSeqno, s0.stream.Buffered(), s0.ackSeqno + SendWindow(s0.windowSize),
                     s0.stream.closed, maxPayload)
  {
    var b := s0.stream.Buffered();
    var k := |Payloads(sent)|;
    assert s.stream.written == s0.stream.written;
    assert b[k..] == s.stream.written[s.stream.popped..];
    CutExtend(sent, m, s0.nextSeqno, s.nextSeqno, b, b[k..], s0.ackSeqno + SendWindow(s0.windowSize),
              s0.stream.closed, maxPayload);
  }

  /** What `push` sends: segments numbered back to back from the next
      sequence number, the SYN on the first segment of the connection only,
      the FIN on the last segment only, the reset flag as the stream's error,
      and as payloads the stream's leading bytes, in order, which leave the
      stream. */
  lemma PushedSegments(sent: seq<SenderMessage>, s0: SenderState, s: SenderState, isn: u32, maxPayload: nat)
    requires PushedFrom(sent, s0, s, isn, maxPayload)
    ensures Segments(sent, s0.nextSeqno, isn, maxPayload)
    ensures forall i | 0 <= i < |sent| ::
              && (sent[i].SYN <==> i == 0 && s0.nextSeqno == 0)
              && sent[i].RST == s0.stream.error
              && (sent[i].FIN ==> i == |sent| - 1)
    ensures Payloads(sent) == s0.stream.Buffered()[..|Payloads(sent)|]
    ensures s.stream.Buffered() == s0.stream.Buffered()[|Payloads(sent)|..]
  {
    var b := s0.stream.Buffered();
    BatchSegments(sent, s0.nextSeqno, b, s0.stream.error, isn, maxPayload);
    SegmentsSyn(sent, s0.nextSeqno, isn, maxPayload);
    BatchPayloads(sent, s0.nextSeqno, b, s0.stream.error, isn, maxPayload);
  }

  /** `TCPSender`. The header's defaults are the constructor's: window 1,
      nothing sent, empty queue, stopped timer. `maxPayload` stands for
      `TCPConfig::MAX_PAYLOAD_SIZE`. */
  class TCPSender {
    const input: ByteStream
    const isn: u32
    const initialRTO: u64
    const maxPayload: nat
    const timer: RetransmissionTimer
    var synSent: bool
    var finSent: bool
    var nextSeqno: nat
    var ackSeqno: nat
    var windowSize: u16
    var outstanding: seq<SenderMessage>
    var totalOutstanding: nat
    var retransmissions: nat

    /** The sender's invariant: the bookkeeping of `Accounted`, and the
        timer runs exactly while some segment is unacknowledged. */
    ghost predicate Valid()
      reads this, input, timer
    {
      Accounted() && TimerRuns()
    }

    ghost predicate Accounted()
      reads this, input, timer
    {
      input.Valid() && InFlight() && SentFromStream() && BackedOff()
    }

    /** The in-flight count is the distance from the oldest unacknowledged
        sequence number to the next one and the total length of the queue,
        which is numbered back to back from the former. */
    ghost predicate InFlight()
      reads this`ackSeqno, this`totalOutstanding, this`nextSeqno, this`outstanding
    {
      && maxPayload > 0
      && ackSeqno + totalOutstanding == nextSeqno
      && totalOutstanding == SumLengths(outstanding)
      && Segments(outstanding, ackSeqno, isn, maxPayload)
    }

    /** Every sequence number sent is the SYN, a byte popped from the stream
        or the FIN, the FIN only once the stream is finished. */
    ghost predicate SentFromStream()
      reads this`nextSeqno, this`synSent, this`finSent, input`totalPopped, input`closed, input`totalBuffered
    {
      && nextSeqno == (if synSent then 1 else 0) + input.totalPopped + (if finSent then 1 else 0)
      && (!synSent ==> !finSent && input.totalPopped == 0)
      && (finSent ==> input.closed && input.totalBuffered == 0)
    }

    /** The RTO has been doubled once per consecutive retransmission. */
    ghost predicate BackedOff()
      reads this`retransmissions, timer`rto
    {
      timer.rto == Backoff(initialRTO, retransmissions)
    }

    ghost predicate TimerRuns()
      reads this`outstanding, timer`active
    {
      timer.active <==> outstanding != []
    }

    ghost function State(): SenderState
      reads this, input, timer
    {
      SenderState(synSent, finSent, nextSeqno, ackSeqno, windowSize, outstanding, retransmissions,
                  timer.active, timer.rto, timer.elapsed, input.State())
    }

    constructor (input: ByteStream, isn: u32, initialRTO: u64, maxPayload: nat)
      requires input.Valid() && input.totalPopped == 0 && maxPayload > 0
      ensures Valid() && this.input == input && this.isn == isn && fresh(timer)
      ensures State() == SenderState(false, false, 0, 0, 1, [], 0, false, initialRTO, 0, input.State())
    {
      this.input := input;
      this.isn := isn;
      this.initialRTO := initialRTO;
      this.maxPayload := maxPayload;
      timer := new RetransmissionTimer(initialRTO);
      synSent, finSent := false, false;
      nextSeqno, ackSeqno := 0, 0;
      windowSize := 1;
      outstanding := [];
      totalOutstanding := 0;
      retransmissions := 0;
    }

    /** The class invariant is the invariant of the sender's state. */
    lemma ValidInv()
      requires Valid()
      ensures SenderInv(State(), isn, initialRTO, maxPayload)
    {
      input.ValidState();
    }

    /** `sequence_numbers_in_flight`: sent and not yet acknowledged. */
    function SequenceNumbersInFlight(): (n: nat)
      reads this, input, timer
      requires Valid()
      ensures n == nextSeqno - ackSeqno && n == SumLengths(outstanding)
    {
      totalOutstanding
    }

    function ConsecutiveRetransmissions(): (n: nat)
      reads this, input, timer
      requires Valid()
      ensures timer.rto == Backoff(initialRTO, n)
    {
      retransmissions
    }

    /** `make_empty_message`: a segment that occupies no sequence number,
        stamped with the next one, and carrying the stream's error as RST. */
    function MakeEmptyMessage(): (m: SenderMessage)
      reads this, input
      ensures SeqLen(m) == 0 && m.RST == input.error
      ensures Unwrap(m.seqno, isn, nextSeqno % U64_LIMIT) == nextSeqno % U64_LIMIT
    {
      UnwrapWrap(nextSeqno % U64_LIMIT, isn, nextSeqno % U64_LIMIT);
      SenderMessage(Wrap(nextSeqno % U64_LIMIT, isn), false, [], false, input.error)
    }

    /** One pass of the loop at lines 39-44 of `push`: the front chunk, cut
        to at most `want` bytes, is taken from the stream. */
    method TakeChunk(want: nat) returns (view: Bytes)
      requires input.Valid() && want > 0 && input.totalBuffered != 0
      modifies input
      ensures input.Valid()
      ensures 0 < |view| <= want && |view| <= |old(input.Buffered())|
      ensures view == old(input.Buffered())[..|view|]
      ensures input.Buffered() == old(input.Buffered())[|view|..]
      ensures input.totalPopped == old(input.totalPopped) + |view|
      ensures input.written == old(input.written) && input.closed == old(input.closed)
      ensures input.error == old(input.error)
    {
      ghost var rest := input.Buffered();
      view := input.Peek();
      if |view| > want {
        view := view[..want];
      }
      assert view == rest[..|view|];
      input.Pop(|view|);
    }

    /** Lines 39-44 of `push`: take up to `len` bytes from the front of the
        stream, one peeked chunk at a time. */
    method ReadPayload(len: nat) returns (payload: Bytes)
      requires input.Valid()
      modifies input
      ensures input.Valid()
      ensures |payload| == Min(len, |old(input.Buffered())|)
      ensures payload == old(input.Buffered())[..|payload|]
      ensures input.Buffered() == old(input.Buffered())[|payload|..]
      ensures input.totalPopped == old(input.totalPopped) + |payload|
      ensures input.written == old(input.written) && input.closed == old(input.closed)
      ensures input.error == old(input.error)
    {
      ghost var b := input.Buffered();
      payload := [];
      while input.BytesBuffered() != 0 && |payload| < len
        invariant input.Valid() && |payload| <= len && |payload| <= |b|
        invariant payload == b[..|payload|] && input.Buffered() == b[|payload|..]
        invariant input.totalPopped == old(input.totalPopped) + |payload|
        invariant input.written == old(input.written) && input.closed == old(input.closed)
        invariant input.error == old(input.error)
        decreases len - |payload|
      {
        var view := TakeChunk(len - |payload|);
        TakeMore(b, |payload|, |view|);
        payload := payload + view;
      }
    }

    /** Lines 29-49 of `push`: an empty segment stamped with the next
        sequence number, the SYN if it has not been sent, as much payload as
        the room left allows (at most `maxPayload` bytes), and the FIN if the
        stream is finished and the segment still leaves room for it. */
    method MakeSegment(remaining: nat) returns (msg: SenderMessage)
      requires Valid() && !finSent && remaining > 0
      modifies this`synSent, this`finSent, input
      ensures input.Valid() && synSent && finSent == msg.FIN
      ensures msg.seqno == Wrap(nextSeqno % U64_LIMIT, isn) && msg.RST == input.error
      ensures msg.SYN <==> !old(synSent)
      ensures |msg.payload| == Min(Min(maxPayload, remaining - (if msg.SYN then 1 else 0)), |old(input.Buffered())|)
      ensures msg.payload == old(input.Buffered())[..|msg.payload|]
      ensures input.Buffered() == old(input.Buffered())[|msg.payload|..]
      ensures input.totalPopped == old(input.totalPopped) + |msg.payload|
      ensures input.written == old(input.written) && input.closed == old(input.closed)
      ensures input.error == old(input.error)
      ensures msg.FIN <==> remaining > (if msg.SYN then 1 else 0) + |msg.payload| && input.closed && input.Buffered() == []
      ensures SeqLen(msg) <= remaining
    {
      msg := MakeEmptyMessage();
      if !synSent {
        msg := msg.(SYN := true);
        synSent := true;
      }
      var len := Min(maxPayload, remaining - SeqLen(msg));
      var payload := ReadPayload(len);
      msg := msg.(payload := payload);
      if !finSent && remaining > SeqLen(msg) && input.IsFinished() {
        msg := msg.(FIN := true);
        finSent := true;
      }
    }

    /** Lines 55-61 of `push`: the segment goes out, the timer starts if it
        is stopped, and the segment joins the outstanding queue. */
    method Transmit(msg: SenderMessage)
      requires input.Valid() && maxPayload > 0
      requires ackSeqno + totalOutstanding == nextSeqno && totalOutstanding == SumLengths(outstanding)
      requires Segments(outstanding, ackSeqno, isn, maxPayload)
      requires (timer.active <==> outstanding != []) && timer.rto == Backoff(initialRTO, retransmissions)
      requires msg.seqno == Wrap(nextSeqno % U64_LIMIT, isn) && (msg.SYN <==> nextSeqno == 0)
      requires 0 < SeqLen(msg) && |msg.payload| <= maxPayload
      requires nextSeqno + SeqLen(msg) == (if synSent then 1 else 0) + input.totalPopped + (if finSent then 1 else 0)
      requires !synSent ==> !finSent && input.totalPopped == 0
      requires finSent ==> input.closed && input.totalBuffered == 0
      modifies this`nextSeqno, this`totalOutstanding, this`outstanding, timer`active, timer`elapsed
      ensures Valid()
      ensures outstanding == old(outstanding) + [msg]
      ensures nextSeqno == old(nextSeqno) + SeqLen(msg)
      ensures timer.elapsed == if old(timer.active) then old(timer.elapsed) else 0
    {
      if !timer.IsActive() {
        timer.Start();
      }
      QueueOne(msg, nextSeqno, isn, maxPayload);
      SumLengthsConcat(outstanding, [msg]);
      SegmentsConcat(outstanding, [msg], ackSeqno, isn, maxPayload);
      nextSeqno := nextSeqno + SeqLen(msg);
      totalOutstanding := totalOutstanding + SeqLen(msg);
      outstanding := outstanding + [msg];
    }

    /** Partway through `push` from state `s0`: the invariant holds and
        `PushedFrom` relates the current state to `s0`. */
    ghost predicate Pushing(sent: seq<SenderMessage>, s0: SenderState)
      reads this, input, timer
    {
      Valid() && PushedFrom(sent, s0, State(), isn, maxPayload)
    }

    /** Why `push` stops: the window is full, the FIN is out, or the SYN is
        out and the stream has nothing to give until it gets more bytes or
        closes. */
    ghost predicate Stalled()
      reads this, input
    {
      totalOutstanding >= SendWindow(windowSize) || finSent
      || (synSent && input.Buffered() == [] && !input.closed)
    }

    /** One pass of the loop at lines 25-62 of `push`, once the FIN check
        has passed: make a segment for the `remaining` room and send it,
        unless it would occupy no sequence number, which happens only when
        the SYN is already out and the stream has nothing to give yet. */
    method PushOne(remaining: nat) returns (msg: SenderMessage)
      requires Valid() && !finSent && 0 < remaining
      requires totalOutstanding + remaining == SendWindow(windowSize)
      modifies this`synSent, this`finSent, this`nextSeqno, this`totalOutstanding, this`outstanding
      modifies input, timer`active, timer`elapsed
      ensures Valid()
      ensures SeqLen(msg) == 0 ==> State() == old(State()) && Stalled()
      ensures SeqLen(msg) > 0 ==> SentOne(old(State()), State(), msg, isn, maxPayload)
    {
      ghost var s, before := State(), input.Buffered();
      assert before == s.stream.written[s.stream.popped..];
      assert s.ackSeqno + SendWindow(s.windowSize) - s.nextSeqno == remaining;
      msg := MakeSegment(remaining);
      MadeToFit(s, msg, remaining, maxPayload, before, input.Buffered());
      if SeqLen(msg) != 0 {
        Transmit(msg);
      }
    }

    /** `PushOne` as a step of `Pushing`. */
    method PushStep(ghost sent: seq<SenderMessage>, ghost s0: SenderState) returns (msg: SenderMessage, stop: bool)
      requires Pushing(sent, s0) && !finSent && SendWindow(windowSize) > totalOutstanding
      modifies this`synSent, this`finSent, this`nextSeqno, this`totalOutstanding, this`outstanding
      modifies input, timer`active, timer`elapsed
      ensures stop ==> Pushing(sent, s0) && Stalled()
      ensures !stop ==> Pushing(sent + [msg], s0) && totalOutstanding > old(totalOutstanding)
    {
      ghost var s := State();
      msg := PushOne(SendWindow(windowSize) - totalOutstanding);
      stop := SeqLen(msg) == 0;
      if !stop {
        PushedFromExtend(sent, msg, s0, s, State(), isn, maxPayload);
      }
    }

    /** `push`: cut segments from the stream while the window (one sequence
        number when the peer advertises zero) has room. The segments sent
        form a `Batch` numbered from the next sequence number and carrying
        the stream's leading bytes, each as long as `CutToFit` demands and
        with the FIN exactly where it allows, fit the window together with what was
        already in flight, and the FIN goes only on the last of them.
        Sending stops only with the window full, the FIN sent, or the SYN
        sent and nothing to send until the stream gets more bytes or
        closes. */
    method Push() returns (sent: seq<SenderMessage>)
      requires Valid()
      modifies this`synSent, this`finSent, this`nextSeqno, this`totalOutstanding, this`outstanding
      modifies input, timer`active, timer`elapsed
      ensures Valid()
      ensures PushedFrom(sent, old(State()), State(), isn, maxPayload)
      ensures Stalled()
    {
      ghost var s0 := State();
      sent := [];
      while SendWindow(windowSize) > totalOutstanding
        invariant Pushing(sent, s0)
        decreases SendWindow(windowSize) - totalOutstanding
      {
        if finSent {
          break;
        }
        var msg, stop := PushStep(sent, s0);
        if stop {
          break;
        }
        sent := sent + [msg];
      }
    }

    /** One pass of the loop at lines 89-98 of `receive`: the front segment,
        wholly acknowledged, leaves the queue. */
    method RetireFront()
      requires Accounted() && outstanding != []
      modifies this`ackSeqno, this`totalOutstanding, this`outstanding
      ensures Accounted()
      ensures outstanding == old(outstanding)[1..]
      ensures ackSeqno == old(ackSeqno) + SeqLen(old(outstanding)[0])
    {
      var len := SeqLen(outstanding[0]);
      ackSeqno := ackSeqno + len;
      totalOutstanding := totalOutstanding - len;
      outstanding := outstanding[1..];
    }

    /** `receive`. */
    method Receive(msg: ReceiverMessage)
      requires Valid()
      modifies this`windowSize, this`ackSeqno, this`totalOutstanding, this`outstanding, this`retransmissions
      modifies input`error, timer
      ensures Valid()
      ensures State() == AfterAck(old(State()), msg, isn, initialRTO)
    {
      ghost var s := State();
      if input.HasError() {
        return;
      }
      if msg.RST {
        input.SetError();
        assert State() == s.(stream := s.stream.(error := true));
        return;
      }
      windowSize := msg.windowSize;
      ghost var s1 := s.(windowSize := msg.windowSize);
      assert State() == s1;
      if msg.ackno.None? {
        return;
      }
      var ack := Unwrap(msg.ackno.value, isn, nextSeqno % U64_LIMIT);
      if ack > nextSeqno {
        return;
      }
      RetireAcked(ack);
    }

    /** Lines 89-103 of `receive`: retire the segments `ack` wholly covers;
        if any, clear the retransmission count, restore the initial RTO and
        restart the timer, or stop it when nothing is left outstanding. */
    method RetireAcked(ack: nat)
      requires Valid()
      modifies this`ackSeqno, this`totalOutstanding, this`outstanding, this`retransmissions, timer
      ensures Valid()
      ensures State() == Retired(old(State()), ack, initialRTO)
    {
      ghost var s := State();
      UnackedProps(outstanding, ackSeqno, ack, isn, maxPayload);
      var hasAck := RetireLoop(ack);
      if hasAck {
        retransmissions := 0;
        timer.Reload(initialRTO);
        if outstanding == [] {
          timer.Stop();
        } else {
          timer.Start();
        }
        assert State() == s.(outstanding := outstanding, ackSeqno := ackSeqno, retransmissions := 0,
                             timerActive := outstanding != [], rto := initialRTO, elapsed := 0);
      }
    }

    /** The loop at lines 89-98 of `receive`. */
    method RetireLoop(ack: nat) returns (hasAck: bool)
      requires Accounted()
      modifies this`ackSeqno, this`totalOutstanding, this`outstanding
      ensures Accounted()
      ensures outstanding == Unacked(old(outstanding), old(ackSeqno), ack)
      ensures ackSeqno == AckedUpTo(old(outstanding), old(ackSeqno), ack)
      ensures hasAck <==> |outstanding| < |old(outstanding)|
    {
      ghost var q0, a0 := outstanding, ackSeqno;
      hasAck := false;
      while outstanding != []
        invariant Accounted() && |outstanding| <= |q0|
        invariant Unacked(outstanding, ackSeqno, ack) == Unacked(q0, a0, ack)
        invariant AckedUpTo(outstanding, ackSeqno, ack) == AckedUpTo(q0, a0, ack)
        invariant hasAck <==> |outstanding| < |q0|
        decreases |outstanding|
      {
        if ackSeqno + SeqLen(outstanding[0]) > ack {
          break;
        }
        hasAck := true;
        RetireFront();
      }
    }

    /** `tick`. Under `Valid` an expired timer always has a segment to
        resend, since the timer runs exactly while one is outstanding. */
    method Tick(ms: u64) returns (sent: seq<SenderMessage>)
      requires Valid()
      modifies this`retransmissions, timer`rto, timer`elapsed
      ensures Valid()
      ensures State() == Ticked(old(State()), ms)
      ensures sent == Retransmission(old(State()), ms)
    {
      ghost var s := State();
      sent := [];
      timer.Tick(ms);
      if timer.IsExpired() && outstanding != [] {
        sent := [outstanding[0]];
        if windowSize != 0 {
          retransmissions := retransmissions + 1;
          timer.ExponentialBackoff();
        }
        timer.Reset();
        assert State() == s.(retransmissions := retransmissions, rto := timer.rto, elapsed := 0);
      } else {
        assert State() == s.(elapsed := timer.elapsed);
      }
    }
  }
}
