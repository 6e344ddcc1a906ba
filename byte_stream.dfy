/** A bounded FIFO byte stream with a writer side (push, close) and a reader
    side (peek, pop). Bytes are kept as a queue of non-empty chunks, the
    unread part of each pushed string; counters record the bytes ever pushed,
    currently buffered and ever popped. */
module ByteStreams {
  import opened Common

  /** The bytes of a queue of chunks, front first. */
  function Concat(chunks: seq<Bytes>): Bytes
  {
    if chunks == [] then [] else chunks[0] + Concat(chunks[1..])
  }

  lemma {:induction false} ConcatAppend(chunks: seq<Bytes>, d: Bytes)
    ensures Concat(chunks + [d]) == Concat(chunks) + d
  {
    if chunks != [] {
      assert (chunks + [d])[1..] == chunks[1..] + [d];
      ConcatAppend(chunks[1..], d);
    }
  }

  /** Dropping `k` bytes from the front chunk drops `k` bytes from the stream. */
  lemma ConcatTrimFront(chunks: seq<Bytes>, k: nat)
    requires chunks != [] && k <= |chunks[0]|
    ensures Concat([chunks[0][k..]] + chunks[1..]) == Concat(chunks)[k..]
  {
    assert ([chunks[0][k..]] + chunks[1..])[1..] == chunks[1..];
  }

  /** The observable state of a stream: its capacity, every byte ever
      written, how many of them the reader has consumed, and the two flags. */
  datatype StreamState = StreamState(capacity: nat, written: Bytes, popped: nat, closed: bool, error: bool)
  {
    /** The stream's own invariant: the reader never overtakes the writer,
        and what is buffered fits in the capacity. */
    ghost predicate Inv()
    {
      popped <= |written| && |written| - popped <= capacity
    }

    /** The bytes pushed and not yet popped. */
    function Buffered(): Bytes
      requires popped <= |written|
    {
      written[popped..]
    }

    /** `Writer::available_capacity`. */
    function Available(): int
    {
      capacity - (|written| - popped)
    }
  }

  class ByteStream {
    const capacity: nat
    /** `stream_view_`: the unread part of every chunk still held (the owning
        deque `stream_` has one entry per view and is not modelled separately). */
    var chunks: seq<Bytes>
    var totalPushed: nat
    var totalBuffered: nat
    var totalPopped: nat
    var closed: bool
    var error: bool
    /** Every byte the writer has ever pushed, in order. */
    ghost var written: Bytes

    ghost predicate Valid()
      reads this
    {
      && (forall i | 0 <= i < |chunks| :: chunks[i] != [])
      && totalPushed == |written|
      && totalPopped <= totalPushed
      && Concat(chunks) == written[totalPopped..]
      && totalBuffered == totalPushed - totalPopped
      && totalBuffered <= capacity
    }

    /** The bytes held by the stream, oldest first. */
    function Buffered(): Bytes
      reads this
    {
      Concat(chunks)
    }

    ghost function State(): StreamState
      reads this
    {
      StreamState(capacity, written, totalPopped, closed, error)
    }

    constructor (capacity: nat)
      ensures Valid()
      ensures State() == StreamState(capacity, [], 0, false, false)
      ensures Buffered() == []
    {
      this.capacity := capacity;
      chunks := [];
      totalPushed, totalBuffered, totalPopped := 0, 0, 0;
      closed, error := false, false;
      written := [];
    }

    /** The stream's invariant, stated on its abstract state. */
    lemma ValidState()
      requires Valid()
      ensures State().Inv() && Buffered() == State().Buffered()
    {
    }

    function IsClosed(): bool
      reads this
    {
      closed
    }

    function HasError(): bool
      reads this
    {
      error
    }

    /** `Writer::available_capacity`: the room left before the capacity is reached. */
    function AvailableCapacity(): (n: nat)
      reads this
      requires Valid()
      ensures n + |Buffered()| == capacity
      ensures n == State().Available()
    {
      capacity - totalBuffered
    }

    /** `Writer::bytes_pushed`: how many bytes were ever accepted. */
    function BytesPushed(): (n: nat)
      reads this
      requires Valid()
      ensures n == |written| && n == BytesPopped() + |Buffered()|
    {
      totalPushed
    }

    /** `Reader::bytes_popped`: how many bytes the reader has consumed. */
    function BytesPopped(): (n: nat)
      reads this
      requires Valid()
      ensures n + |Buffered()| == |written|
    {
      totalPopped
    }

    /** `Reader::bytes_buffered`. */
    function BytesBuffered(): (n: nat)
      reads this
      requires Valid()
      ensures n == |Buffered()| && n <= capacity
    {
      totalBuffered
    }

    /** `Reader::is_finished`: closed, and everything pushed has been popped. */
    function IsFinished(): (b: bool)
      reads this
      requires Valid()
      ensures b <==> closed && Buffered() == []
      ensures b <==> closed && BytesPopped() == BytesPushed()
    {
      closed && totalBuffered == 0
    }

    /** `Reader::peek`: the unread part of the front chunk, which is a
        non-empty prefix of the buffered bytes whenever any are buffered. */
    function Peek(): (view: Bytes)
      reads this
      requires Valid()
      ensures Buffered() == [] ==> view == []
      ensures Buffered() != [] ==> view != [] && view <= Buffered()
    {
      if chunks == [] then [] else chunks[0]
    }

    /** `Writer::push`: keep the first `min(|data|, available_capacity)` bytes
        of `data`; nothing at all when the stream is closed. */
    method Push(data: Bytes)
      requires Valid()
      modifies this
      ensures Valid()
      ensures var n := if old(closed) then 0 else Min(|data|, old(AvailableCapacity()));
              && written == old(written) + data[..n]
              && Buffered() == old(Buffered()) + data[..n]
      ensures totalPopped == old(totalPopped) && closed == old(closed) && error == old(error)
    {
      if closed || AvailableCapacity() == 0 || |data| == 0 {
        return;
      }
      var d := data;
      if |d| > AvailableCapacity() {
        d := d[..AvailableCapacity()];
      }
      ConcatAppend(chunks, d);
      chunks := chunks + [d];
      totalPushed := totalPushed + |d|;
      totalBuffered := totalBuffered + |d|;
      written := written + d;
    }

    /** `Writer::close`; idempotent. */
    method Close()
      requires Valid()
      modifies this`closed
      ensures Valid() && closed
    {
      closed := true;
    }

    /** `set_error`, shared by both roles. */
    method SetError()
      requires Valid()
      modifies this`error
      ensures Valid() && error
    {
      error := true;
    }

    /** `Reader::pop`: remove `min(len, bytes_buffered)` bytes from the front.
        Asking for more than is buffered empties the stream and is not an error. */
    method Pop(len: nat)
      requires Valid()
      modifies this
      ensures Valid()
      ensures var k := Min(len, |old(Buffered())|);
              && Buffered() == old(Buffered())[k..]
              && totalPopped == old(totalPopped) + k
      ensures written == old(written) && closed == old(closed) && error == old(error)
    {
      var remaining: nat := len;
      while chunks != [] && remaining != 0
        invariant Valid()
        invariant remaining <= len
        invariant len - remaining <= |old(Buffered())|
        invariant Buffered() == old(Buffered())[len - remaining..]
        invariant totalPopped == old(totalPopped) + (len - remaining)
        invariant written == old(written) && closed == old(closed) && error == old(error)
        decreases remaining
      {
        var size := |chunks[0]|;
        if size > remaining {
          ConcatTrimFront(chunks, remaining);
          chunks := [chunks[0][remaining..]] + chunks[1..];
          totalBuffered := totalBuffered - remaining;
          totalPopped := totalPopped + remaining;
          return;
        } else {
          chunks := chunks[1..];
          totalBuffered := totalBuffered - size;
          totalPopped := totalPopped + size;
          remaining := remaining - size;
        }
      }
      assert chunks == [] ==> |Buffered()| == 0;
    }
  }
}
