/** The reassembler: it takes substrings of a byte stream, each tagged with
    the absolute index of its first byte, keeps the ones that fit in the
    output stream's free capacity, and writes bytes to the stream as soon as
    every earlier byte has been written. */
module Reassembly {
  import opened Common
  import opened ByteStreams
  import opened PendingRanges

  /** What a reassembler's behaviour depends on: its output stream, the
      bytes it holds back by absolute index, and whether it has seen the
      substring that ends the stream (`end_flag_`). */
  datatype RState = RState(stream: StreamState, pending: map<int, u8>, endFlag: bool)
  {
    /** The index of the next byte the stream expects (`bytes_pushed`). */
    function FirstUnassembled(): nat
    {
      |stream.written|
    }

    /** The first index beyond the output's free capacity. */
    function FirstUnacceptable(): int
    {
      |stream.written| + stream.Available()
    }

    /** Held bytes lie strictly after the next expected index (otherwise they
        would have been written) and below the capacity limit; once the end
        is known and nothing is held back, the stream is closed. */
    ghost predicate Inv()
    {
      && stream.Inv()
      && (forall i | i in pending :: FirstUnassembled() < i < stream.popped + stream.capacity)
      && (endFlag && pending == map[] ==> stream.closed)
    }
  }

  /** The reassembler state right after construction over `stream`. */
  function Initial(stream: StreamState): RState
  {
    RState(stream, map[], false)
  }

  /** Close the stream once the end is known and nothing is held back. */
  function CloseIfDone(r: RState): RState
  {
    r.(stream := r.stream.(closed := r.stream.closed || (r.endFlag && r.pending == map[])))
  }

  /** Where an accepted substring starts once the bytes already written are
      cut off its front. */
  function ClipStart(r: RState, first: nat): nat
  {
    Max(first, r.FirstUnassembled())
  }

  /** The part of `data` inside the window `[bytes_pushed, bytes_pushed +
      available_capacity)`. */
  function Clip(r: RState, first: nat, data: Bytes): Bytes
    requires r.FirstUnassembled() < r.FirstUnacceptable()
    requires r.FirstUnassembled() < first + |data| && first < r.FirstUnacceptable()
  {
    data[ClipStart(r, first) - first .. Min(first + |data|, r.FirstUnacceptable()) - first]
  }

  /** A substring cut at the window's end no longer counts as the last one. */
  function StillLast(r: RState, first: nat, data: Bytes, isLast: bool): bool
  {
    isLast && first + |data| <= r.FirstUnacceptable()
  }

  /** `Reassembler::insert` on the abstract state. An empty substring only
      records `is_last_substring`, wherever it claims to be. A non-empty one
      that lies outside the window, or meets a full stream, changes nothing.
      Otherwise its part inside the window is accepted. */
  function Inserted(r: RState, first: nat, data: Bytes, isLast: bool): RState
  {
    if data == [] then
      CloseIfDone(r.(endFlag := r.endFlag || isLast))
    else if r.FirstUnassembled() >= r.FirstUnacceptable()
         || first + |data| <= r.FirstUnassembled() || first >= r.FirstUnacceptable() then
      r
    else
      Accept(r, ClipStart(r, first), Clip(r, first, data), StillLast(r, first, data, isLast))
  }

  /** The held bytes with `d` placed at `f`, overriding what was held there. */
  function Placed(r: RState, f: nat, d: Bytes): map<int, u8>
  {
    r.pending + Cells(Pending(f, d))
  }

  /** The bytes written to the stream: the run held from `bytes_pushed`, or
      nothing when the stream is closed. */
  function Drained(r: RState, f: nat, d: Bytes): Bytes
  {
    if r.stream.closed then [] else Run(Placed(r, f, d), r.FirstUnassembled())
  }

  /** How many indices from `bytes_pushed` on stop being held: those written,
      or, for a closed stream, the new entry alone when it starts exactly at
      `bytes_pushed` (its push is refused but it is erased all the same). */
  function Dropped(r: RState, f: nat, d: Bytes): nat
  {
    if r.stream.closed then (if f == r.FirstUnassembled() then |d| else 0) else |Drained(r, f, d)|
  }

  /** The bytes still held afterwards. */
  function Held(r: RState, f: nat, d: Bytes): map<int, u8>
  {
    Above(Placed(r, f, d), r.FirstUnassembled() + Dropped(r, f, d))
  }

  /** The in-window part of `insert`: `d`, already clipped to the window and
      starting at `f`, is placed, the run from `bytes_pushed` is written, and
      the stream is closed if the end is known and nothing is held back. */
  function Accept(r: RState, f: nat, d: Bytes, last: bool): RState
  {
    CloseIfDone(RState(r.stream.(written := r.stream.written + Drained(r, f, d)), Held(r, f, d), r.endFlag || last))
  }

  /** The window an accepted substring must lie in. */
  ghost predicate InWindow(r: RState, f: nat, d: Bytes)
  {
    d != [] && r.FirstUnassembled() <= f && f + |d| <= r.FirstUnacceptable()
  }

  /** The clipped substring is the window's share of `data`, at the same
      absolute indices. */
  lemma ClipWindow(r: RState, first: nat, data: Bytes)
    requires data != [] && r.FirstUnassembled() < r.FirstUnacceptable()
    requires r.FirstUnassembled() < first + |data| && first < r.FirstUnacceptable()
    ensures var f, d := ClipStart(r, first), Clip(r, first, data);
            && InWindow(r, f, d)
            && f + |d| == Min(first + |data|, r.FirstUnacceptable())
            && (forall t | 0 <= t < |d| :: d[t] == data[f - first + t])
  {
  }

  /** Every held byte, old or new, lies in the window. */
  lemma PlacedWithin(r: RState, f: nat, d: Bytes)
    requires r.Inv() && InWindow(r, f, d)
    ensures forall i | i in Placed(r, f, d) :: r.FirstUnassembled() <= i < r.FirstUnacceptable()
    ensures forall i | i in Placed(r, f, d) && i < f :: i > r.FirstUnassembled()
  {
  }

  /** What is written is held contiguously from `bytes_pushed`, stops at a
      gap, and fits in the free capacity. */
  lemma DrainedFits(r: RState, f: nat, d: Bytes)
    requires r.Inv() && InWindow(r, f, d)
    ensures var U, w := r.FirstUnassembled(), Drained(r, f, d);
            && U + |w| <= r.FirstUnacceptable()
            && (forall i | U <= i < U + |w| :: i in Placed(r, f, d) && Placed(r, f, d)[i] == w[i - U])
            && (!r.stream.closed ==> U + |w| !in Placed(r, f, d))
  {
    var U, m := r.FirstUnassembled(), Placed(r, f, d);
    PlacedWithin(r, f, d);
    if !r.stream.closed {
      RunHolds(m, U);
      if Run(m, U) != [] {
        assert U + |Run(m, U)| - 1 in m;
      }
    }
  }

  /** What stays held lies strictly beyond what the stream has been given. */
  lemma HeldWithin(r: RState, f: nat, d: Bytes)
    requires r.Inv() && InWindow(r, f, d)
    ensures forall i | i in Held(r, f, d) ::
              r.FirstUnassembled() + |Drained(r, f, d)| < i < r.FirstUnacceptable()
  {
    PlacedWithin(r, f, d);
    DrainedFits(r, f, d);
  }

  lemma AcceptInv(r: RState, f: nat, d: Bytes, last: bool)
    requires r.Inv() && InWindow(r, f, d)
    ensures var r' := Accept(r, f, d, last);
            && r'.Inv()
            && r'.stream.written == r.stream.written + Drained(r, f, d)
            && (r.stream.closed ==> Drained(r, f, d) == [])
  {
    DrainedFits(r, f, d);
    HeldWithin(r, f, d);
  }

  /** Inserting keeps the reassembler's invariant, never lets the stream's
      buffered bytes exceed its capacity, and only appends to what was
      written; the reader's side and the error flag are untouched, and the
      end flag and the closed flag are never cleared. */
  lemma InsertedInv(r: RState, first: nat, data: Bytes, isLast: bool)
    requires r.Inv()
    ensures var r' := Inserted(r, first, data, isLast);
            && r'.Inv()
            && r.stream.written <= r'.stream.written
            && r'.stream.popped == r.stream.popped
            && r'.stream.capacity == r.stream.capacity
            && r'.stream.error == r.stream.error
            && (r.endFlag ==> r'.endFlag)
            && (r.stream.closed ==> r'.stream.closed && r'.stream.written == r.stream.written)
  {
    if data != [] && !(r.FirstUnassembled() >= r.FirstUnacceptable()
                       || first + |data| <= r.FirstUnassembled() || first >= r.FirstUnacceptable()) {
      AcceptInv(r, ClipStart(r, first), Clip(r, first, data), StillLast(r, first, data, isLast));
    }
  }

  /** The newest bytes win: each byte of an accepted substring ends up, at
      its own index, written to the stream or held back, overriding whatever
      was held there before. */
  lemma AcceptKeeps(r: RState, f: nat, d: Bytes, last: bool, i: int)
    requires r.Inv() && InWindow(r, f, d) && !r.stream.closed
    requires f <= i < f + |d|
    ensures var r' := Accept(r, f, d, last);
            || (i < |r'.stream.written| && r'.stream.written[i] == d[i - f])
            || (i in r'.pending && r'.pending[i] == d[i - f])
  {
    assert i in Cells(Pending(f, d));
    assert Placed(r, f, d)[i] == ByteAt(Pending(f, d), i);
    DrainedFits(r, f, d);
  }

  /** Held bytes that the new substring does not cover are kept as well. */
  lemma AcceptKeepsPending(r: RState, f: nat, d: Bytes, last: bool, i: int)
    requires r.Inv() && InWindow(r, f, d) && !r.stream.closed
    requires i in r.pending && !(f <= i < f + |d|)
    ensures var r' := Accept(r, f, d, last);
            || (i < |r'.stream.written| && r'.stream.written[i] == r.pending[i])
            || (i in r'.pending && r'.pending[i] == r.pending[i])
  {
    assert i !in Cells(Pending(f, d));
    DrainedFits(r, f, d);
  }

  /** Nothing accepted is lost: every byte of `data` that falls inside the
      window ends up, at its own index, either written to the stream or held
      back, overriding any byte held there before. */
  lemma InsertedKeeps(r: RState, first: nat, data: Bytes, isLast: bool, i: int)
    requires r.Inv() && !r.stream.closed
    requires first <= i < first + |data|
    requires r.FirstUnassembled() <= i < r.FirstUnacceptable()
    ensures var r' := Inserted(r, first, data, isLast);
            || (i < |r'.stream.written| && r'.stream.written[i] == data[i - first])
            || (i in r'.pending && r'.pending[i] == data[i - first])
  {
    var f, d, last := ClipStart(r, first), Clip(r, first, data), StillLast(r, first, data, isLast);
    ClipWindow(r, first, data);
    assert d[i - f] == data[i - first];
    InsertedAccepts(r, first, data, isLast);
    ghost var r' := Accept(r, f, d, last);
    AcceptKeeps(r, f, d, last, i);
    assert || (i < |r'.stream.written| && r'.stream.written[i] == data[i - first])
           || (i in r'.pending && r'.pending[i] == data[i - first]);
  }

  /** A non-empty substring that reaches into an open window is accepted
      once clipped. */
  lemma InsertedAccepts(r: RState, first: nat, data: Bytes, isLast: bool)
    requires data != [] && r.FirstUnassembled() < r.FirstUnacceptable()
    requires r.FirstUnassembled() < first + |data| && first < r.FirstUnacceptable()
    ensures Inserted(r, first, data, isLast)
            == Accept(r, ClipStart(r, first), Clip(r, first, data), StillLast(r, first, data, isLast))
  {
  }

  /** Bytes held back before the insertion and not covered by the new
      substring are not lost either: each is written at its index or still held. */
  lemma InsertedKeepsPending(r: RState, first: nat, data: Bytes, isLast: bool, i: int)
    requires r.Inv() && !r.stream.closed
    requires i in r.pending && !(first <= i < first + |data|)
    ensures var r' := Inserted(r, first, data, isLast);
            || (i < |r'.stream.written| && r'.stream.written[i] == r.pending[i])
            || (i in r'.pending && r'.pending[i] == r.pending[i])
  {
    if data != [] && !(r.FirstUnassembled() >= r.FirstUnacceptable()
                       || first + |data| <= r.FirstUnassembled() || first >= r.FirstUnacceptable()) {
      AcceptKeepsPending(r, ClipStart(r, first), Clip(r, first, data), StillLast(r, first, data, isLast), i);
    }
  }

  /** A reassembler closes its stream exactly when the end is known and no
      byte is held back. */
  lemma InsertedCloses(r: RState, first: nat, data: Bytes, isLast: bool)
    requires r.Inv()
    ensures var r' := Inserted(r, first, data, isLast);
            r'.stream.closed <==> r.stream.closed || (r'.endFlag && r'.pending == map[])
  {
  }

  /** An empty substring is taken at face value whatever index it claims:
      only its last-substring flag matters. */
  lemma EmptyInsertIgnoresIndex(r: RState, first: nat, other: nat, isLast: bool)
    ensures Inserted(r, first, [], isLast) == Inserted(r, other, [], isLast)
  {
  }

  /** A substring entirely outside the window, or any non-empty substring
      when the stream is full, changes nothing, not even the end flag. */
  lemma OutOfWindowIgnored(r: RState, first: nat, data: Bytes, isLast: bool)
    requires data != []
    requires || first + |data| <= r.FirstUnassembled() || first >= r.FirstUnacceptable()
             || r.FirstUnassembled() >= r.FirstUnacceptable()
    ensures Inserted(r, first, data, isLast) == r
  {
  }

  /** In-order delivery: a substring that starts at the next expected index,
      fits the free capacity and meets no held bytes is written whole; if it
      is the last one, the stream closes. */
  lemma InOrderWritten(r: RState, data: Bytes, isLast: bool)
    requires r.Inv() && !r.stream.closed && r.pending == map[]
    requires data != [] && r.FirstUnassembled() + |data| <= r.FirstUnacceptable()
    ensures Inserted(r, r.FirstUnassembled(), data, isLast)
            == RState(r.stream.(written := r.stream.written + data, closed := isLast || r.endFlag),
                      map[], r.endFlag || isLast)
  {
    var U := r.FirstUnassembled();
    FrontAccepted(r, data, isLast);
    FrontDrained(r, data);
    assert Held(r, U, data) == map[];
  }

  lemma FrontAccepted(r: RState, data: Bytes, isLast: bool)
    requires data != [] && r.FirstUnassembled() + |data| <= r.FirstUnacceptable()
    ensures Inserted(r, r.FirstUnassembled(), data, isLast) == Accept(r, r.FirstUnassembled(), data, isLast)
  {
    ClipWindow(r, r.FirstUnassembled(), data);
    assert Clip(r, r.FirstUnassembled(), data) == data;
  }

  lemma FrontDrained(r: RState, data: Bytes)
    requires r.pending == map[] && !r.stream.closed
    ensures Drained(r, r.FirstUnassembled(), data) == data
  {
    var U := r.FirstUnassembled();
    var c := Pending(U, data);
    assert Placed(r, U, data) == Cells(c);
    forall i | U <= i < U + |data| ensures i in Cells(c) && Cells(c)[i] == data[i - U] {
      assert ByteAt(c, i) == data[i - U];
    }
    assert U + |data| !in Cells(c);
    RunUnique(Cells(c), U, data);
  }

  /** In-order use: `x` at 0 and then `y` right after it are written at
      once, and an empty last substring at their end closes the stream. */
  lemma InOrderThenLast(cap: nat, x: Bytes, y: Bytes)
    requires x != [] && y != [] && |x| + |y| <= cap
    ensures var s0 := Initial(StreamState(cap, [], 0, false, false));
            var s1 := Inserted(s0, 0, x, false);
            var s2 := Inserted(s1, |x|, y, false);
            var s3 := Inserted(s2, |x| + |y|, [], true);
            && s2.stream.written == x + y && !s2.stream.closed
            && s3.stream.written == x + y && s3.stream.closed
  {
    var s0 := Initial(StreamState(cap, [], 0, false, false));
    var t1 := RState(StreamState(cap, x, 0, false, false), map[], false);
    var t2 := RState(StreamState(cap, x + y, 0, false, false), map[], false);
    assert Inserted(s0, 0, x, false) == t1 by {
      InOrderWritten(s0, x, false);
    }
    assert Inserted(t1, |x|, y, false) == t2 by {
      InOrderWritten(t1, y, false);
    }
  }

  /** The end flag does not wait for the bytes before it: an empty last
      substring at any index, with nothing held back, closes an empty stream. */
  lemma PrematureClose(cap: nat, first: nat)
    ensures var s := Inserted(Initial(StreamState(cap, [], 0, false, false)), first, [], true);
            s.stream.closed && s.stream.written == []
  {
  }

  /** A last substring that repeats bytes already written is dropped before
      its flag is looked at: the stream stays open although every byte up to
      the announced end has arrived. */
  lemma DuplicateLastIgnored(cap: nat, x: Bytes)
    requires x != [] && |x| <= cap
    ensures var s1 := Inserted(Initial(StreamState(cap, [], 0, false, false)), 0, x, false);
            var s2 := Inserted(s1, 0, x, true);
            && s2 == s1 && s2.stream.written == x && !s2.endFlag && !s2.stream.closed
  {
    var s0 := Initial(StreamState(cap, [], 0, false, false));
    assert Inserted(s0, 0, x, false) == RState(StreamState(cap, x, 0, false, false), map[], false) by {
      InOrderWritten(s0, x, false);
    }
  }

  /** Out-of-order use: `y`, sent first but belonging after `x`, is held
      back until `x` arrives, then both are written. */
  lemma OutOfOrder(cap: nat, x: Bytes, y: Bytes)
    requires x != [] && y != [] && |x| + |y| <= cap
    ensures var s0 := Initial(StreamState(cap, [], 0, false, false));
            var s1 := Inserted(s0, |x|, y, false);
            var s2 := Inserted(s1, 0, x, false);
            && s1.stream.written == [] && s1.pending == Cells(Pending(|x|, y))
            && s2.stream.written == x + y && s2.pending == map[]
  {
    var s0 := Initial(StreamState(cap, [], 0, false, false));
    var t1 := RState(StreamState(cap, [], 0, false, false), Cells(Pending(|x|, y)), false);
    assert Inserted(s0, |x|, y, false) == t1 by {
      HeldAhead(cap, x, y);
    }
    assert Inserted(t1, 0, x, false) == RState(StreamState(cap, x + y, 0, false, false), map[], false) by {
      GapFilled(cap, x, y);
    }
  }

  lemma HeldAhead(cap: nat, x: Bytes, y: Bytes)
    requires x != [] && y != [] && |x| + |y| <= cap
    ensures Inserted(Initial(StreamState(cap, [], 0, false, false)), |x|, y, false)
            == RState(StreamState(cap, [], 0, false, false), Cells(Pending(|x|, y)), false)
  {
    var s0 := Initial(StreamState(cap, [], 0, false, false));
    assert Inserted(s0, |x|, y, false) == Accept(s0, |x|, y, false) by {
      ClipWindow(s0, |x|, y);
      assert Clip(s0, |x|, y) == y;
    }
    var c := Cells(Pending(|x|, y));
    assert Placed(s0, |x|, y) == c by {
      MapEmptyLeft(c);
    }
    assert 0 !in c;
    assert Drained(s0, |x|, y) == [];
    assert Held(s0, |x|, y) == c by {
      AboveAll(c, 0);
    }
  }

  lemma GapFilled(cap: nat, x: Bytes, y: Bytes)
    requires x != [] && y != [] && |x| + |y| <= cap
    ensures var t1 := RState(StreamState(cap, [], 0, false, false), Cells(Pending(|x|, y)), false);
            Inserted(t1, 0, x, false) == RState(StreamState(cap, x + y, 0, false, false), map[], false)
  {
    var t1 := RState(StreamState(cap, [], 0, false, false), Cells(Pending(|x|, y)), false);
    assert Inserted(t1, 0, x, false) == Accept(t1, 0, x, false) by {
      ClipWindow(t1, 0, x);
      assert Clip(t1, 0, x) == x;
    }
    assert Drained(t1, 0, x) == x + y by {
      GapRun(x, y);
    }
    assert Held(t1, 0, x) == map[];
  }

  lemma GapRun(x: Bytes, y: Bytes)
    ensures Run(Cells(Pending(|x|, y)) + Cells(Pending(0, x)), 0) == x + y
  {
    var cy, cx := Pending(|x|, y), Pending(0, x);
    var m := Cells(cy) + Cells(cx);
    forall i | 0 <= i < 0 + |x + y| ensures i in m && m[i] == (x + y)[i - 0] {
      if i < |x| {
        assert ByteAt(cx, i) == x[i];
      } else {
        assert ByteAt(cy, i) == y[i - |x|];
      }
    }
    assert |x| + |y| !in m;
    RunUnique(m, 0, x + y);
  }

  /** The state is consistent with message `M`: what is written is a prefix
      of `M`, and every held byte is `M`'s byte at its index. */
  ghost predicate Agrees(r: RState, M: Bytes)
  {
    && r.stream.written <= M
    && (forall i | i in r.pending :: 0 <= i < |M| && r.pending[i] == M[i])
  }

  /** Nothing but the message gets in: inserting any substring of `M` into
      a state consistent with `M` leaves it consistent with `M`, so the
      stream only ever holds a prefix of `M`. */
  lemma InsertedAgrees(r: RState, first: nat, data: Bytes, isLast: bool, M: Bytes)
    requires r.Inv() && Agrees(r, M)
    requires first + |data| <= |M| && data == M[first..first + |data|]
    ensures Agrees(Inserted(r, first, data, isLast), M)
  {
    if data != [] && !(r.FirstUnassembled() >= r.FirstUnacceptable()
                       || first + |data| <= r.FirstUnassembled() || first >= r.FirstUnacceptable()) {
      var f, d := ClipStart(r, first), Clip(r, first, data);
      ClipWindow(r, first, data);
      AcceptAgrees(r, f, d, StillLast(r, first, data, isLast), M);
    }
  }

  lemma AcceptAgrees(r: RState, f: nat, d: Bytes, last: bool, M: Bytes)
    requires r.Inv() && Agrees(r, M) && InWindow(r, f, d)
    requires f + |d| <= |M| && forall t | 0 <= t < |d| :: d[t] == M[f + t]
    ensures Agrees(Accept(r, f, d, last), M)
  {
    PlacedAgrees(r, f, d, M);
    DrainedAgrees(r, f, d, M);
    var m, k := Placed(r, f, d), r.FirstUnassembled() + Dropped(r, f, d);
    assert forall i | i in Above(m, k) :: i in m && Above(m, k)[i] == m[i];
  }

  /** Placing a substring of `M` over bytes of `M` holds only bytes of `M`. */
  lemma PlacedAgrees(r: RState, f: nat, d: Bytes, M: Bytes)
    requires Agrees(r, M)
    requires f + |d| <= |M| && forall t | 0 <= t < |d| :: d[t] == M[f + t]
    ensures forall i | i in Placed(r, f, d) :: 0 <= i < |M| && Placed(r, f, d)[i] == M[i]
  {
    var m := Placed(r, f, d);
    forall i | i in m ensures 0 <= i < |M| && m[i] == M[i] {
      if i in Cells(Pending(f, d)) {
        assert m[i] == ByteAt(Pending(f, d), i) == d[i - f];
      }
    }
  }

  /** The bytes drained from held bytes of `M` extend the written prefix of
      `M` to a longer prefix of `M`. */
  lemma DrainedAgrees(r: RState, f: nat, d: Bytes, M: Bytes)
    requires r.Inv() && Agrees(r, M) && InWindow(r, f, d)
    requires forall i | i in Placed(r, f, d) :: 0 <= i < |M| && Placed(r, f, d)[i] == M[i]
    ensures r.stream.written + Drained(r, f, d) <= M
  {
    var U, m, w := r.FirstUnassembled(), Placed(r, f, d), Drained(r, f, d);
    DrainedFits(r, f, d);
    if w != [] {
      assert U + |w| - 1 in m;
    }
    assert r.stream.written == M[..U];
    forall i | U <= i < U + |w| ensures w[i - U] == M[i] {
      assert m[i] == w[i - U];
    }
  }

  /** A piece of a message: a substring tagged with its first index and the
      last-substring flag, as `insert` receives it. */
  datatype Piece = Piece(first: nat, data: Bytes, isLast: bool)

  /** `p` is a genuine piece of `M`: its bytes are `M`'s at their indices,
      and it is flagged last only if it is non-empty and ends `M`. */
  ghost predicate PieceOf(p: Piece, M: Bytes)
  {
    && p.first + |p.data| <= |M| && p.data == M[p.first..p.first + |p.data|]
    && (p.isLast ==> p.data != [] && p.first + |p.data| == |M|)
  }

  /** Inserting the pieces one after the other, first to last. */
  function InsertAll(r: RState, ps: seq<Piece>): RState
    decreases |ps|
  {
    if ps == [] then r else InsertAll(Inserted(r, ps[0].first, ps[0].data, ps[0].isLast), ps[1..])
  }

  /** Inserting two runs of pieces is inserting the first run, then the
      second. */
  lemma {:induction false} InsertAllConcat(r: RState, a: seq<Piece>, b: seq<Piece>)
    ensures InsertAll(r, a + b) == InsertAll(InsertAll(r, a), b)
    decreases |a|
  {
    if a == [] {
      assert a + b == b;
    } else {
      assert (a + b)[0] == a[0] && (a + b)[1..] == a[1..] + b;
      InsertAllConcat(Inserted(r, a[0].first, a[0].data, a[0].isLast), a[1..], b);
    }
  }

  /** Index `i` is carried by some piece of `ps`. */
  ghost predicate Covered(ps: seq<Piece>, i: int)
    decreases |ps|
  {
    ps != [] && ((ps[0].first <= i < ps[0].first + |ps[0].data|) || Covered(ps[1..], i))
  }

  /** Byte `i` has reached the reassembler: written, or held back. */
  ghost predicate Kept(r: RState, i: int)
  {
    i < |r.stream.written| || i in r.pending
  }

  /** What reassembling `M` keeps along the way: the invariant, agreement
      with `M`, room for all of `M`, and an end flag or closed stream only
      once the last byte has arrived. */
  ghost predicate Assembling(r: RState, M: Bytes)
  {
    && r.Inv() && Agrees(r, M)
    && |M| <= r.stream.popped + r.stream.capacity
    && (r.endFlag ==> |M| - 1 in r.pending || r.stream.written == M)
    && (r.stream.closed ==> r.stream.written == M)
  }

  /** One insertion of a piece of `M` keeps `Assembling`, loses no byte
      already kept, and keeps every byte of the piece. */
  lemma AssemblingStep(r: RState, p: Piece, M: Bytes)
    requires Assembling(r, M) && PieceOf(p, M)
    ensures var r' := Inserted(r, p.first, p.data, p.isLast);
            && Assembling(r', M)
            && forall i | 0 <= i < |M| && (Kept(r, i) || p.first <= i < p.first + |p.data|) :: Kept(r', i)
  {
    var r' := Inserted(r, p.first, p.data, p.isLast);
    InsertedInv(r, p.first, p.data, p.isLast);
    InsertedAgrees(r, p.first, p.data, p.isLast, M);
    InsertedCloses(r, p.first, p.data, p.isLast);
    EndFlagStep(r, p, M);
    forall i | 0 <= i < |M| && (Kept(r, i) || p.first <= i < p.first + |p.data|) ensures Kept(r', i) {
      KeptStep(r, p, M, i);
    }
  }

  /** The end flag, once set by the genuine last piece, stays backed by the
      last byte of `M`: held, or written along with all of `M`. */
  lemma EndFlagStep(r: RState, p: Piece, M: Bytes)
    requires Assembling(r, M) && PieceOf(p, M)
    ensures var r' := Inserted(r, p.first, p.data, p.isLast);
            r'.endFlag ==> |M| - 1 in r'.pending || r'.stream.written == M
  {
    var r' := Inserted(r, p.first, p.data, p.isLast);
    InsertedInv(r, p.first, p.data, p.isLast);
    InsertedAgrees(r, p.first, p.data, p.isLast, M);
    if r.stream.closed {
    } else if r.endFlag {
      if |M| - 1 in r.pending {
        KeptStep(r, p, M, |M| - 1);
      }
    } else if r'.endFlag {
      assert p.isLast && p.first + |p.data| == |M|;
      if r.FirstUnassembled() < |M| {
        KeptStep(r, p, M, |M| - 1);
      }
    }
  }

  lemma KeptStep(r: RState, p: Piece, M: Bytes, i: int)
    requires Assembling(r, M) && PieceOf(p, M)
    requires 0 <= i < |M| && (Kept(r, i) || p.first <= i < p.first + |p.data|)
    ensures Kept(Inserted(r, p.first, p.data, p.isLast), i)
  {
    InsertedInv(r, p.first, p.data, p.isLast);
    assert r.FirstUnacceptable() == r.stream.popped + r.stream.capacity;
    if r.stream.closed || i < |r.stream.written| {
    } else if p.first <= i < p.first + |p.data| {
      InsertedKeeps(r, p.first, p.data, p.isLast, i);
    } else {
      InsertedKeepsPending(r, p.first, p.data, p.isLast, i);
    }
  }

  /** Inserting a run of pieces keeps `Assembling` and keeps every byte that
      was kept before or that some piece carries. */
  lemma {:induction false} AssemblingAll(r: RState, ps: seq<Piece>, M: Bytes)
    requires Assembling(r, M) && forall k | 0 <= k < |ps| :: PieceOf(ps[k], M)
    ensures var t := InsertAll(r, ps);
            && Assembling(t, M)
            && forall i | 0 <= i < |M| && (Kept(r, i) || Covered(ps, i)) :: Kept(t, i)
    decreases |ps|
  {
    if ps != [] {
      var r1 := Inserted(r, ps[0].first, ps[0].data, ps[0].isLast);
      AssemblingStep(r, ps[0], M);
      assert forall k | 0 <= k < |ps[1..]| :: PieceOf(ps[1..][k], M) by {
        forall k | 0 <= k < |ps[1..]| ensures PieceOf(ps[1..][k], M) {
          assert ps[1..][k] == ps[k + 1];
        }
      }
      AssemblingAll(r1, ps[1..], M);
    }
  }

  /** Reassembly in any order: pieces of `M`, inserted in any order into a
      fresh reassembler whose stream has room for `M`, deliver exactly `M`
      once they cover every index of it, holding nothing back. A stream the
      pieces close is closed only after all of `M` is written. */
  lemma Reassembles(cap: nat, M: Bytes, ps: seq<Piece>)
    requires |M| <= cap
    requires forall k | 0 <= k < |ps| :: PieceOf(ps[k], M)
    requires forall i | 0 <= i < |M| :: Covered(ps, i)
    ensures var t := InsertAll(Initial(StreamState(cap, [], 0, false, false)), ps);
            && t.stream.written == M && t.pending == map[]
            && (t.endFlag ==> t.stream.closed)
  {
    var s0 := Initial(StreamState(cap, [], 0, false, false));
    assert Assembling(s0, M);
    AssemblingAll(s0, ps, M);
    var t := InsertAll(s0, ps);
    assert forall i | 0 <= i < |M| :: Kept(t, i);
    AllKept(t, M);
  }

  /** Reassembly followed by the end marker: after pieces of `M` covering
      every index of `M`, in any order, an empty last substring at the end
      of `M` closes the stream with exactly `M` written and nothing held. */
  lemma ReassemblesThenCloses(cap: nat, M: Bytes, ps: seq<Piece>)
    requires |M| <= cap
    requires forall k | 0 <= k < |ps| :: PieceOf(ps[k], M)
    requires forall i | 0 <= i < |M| :: Covered(ps, i)
    ensures var t := InsertAll(Initial(StreamState(cap, [], 0, false, false)), ps + [Piece(|M|, [], true)]);
            && t.stream.written == M && t.pending == map[] && t.stream.closed
  {
    var s0 := Initial(StreamState(cap, [], 0, false, false));
    var end := Piece(|M|, [], true);
    Reassembles(cap, M, ps);
    InsertAllConcat(s0, ps, [end]);
    var t := InsertAll(s0, ps);
    assert [end][1..] == [];
    assert InsertAll(t, [end]) == Inserted(t, |M|, [], true);
  }

  /** A reassembler building `M` that keeps every index of `M` has written
      all of `M` and holds nothing. */
  lemma AllKept(t: RState, M: Bytes)
    requires Assembling(t, M)
    requires forall i | 0 <= i < |M| :: Kept(t, i)
    ensures t.stream.written == M && t.pending == map[]
  {
    var n := |t.stream.written|;
    assert n <= |M|;
    assert !Kept(t, n);
    assert n == |M|;
    assert forall i :: i !in t.pending;
  }

  /** After the new entry is placed, the front entry starts at the next
      expected index exactly when the new entry does, and is then that entry:
      every older held byte lies above that index. */
  lemma FrontStart(rs: seq<Pending>, before: map<int, u8>, u: int, f: nat, d: Bytes, it: nat)
    requires WellFormed(rs) && d != [] && f >= u
    requires it < |rs| && rs[it] == Pending(f, d)
    requires Cover(rs) == before + Cells(Pending(f, d))
    requires forall i | i in before :: i > u
    ensures rs[0].start == u <==> f == u
    ensures f == u ==> rs[0] == Pending(f, d)
  {
    EntryBounds(rs, 0);
    assert it > 0 ==> End(rs[0]) <= rs[it].start;
  }

  /** The drain loop's outcome, stated on the store, is the abstract
      `Drained`/`Held` pair. */
  lemma DrainMatches(r: RState, f: nat, d: Bytes, placed: seq<Pending>, after: seq<Pending>, written: Bytes)
    requires r.Inv() && InWindow(r, f, d) && WellFormed(placed)
    requires Cover(placed) == Placed(r, f, d)
    requires placed != [] && (placed[0].start == r.FirstUnassembled() <==> f == r.FirstUnassembled())
    requires f == r.FirstUnassembled() ==> placed[0] == Pending(f, d)
    requires !r.stream.closed ==>
               && written == r.stream.written + Flushed(placed, r.FirstUnassembled())
               && after == Rest(placed, r.FirstUnassembled())
    requires r.stream.closed ==>
               && written == r.stream.written
               && after == if placed[0].start == r.FirstUnassembled() then placed[1..] else placed
    ensures Cover(after) == Held(r, f, d)
    ensures written == r.stream.written + Drained(r, f, d)
  {
    var u := r.FirstUnassembled();
    PlacedWithin(r, f, d);
    if !r.stream.closed {
      DrainOpen(r, f, d, placed);
    } else if f == u {
      DrainClosedFront(r, f, d, placed);
    } else {
      AboveAll(Placed(r, f, d), u);
    }
  }

  lemma DrainOpen(r: RState, f: nat, d: Bytes, placed: seq<Pending>)
    requires !r.stream.closed && WellFormed(placed)
    requires Cover(placed) == Placed(r, f, d)
    requires forall i | i in Placed(r, f, d) :: r.FirstUnassembled() <= i
    ensures Flushed(placed, r.FirstUnassembled()) == Drained(r, f, d)
    ensures Cover(Rest(placed, r.FirstUnassembled())) == Held(r, f, d)
  {
    FlushedRun(placed, r.FirstUnassembled());
    RestAbove(placed, r.FirstUnassembled());
  }

  lemma DrainClosedFront(r: RState, f: nat, d: Bytes, placed: seq<Pending>)
    requires r.stream.closed && WellFormed(placed) && f == r.FirstUnassembled()
    requires Cover(placed) == Placed(r, f, d)
    requires placed != [] && placed[0] == Pending(f, d)
    ensures Cover(placed[1..]) == Held(r, f, d)
  {
    CoverDropFront(placed);
  }

  /** The reassembler object: the output stream it owns, `buf_` (held
      substrings in key order), `total_pending_` and `end_flag_`. */
  class Reassembler {
    const output: ByteStream
    var buf: seq<Pending>
    var totalPending: nat
    var endFlag: bool

    ghost predicate Valid()
      reads this, output
    {
      && output.Valid()
      && WellFormed(buf)
      && totalPending == PendingSize(buf)
      && (forall i | i in Cover(buf) :: output.totalPushed < i < output.totalPopped + output.capacity)
      && (endFlag && buf == [] ==> output.closed)
    }

    ghost function State(): RState
      reads this, output
    {
      RState(output.State(), Cover(buf), endFlag)
    }

    lemma ValidState()
      requires Valid()
      ensures State().Inv()
    {
      EmptyStore(buf);
    }

    constructor (output: ByteStream)
      requires output.Valid()
      ensures Valid() && this.output == output
      ensures State() == Initial(output.State())
    {
      this.output := output;
      buf := [];
      totalPending := 0;
      endFlag := false;
    }

    /** `Reassembler::bytes_pending`: zero exactly when nothing is held back. */
    function BytesPending(): (n: nat)
      reads this, output
      requires Valid()
      ensures n == 0 <==> State().pending == map[]
      ensures n == |State().pending|
    {
      EmptyStore(buf);
      CoverSize(buf);
      totalPending
    }

    /** `Reassembler::split`: make sure no held substring straddles `pos`,
        cutting the one that does in two, and return `lower_bound(pos)`. */
    method Split(pos: int) returns (idx: nat)
      requires WellFormed(buf)
      modifies this`buf
      ensures WellFormed(buf) && Cover(buf) == old(Cover(buf)) && PendingSize(buf) == old(PendingSize(buf))
      ensures idx == LowerBound(buf, pos) && NoStraddle(buf, pos)
      ensures forall q :: NoStraddle(old(buf), q) ==> NoStraddle(buf, q)
      ensures forall q | q <= pos :: LowerBound(buf, q) == old(LowerBound(buf, q))
    {
      idx := LowerBound(buf, pos);
      if idx < |buf| && buf[idx].start == pos {
        assert idx > 0 ==> End(buf[idx - 1]) <= buf[idx].start;
        return;
      }
      if idx == 0 {
        return;
      }
      var p := buf[idx - 1];
      if End(p) <= pos {
        return;
      }
      SplitEntry(buf, idx - 1, pos);
      SplitIndex(buf, idx - 1, pos, idx);
      buf := buf[..idx - 1] + [Low(p, pos), High(p, pos)] + buf[idx..];
      LowerBoundUnique(buf, pos, idx);
    }

    /** `Reassembler::insert`. */
    method Insert(first: nat, data: Bytes, isLast: bool)
      requires Valid()
      modifies this, output
      ensures Valid()
      ensures State() == Inserted(old(State()), first, data, isLast)
    {
      ghost var r := State();
      if data == [] {
        endFlag := endFlag || isLast;
        EmptyStore(buf);
        if endFlag && totalPending == 0 {
          output.Close();
        }
        return;
      }
      var unassembled := output.BytesPushed();
      var unacceptable := unassembled + output.AvailableCapacity();
      assert unassembled == r.FirstUnassembled() && unacceptable == r.FirstUnacceptable();
      if unassembled >= unacceptable {
        OutOfWindowIgnored(r, first, data, isLast);
        return;
      }
      if first + |data| <= unassembled || first >= unacceptable {
        OutOfWindowIgnored(r, first, data, isLast);
        return;
      }
      var d, f, last := data, first, isLast;
      if first + |d| > unacceptable {
        d := d[..unacceptable - first];
        last := false;
      }
      if f < unassembled {
        d := d[unassembled - f..];
        f := unassembled;
      }
      assert f == ClipStart(r, first) && d == Clip(r, first, data) && last == StillLast(r, first, data, isLast);
      ClipWindow(r, first, data);
      AcceptClipped(f, d, last);
      InsertedAccepts(r, first, data, isLast);
    }

    /** Lines 55-75 of `insert`, once the substring is clipped to the window. */
    method AcceptClipped(f: nat, d: Bytes, last: bool)
      requires Valid() && InWindow(State(), f, d)
      modifies this, output
      ensures Valid() && State() == Accept(old(State()), f, d, last)
    {
      ghost var r := State();
      endFlag := endFlag || last;
      ghost var r0 := r.(endFlag := false);
      assert Held(r0, f, d) == Held(r, f, d) && Drained(r0, f, d) == Drained(r, f, d);
      StoreAndDrain(f, d, r0);
      EmptyStore(buf);
      ghost var b := State();
      assert b == RState(r.stream.(written := r.stream.written + Drained(r, f, d)), Held(r, f, d), r.endFlag || last);
      if endFlag && totalPending == 0 {
        output.Close();
      }
      assert State() == CloseIfDone(b);
    }

    /** Lines 57-72 of `insert`: hold the clipped substring `d` at `f`, then
        write out the run that became contiguous with `bytes_pushed`. */
    method StoreAndDrain(f: nat, d: Bytes, ghost r: RState)
      requires r.stream == output.State() && r.pending == Cover(buf) && !r.endFlag
      requires output.Valid() && WellFormed(buf) && totalPending == PendingSize(buf)
      requires forall i | i in Cover(buf) :: output.totalPushed < i < output.totalPopped + output.capacity
      requires d != [] && output.totalPushed <= f && f + |d| <= output.totalPopped + output.capacity
      modifies this`buf, this`totalPending, output
      ensures output.Valid() && WellFormed(buf) && totalPending == PendingSize(buf)
      ensures forall i | i in Cover(buf) :: output.totalPushed < i < output.totalPopped + output.capacity
      ensures output.totalPopped == old(output.totalPopped) && output.closed == old(output.closed)
      ensures output.error == old(output.error)
      ensures Cover(buf) == Held(r, f, d)
      ensures output.written == r.stream.written + Drained(r, f, d)
    {
      output.ValidState();
      var unassembled := output.BytesPushed();
      var it := PlaceEntry(f, d);
      assert Cover(buf) == Placed(r, f, d);
      PlacedWithin(r, f, d);
      FrontStart(buf, r.pending, unassembled, f, d, it);
      ghost var placed := buf;
      DrainReady();
      DrainMatches(r, f, d, placed, buf, output.written);
    }

    /** Lines 57-66 of `insert`: cut the held substrings at both ends of
        `[f, f + |d|)`, erase those in between, and hold `d` at `f`; returns
        the position of the new entry. */
    method PlaceEntry(f: nat, d: Bytes) returns (it: nat)
      requires WellFormed(buf) && totalPending == PendingSize(buf) && d != []
      modifies this`buf, this`totalPending
      ensures WellFormed(buf) && totalPending == PendingSize(buf)
      ensures Cover(buf) == old(Cover(buf)) + Cells(Pending(f, d))
      ensures it < |buf| && buf[it] == Pending(f, d)
    {
      ghost var c := Pending(f, d);
      it := 0;
      if buf != [] {
        it := Split(f);
        var pr := Split(f + |d|);
        Place(buf, f, d);
        ghost var split := buf;
        EraseRange(it, pr);
        EmplaceAt(split, it, pr, c);
      } else {
        assert [] + [c] + [] == [c];
        CoverSingle(c);
        MapEmptyLeft(Cells(c));
      }
      PendingSizeInsert(buf, it, c);
      buf := buf[..it] + [Pending(f, d)] + buf[it..];
      totalPending := totalPending + |d|;
    }

    /** The erase loop of `insert` (lines 60-63): drop the held substrings
        from position `it` up to, not including, position `pr`. */
    method EraseRange(it: nat, pr: nat)
      requires it <= pr <= |buf| && totalPending == PendingSize(buf)
      modifies this`buf, this`totalPending
      ensures buf == old(buf)[..it] + old(buf)[pr..] && totalPending == PendingSize(buf)
    {
      ghost var whole := buf;
      var end := pr;
      while it != end
        invariant it <= end <= pr
        invariant buf == whole[..it] + whole[it + (pr - end)..]
        invariant totalPending == PendingSize(buf)
        decreases end - it
      {
        PendingSizeRemove(buf, it);
        totalPending := totalPending - |buf[it].data|;
        DropAt(whole, it, it + (pr - end));
        buf := buf[..it] + buf[it + 1..];
        end := end - 1;
      }
    }

    /** One round of the drain loop (lines 69-71 of `insert`): push the
        front substring to the stream and erase it. */
    method DeliverFront()
      requires output.Valid() && WellFormed(buf) && totalPending == PendingSize(buf)
      requires buf != [] && buf[0].start == output.totalPushed
      requires forall i | i in Cover(buf) :: output.totalPushed <= i < output.totalPopped + output.capacity
      modifies this`buf, this`totalPending, output
      ensures output.Valid() && WellFormed(buf) && totalPending == PendingSize(buf)
      ensures buf == old(buf)[1..]
      ensures output.totalPopped == old(output.totalPopped) && output.closed == old(output.closed)
      ensures output.error == old(output.error)
      ensures !output.closed ==> output.written == old(output.written) + old(buf)[0].data
      ensures !output.closed ==> output.totalPushed == End(old(buf)[0])
      ensures output.closed ==> output.written == old(output.written) && output.totalPushed == old(output.totalPushed)
      ensures forall i | i in Cover(buf) :: output.totalPushed <= i < output.totalPopped + output.capacity
    {
      ghost var front := buf[0].data;
      DropFront(buf, output.totalPushed, output.totalPopped + output.capacity);
      assert |front| <= output.AvailableCapacity();
      assert front[..|front|] == front;
      totalPending := totalPending - |buf[0].data|;
      output.Push(buf[0].data);
      buf := buf[1..];
    }

    /** Lines 68-72 of `insert`: while the first held substring starts at
        `bytes_pushed`, push it to the stream and erase it. A closed stream
        refuses the push, so then at most one substring is dropped. */
    method DrainReady()
      requires output.Valid() && WellFormed(buf) && totalPending == PendingSize(buf)
      requires forall i | i in Cover(buf) :: output.totalPushed <= i < output.totalPopped + output.capacity
      modifies this`buf, this`totalPending, output
      ensures output.Valid() && WellFormed(buf) && totalPending == PendingSize(buf)
      ensures output.totalPopped == old(output.totalPopped) && output.closed == old(output.closed)
      ensures output.error == old(output.error)
      ensures forall i | i in Cover(buf) :: output.totalPushed < i < output.totalPopped + output.capacity
      ensures !output.closed ==>
                && output.written == old(output.written) + Flushed(old(buf), old(output.totalPushed))
                && buf == Rest(old(buf), old(output.totalPushed))
      ensures output.closed ==> output.written == old(output.written)
      ensures output.closed ==>
                buf == if old(buf) != [] && old(buf)[0].start == old(output.totalPushed) then old(buf)[1..] else old(buf)
    {
      ghost var W0 := output.written;
      ghost var U0 := output.totalPushed;
      ghost var first := buf;
      while buf != [] && buf[0].start == output.BytesPushed()
        invariant output.Valid() && WellFormed(buf) && totalPending == PendingSize(buf)
        invariant output.totalPopped == old(output.totalPopped) && output.closed == old(output.closed)
        invariant output.error == old(output.error)
        invariant forall i | i in Cover(buf) :: output.totalPushed <= i < output.totalPopped + output.capacity
        invariant !output.closed ==>
                    && output.written + Flushed(buf, output.totalPushed) == W0 + Flushed(first, U0)
                    && Rest(buf, output.totalPushed) == Rest(first, U0)
        invariant output.closed ==> output.written == W0 && output.totalPushed == U0
        invariant output.closed ==> buf == first || (first != [] && first[0].start == U0 && buf == first[1..])
        decreases |buf|
      {
        ghost var front := buf[0];
        ghost var rest := Flushed(buf[1..], End(front));
        ghost var before := output.written;
        DeliverFront();
        if !output.closed {
          AppendAssoc(before, front.data, rest);
        }
      }
      if buf != [] {
        EntryBounds(buf, 0);
        CoverDropFront(buf);
      }
    }
  }
}
