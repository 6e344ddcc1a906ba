/** An IP router: a set of network interfaces and a forwarding table. Every
    datagram an interface has received is forwarded on the interface named
    by the longest-prefix route matching its destination (section 5.2.4.3 of
    RFC 1812), after its time to live is checked and decremented (section
    5.3.1 of RFC 1812).

    The table is partitioned by prefix length: slot `L` (0 to 32) maps a key
    derived from a route's prefix to the route. A 32-bit address is an
    integer below 2^32; shifting right by `k` is division by 2^k. */
module Routing {
  import opened Common
  import opened NetworkFrames
  import opened NetworkInterfaces

  /** A route: the interface to send on, and the next hop's address, absent
      for a directly attached network. */
  datatype Info = Info(interfaceNum: nat, nextHop: Option<u32>)

  /** One slot per prefix length 0 through 32. */
  const TABLE_SLOTS: nat := 33

  type Table = seq<map<u32, Info>>

  /** 2^32 is the size of the address space. */
  lemma Pow2Word()
    ensures Pow2(32) == U32_LIMIT
  {
    assert Pow2(2) == 4;
    Pow2Add(2, 2);
    Pow2Add(4, 4);
    Pow2Add(8, 8);
    Pow2Add(16, 16);
  }

  lemma MulMono(a: int, b: int, c: nat)
    requires a <= b
    ensures a * c <= b * c
  {
  }

  /** Below `d * m`, the quotient by `d` is below `m`. */
  lemma DivBound(x: nat, d: nat, m: nat)
    requires d >= 1 && x < d * m
    ensures x / d < m
  {
    var q := x / d;
    assert x == q * d + x % d;
    assert (m - q) * d == d * m - q * d;
    MulPositive(m - q, d);
  }

  /** A product with a positive factor is positive only if the other factor is. */
  lemma MulPositive(a: int, d: int)
    requires d > 0 && a * d > 0
    ensures a > 0
  {
  }

  /** Splitting `x < p * q` at `p` and swapping the halves gives a value
      below `p * q` whose quotient and remainder by `q` are those halves. */
  lemma SwapHalves(x: nat, p: nat, q: nat)
    requires p >= 1 && q >= 1 && x < p * q
    ensures var r := x / p + (x % p) * q;
            && 0 <= r < p * q && r / q == x % p && r % q == x / p
  {
    var a, b := x / p, x % p;
    DivBound(x, p, q);
    DivUnique(a + b * q, q, b, a);
    MulMono(b, p - 1, q);
    assert (p - 1) * q == p * q - q;
  }

  lemma RotrParts(x: u32, s: nat)
    requires s <= 32
    ensures var p, q := Pow2(s), Pow2(32 - s);
            var r := x / p + (x % p) * q;
            && 0 <= r < U32_LIMIT && r / q == x % p && r % q == x / p
  {
    Pow2Add(s, 32 - s);
    Pow2Word();
    SwapHalves(x, Pow2(s), Pow2(32 - s));
  }

  /** `std::rotr(x, s)` on 32 bits: the low `s` bits of `x` become the high
      `s` bits of the result, and the high `32 - s` bits of `x` its low bits.
      A rotation by 32 leaves `x` unchanged. */
  function Rotr(x: u32, s: nat): (r: u32)
    requires s <= 32
    ensures r / Pow2(32 - s) == x % Pow2(s)
    ensures r % Pow2(32 - s) == x / Pow2(s)
  {
    RotrParts(x, s);
    x / Pow2(s) + (x % Pow2(s)) * Pow2(32 - s)
  }

  /** The key a route for `prefix`/`len` is stored under. */
  function Key(prefix: u32, len: nat): u32
    requires len <= 32
  {
    Rotr(prefix, 32 - len)
  }

  /** The high `len` bits of `dst`, that is `dst` shifted right by
      `32 - len` one bit at a time: the key a route of length `len` must
      have to match `dst`. */
  function Probe(dst: u32, len: nat): (k: u32)
    requires len <= 32
    ensures k <= dst
    decreases 32 - len
  {
    if len == 32 then dst else Probe(dst, len + 1) / 2
  }

  /** Shifting one bit at a time is shifting all at once. */
  lemma {:induction false} ProbeIsShift(dst: u32, len: nat)
    requires len <= 32
    ensures Probe(dst, len) == dst / Pow2(32 - len)
    decreases 32 - len
  {
    if len < 32 {
      ProbeIsShift(dst, len + 1);
      DivPow2Step(dst, 32 - (len + 1));
      assert Probe(dst, len) == dst / Pow2(32 - (len + 1)) / 2;
    }
  }

  lemma ProbeRange(dst: u32, len: nat)
    requires len <= 32
    ensures dst / Pow2(32 - len) < Pow2(len)
  {
    var p, q := Pow2(32 - len), Pow2(len);
    Pow2Add(32 - len, len);
    Pow2Word();
    assert p * q == U32_LIMIT;
    DivBound(dst, p, q);
  }

  /** The high `len` bits of the two addresses are equal. */
  ghost predicate SameHighBits(a: u32, b: u32, len: nat)
    requires len <= 32
  {
    a / Pow2(32 - len) == b / Pow2(32 - len)
  }

  /** A prefix whose bits below its length are all zero. */
  ghost predicate CleanPrefix(prefix: u32, len: nat)
    requires len <= 32
  {
    prefix % Pow2(32 - len) == 0
  }

  /** A route stored under `Key(prefix, len)` is found by the probe for
      `dst` exactly when the prefix is clean and its high `len` bits are
      those of `dst`: a prefix with stray low bits matches nothing. */
  lemma KeyMatches(prefix: u32, len: nat, dst: u32)
    requires len <= 32
    ensures Key(prefix, len) == Probe(dst, len) <==> CleanPrefix(prefix, len) && SameHighBits(prefix, dst, len)
  {
    var p, q := Pow2(32 - len), Pow2(len);
    var k := Key(prefix, len);
    ProbeIsShift(dst, len);
    ProbeRange(dst, len);
    SplitEquals(k, q, prefix % p, prefix / p, Probe(dst, len));
  }

  /** A value below `q` equals `k` exactly when `k`'s quotient by `q` is
      zero and its remainder is that value. */
  lemma SplitEquals(k: nat, q: nat, hi: int, lo: int, v: nat)
    requires q >= 1 && v < q && k / q == hi && k % q == lo
    ensures k == v <==> hi == 0 && lo == v
  {
    if k == v {
      DivUnique(k, q, 0, k);
    } else if hi == 0 {
      assert k == (k / q) * q + k % q;
    }
  }

  /** Slot `len` holds a route matching `dst`. */
  ghost predicate Hit(table: Table, dst: u32, len: nat)
    requires len < |table| <= TABLE_SLOTS
  {
    Probe(dst, len) in table[len]
  }

  /** `len` is the longest length below `n` whose slot matches `dst`. */
  ghost predicate LongestHit(table: Table, dst: u32, len: nat, n: nat)
    requires len < n <= |table| <= TABLE_SLOTS
  {
    Hit(table, dst, len) && forall l | len < l < n :: !Hit(table, dst, l)
  }

  /** The longest-prefix match among the slots below `n`, scanning from
      the longest length down. */
  function LookupFrom(table: Table, dst: u32, n: nat): Option<Info>
    requires n <= |table| <= TABLE_SLOTS
  {
    if n == 0 then None
    else if Probe(dst, n - 1) in table[n - 1] then Some(table[n - 1][Probe(dst, n - 1)])
    else LookupFrom(table, dst, n - 1)
  }

  /** The route `match` should return for `dst`: the one of longest prefix
      length whose high bits agree with it. */
  function Lookup(table: Table, dst: u32): Option<Info>
    requires |table| == TABLE_SLOTS
  {
    LookupFrom(table, dst, TABLE_SLOTS)
  }

  /** The scan finds nothing exactly when no slot matches, and otherwise
      the route of the longest matching length. */
  lemma {:induction false} LookupFromLongest(table: Table, dst: u32, n: nat)
    requires n <= |table| <= TABLE_SLOTS
    ensures var r := LookupFrom(table, dst, n);
            && (r.None? <==> forall l | 0 <= l < n :: !Hit(table, dst, l))
            && (r.Some? ==> exists l | 0 <= l < n :: LongestHit(table, dst, l, n) && r.value == table[l][Probe(dst, l)])
  {
    if n > 0 && !Hit(table, dst, n - 1) {
      LookupFromLongest(table, dst, n - 1);
      var r := LookupFrom(table, dst, n);
      if r.Some? {
        var l :| 0 <= l < n - 1 && LongestHit(table, dst, l, n - 1) && r.value == table[l][Probe(dst, l)];
        assert forall l' | l < l' < n :: !Hit(table, dst, l') by {
          assert forall l' | l < l' < n - 1 :: !Hit(table, dst, l');
        }
        assert LongestHit(table, dst, l, n);
      }
    } else if n > 0 {
      assert LongestHit(table, dst, n - 1, n);
    }
  }

  /** `Lookup` is longest-prefix match over the whole table. */
  lemma LookupIsLongest(table: Table, dst: u32)
    requires |table| == TABLE_SLOTS
    ensures var r := Lookup(table, dst);
            && (r.None? <==> forall l | 0 <= l < TABLE_SLOTS :: !Hit(table, dst, l))
            && (r.Some? ==> exists l | 0 <= l < TABLE_SLOTS ::
                              LongestHit(table, dst, l, TABLE_SLOTS) && r.value == table[l][Probe(dst, l)])
  {
    LookupFromLongest(table, dst, TABLE_SLOTS);
  }

  /** Every route in the table names one of `n` interfaces. */
  ghost predicate Targets(table: Table, n: nat)
  {
    forall l, k | 0 <= l < |table| && k in table[l] :: table[l][k].interfaceNum < n
  }

  lemma {:induction false} LookupFromTargets(table: Table, dst: u32, m: nat, n: nat)
    requires m <= |table| <= TABLE_SLOTS && Targets(table, n)
    ensures LookupFrom(table, dst, m).Some? ==> LookupFrom(table, dst, m).value.interfaceNum < n
  {
    if m > 0 {
      LookupFromTargets(table, dst, m - 1, n);
    }
  }

  /** The table after `add_route(prefix, len, nextHop, interfaceNum)`. */
  function WithRoute(table: Table, prefix: u32, len: nat, info: Info): Table
    requires len < |table| && len <= 32
  {
    var slot: map<u32, Info> := table[len][Key(prefix, len) := info];
    table[len := slot]
  }

  /** With no match above `len`, the scan from `n` ends up at `len`. */
  lemma {:induction false} LookupSkips(table: Table, dst: u32, len: nat, n: nat)
    requires len < n <= |table| <= TABLE_SLOTS
    requires forall l | len < l < n :: !Hit(table, dst, l)
    ensures LookupFrom(table, dst, n) == LookupFrom(table, dst, len + 1)
  {
    if n > len + 1 {
      assert !Hit(table, dst, n - 1);
      assert LookupFrom(table, dst, n) == LookupFrom(table, dst, n - 1);
      LookupSkips(table, dst, len, n - 1);
    }
  }

  /** A clean route just added is found for every destination it covers
      unless a longer route also matches; re-adding a route replaces the
      old one. */
  lemma AddedRouteFound(table: Table, prefix: u32, len: nat, info: Info, dst: u32)
    requires |table| == TABLE_SLOTS && len <= 32
    requires CleanPrefix(prefix, len) && SameHighBits(prefix, dst, len)
    requires forall l | len < l < TABLE_SLOTS :: !Hit(table, dst, l)
    ensures Lookup(WithRoute(table, prefix, len, info), dst) == Some(info)
  {
    var t := WithRoute(table, prefix, len, info);
    KeyMatches(prefix, len, dst);
    forall l | len < l < TABLE_SLOTS
      ensures !Hit(t, dst, l)
    {
      assert !Hit(table, dst, l);
      assert t[l] == table[l];
    }
    LookupSkips(t, dst, len, TABLE_SLOTS);
  }

  /** A route whose prefix has stray bits below its length is found for no
      destination: adding it changes no lookup. */
  lemma DirtyRouteInert(table: Table, prefix: u32, len: nat, info: Info, dst: u32)
    requires |table| == TABLE_SLOTS && len <= 32 && !CleanPrefix(prefix, len)
    ensures Lookup(WithRoute(table, prefix, len, info), dst) == Lookup(table, dst)
  {
    var t := WithRoute(table, prefix, len, info);
    KeyMatches(prefix, len, dst);
    forall l | 0 <= l < TABLE_SLOTS
      ensures SameAt(table, t, dst, l)
    {
      if l != len {
        assert t[l] == table[l];
      } else {
        assert t[l] == table[l][Key(prefix, len) := info];
      }
    }
    LookupFromUnchanged(table, t, dst, TABLE_SLOTS);
  }

  /** Slot `l` of the two tables holds the same route for `dst`, or none
      in both. */
  ghost predicate SameAt(a: Table, b: Table, dst: u32, l: nat)
    requires l < |a| == |b| <= TABLE_SLOTS
  {
    var k := Probe(dst, l);
    && (k in a[l] <==> k in b[l])
    && (k in a[l] ==> a[l][k] == b[l][k])
  }

  /** Two tables that agree for `dst` on every slot give the same scan. */
  lemma {:induction false} LookupFromUnchanged(a: Table, b: Table, dst: u32, n: nat)
    requires n <= |a| == |b| <= TABLE_SLOTS
    requires forall l | 0 <= l < n :: SameAt(a, b, dst, l)
    ensures LookupFrom(a, dst, n) == LookupFrom(b, dst, n)
  {
    if n > 0 {
      assert SameAt(a, b, dst, n - 1);
      LookupFromUnchanged(a, b, dst, n - 1);
    }
  }

  /** `send_datagram(dgram, nextHop)` called on interface `interfaceNum`. */
  datatype Forwarding = Forwarding(interfaceNum: nat, dgram: InternetDatagram, nextHop: u32)

  /** What `route` does with one received datagram: one whose time to live
      is 1 or less is dropped; otherwise the time to live drops by one and
      the datagram goes out on the matching route's interface, to the
      route's next hop or, for a direct route, to its own destination. A
      datagram no route matches is dropped. */
  function Forward(table: Table, d: InternetDatagram): Option<Forwarding>
    requires |table| == TABLE_SLOTS
  {
    if d.header.ttl <= 1 then None
    else
      var d' := d.(header := d.header.(ttl := d.header.ttl - 1));
      match Lookup(table, d.header.dst)
      case None => None
      case Some(info) =>
        Some(Forwarding(info.interfaceNum, d', if info.nextHop.Some? then info.nextHop.value else d.header.dst))
  }

  /** A datagram is forwarded exactly when its time to live exceeds 1 and a
      route matches; it then leaves with the time to live one lower and
      nothing else changed, on the interface of the longest matching route,
      towards that route's next hop or, when there is none, its own
      destination. */
  lemma ForwardProps(table: Table, d: InternetDatagram)
    requires |table| == TABLE_SLOTS
    ensures var f, m := Forward(table, d), Lookup(table, d.header.dst);
            && (f.Some? <==> d.header.ttl > 1 && m.Some?)
            && (f.Some? ==>
                  && f.value.dgram.header.ttl == d.header.ttl - 1
                  && f.value.dgram.header.src == d.header.src && f.value.dgram.header.dst == d.header.dst
                  && f.value.dgram.payload == d.payload
                  && f.value.interfaceNum == m.value.interfaceNum
                  && (m.value.nextHop.Some? ==> f.value.nextHop == m.value.nextHop.value)
                  && (m.value.nextHop.None? ==> f.value.nextHop == d.header.dst))
  {
  }

  /** The forwardings of one interface's queue, in queue order. */
  function ForwardAll(table: Table, q: seq<InternetDatagram>): seq<Forwarding>
    requires |table| == TABLE_SLOTS
  {
    if q == [] then []
    else
      var f := Forward(table, q[|q| - 1]);
      ForwardAll(table, q[..|q| - 1]) + (if f.Some? then [f.value] else [])
  }

  /** Queues are served first in, first out: forwarding a queue forwards
      its two halves one after the other, each datagram on its own and at
      most once. */
  lemma {:induction false} ForwardAllConcat(table: Table, a: seq<InternetDatagram>, b: seq<InternetDatagram>)
    requires |table| == TABLE_SLOTS
    ensures ForwardAll(table, a + b) == ForwardAll(table, a) + ForwardAll(table, b)
    decreases |b|
  {
    if b == [] {
      assert a + b == a;
    } else {
      var last := b[|b| - 1];
      assert (a + b)[..|a + b| - 1] == a + b[..|b| - 1];
      ForwardAllConcat(table, a, b[..|b| - 1]);
      var f := Forward(table, last);
      AppendAssoc(ForwardAll(table, a), ForwardAll(table, b[..|b| - 1]), if f.Some? then [f.value] else []);
    }
  }

  /** A single datagram yields at most one forwarding, so a queue yields
      no more forwardings than it has datagrams. */
  lemma {:induction false} ForwardAllAtMostOnce(table: Table, q: seq<InternetDatagram>)
    requires |table| == TABLE_SLOTS
    ensures |ForwardAll(table, q)| <= |q|
    ensures |q| == 1 ==> ForwardAll(table, q) == (if Forward(table, q[0]).Some? then [Forward(table, q[0]).value] else [])
  {
    if q != [] {
      ForwardAllAtMostOnce(table, q[..|q| - 1]);
    }
  }

  /** The forwardings of every interface's queue: interface by interface,
      each queue in order. */
  function RouteAll(table: Table, qs: seq<seq<InternetDatagram>>): seq<Forwarding>
    requires |table| == TABLE_SLOTS
  {
    if qs == [] then [] else RouteAll(table, qs[..|qs| - 1]) + ForwardAll(table, qs[|qs| - 1])
  }

  /** Every forwarding goes out on one of `n` interfaces. */
  ghost predicate Within(sends: seq<Forwarding>, n: nat)
  {
    forall k | 0 <= k < |sends| :: sends[k].interfaceNum < n
  }

  /** With every route naming one of `n` interfaces, so does every
      forwarding of a queue. */
  lemma {:induction false} ForwardAllWithin(table: Table, q: seq<InternetDatagram>, n: nat)
    requires |table| == TABLE_SLOTS && Targets(table, n)
    ensures Within(ForwardAll(table, q), n)
  {
    if q != [] {
      ForwardAllWithin(table, q[..|q| - 1], n);
      LookupFromTargets(table, q[|q| - 1].header.dst, TABLE_SLOTS, n);
    }
  }

  /** An interface as the router sees it: its addresses, its state and the
      frames it has sent so far. */
  datatype Port = Port(me: Identity, state: InterfaceState, sent: seq<EthernetFrame>)

  /** The ports after one `send_datagram` call. */
  function SendOne(ps: seq<Port>, f: Forwarding): (r: seq<Port>)
    requires f.interfaceNum < |ps|
    ensures |r| == |ps|
  {
    var p := ps[f.interfaceNum];
    var step := OnSend(p.state, p.me, f.dgram, f.nextHop);
    ps[f.interfaceNum := p.(state := step.state, sent := p.sent + step.out)]
  }

  /** The ports after the `send_datagram` calls of `sends`, in order. */
  function Deliver(ps: seq<Port>, sends: seq<Forwarding>): (r: seq<Port>)
    requires Within(sends, |ps|)
    ensures |r| == |ps|
  {
    if sends == [] then ps else SendOne(Deliver(ps, sends[..|sends| - 1]), sends[|sends| - 1])
  }

  /** Port `i` with its received queue replaced by `q`. */
  function SetReceived(ps: seq<Port>, i: nat, q: seq<InternetDatagram>): seq<Port>
    requires i < |ps|
  {
    ps[i := ps[i].(state := ps[i].state.(received := q))]
  }

  /** The ports with the received queues of the first `i` emptied. */
  function DrainedBelow(ps: seq<Port>, i: nat): seq<Port>
  {
    seq(|ps|, k requires 0 <= k < |ps| =>
      if k < i then ps[k].(state := ps[k].state.(received := [])) else ps[k])
  }

  /** The received queue of every port. */
  function Queues(ps: seq<Port>): seq<seq<InternetDatagram>>
  {
    seq(|ps|, k requires 0 <= k < |ps| => ps[k].state.received)
  }

  /** `send_datagram` neither reads nor changes the received queues. */
  lemma SendOneSetReceived(ps: seq<Port>, f: Forwarding, i: nat, q: seq<InternetDatagram>)
    requires f.interfaceNum < |ps| && i < |ps|
    ensures SendOne(SetReceived(ps, i, q), f) == SetReceived(SendOne(ps, f), i, q)
  {
  }

  /** Sending in two batches is sending the batches one after the other. */
  lemma {:induction false} DeliverConcat(ps: seq<Port>, a: seq<Forwarding>, b: seq<Forwarding>)
    requires Within(a, |ps|) && Within(b, |ps|)
    ensures Within(a + b, |ps|)
    ensures Deliver(Deliver(ps, a), b) == Deliver(ps, a + b)
    decreases |b|
  {
    if b == [] {
      assert a + b == a;
    } else {
      assert (a + b)[..|a + b| - 1] == a + b[..|b| - 1];
      DeliverConcat(ps, a, b[..|b| - 1]);
    }
  }

  /** Draining a received queue commutes with sending: the sends never
      touch it, and it never changes what they do. */
  lemma {:induction false} DeliverSetReceived(ps: seq<Port>, sends: seq<Forwarding>, i: nat, q: seq<InternetDatagram>)
    requires Within(sends, |ps|) && i < |ps|
    ensures Deliver(SetReceived(ps, i, q), sends) == SetReceived(Deliver(ps, sends), i, q)
  {
    if sends != [] {
      DeliverSetReceived(ps, sends[..|sends| - 1], i, q);
      SendOneSetReceived(Deliver(ps, sends[..|sends| - 1]), sends[|sends| - 1], i, q);
    }
  }

  /** Sending keeps every port's addresses and received queue. */
  lemma {:induction false} DeliverKeepsReceived(ps: seq<Port>, sends: seq<Forwarding>, k: nat)
    requires Within(sends, |ps|) && k < |ps|
    ensures Deliver(ps, sends)[k].state.received == ps[k].state.received
    ensures Deliver(ps, sends)[k].me == ps[k].me
  {
    if sends != [] {
      DeliverKeepsReceived(ps, sends[..|sends| - 1], k);
    }
  }

  /** The table with no routes. */
  function EmptyTable(): (t: Table)
    ensures |t| == TABLE_SLOTS && forall l | 0 <= l < TABLE_SLOTS :: t[l] == map[]
  {
    seq(TABLE_SLOTS, l => map[])
  }

  /** `match` as written: walking the table from its last slot down, the
      address is shifted right by one BEFORE each probe, so slot `n - 1`
      is probed with `addr / 2`. */
  function MatchAsWritten(table: Table, dst: u32): Option<Info>
  {
    ShiftThenProbe(table, dst, |table|)
  }

  function ShiftThenProbe(table: Table, addr: u32, n: nat): Option<Info>
    requires n <= |table|
  {
    if n == 0 then None
    else if addr / 2 in table[n - 1] then Some(table[n - 1][addr / 2])
    else ShiftThenProbe(table, addr / 2, n - 1)
  }

  /** Probing slot `n - 1` with the address halved from the key for
      length `n` probes it with the key for length `n - 1`: over slots that
      stop below length 32 the shift-first walk is longest-prefix match. */
  lemma {:induction false} ShiftThenProbeIsLookup(table: Table, dst: u32, n: nat)
    requires n <= 32 && n <= |table| <= TABLE_SLOTS
    ensures ShiftThenProbe(table, Probe(dst, n), n) == LookupFrom(table, dst, n)
  {
    if n > 0 {
      assert Probe(dst, n) / 2 == Probe(dst, n - 1);
      ShiftThenProbeIsLookup(table, dst, n - 1);
    }
  }

  /** With 32 slots, for lengths 0 to 31, `match` as written finds the
      longest matching route. */
  lemma AsWrittenWith32Slots(table: Table, dst: u32)
    requires |table| == 32
    ensures MatchAsWritten(table, dst) == LookupFrom(table, dst, 32)
  {
    ShiftThenProbeIsLookup(table, dst, 32);
  }

  lemma {:induction false} ShiftThenProbeEmpty(table: Table, addr: u32, n: nat)
    requires n <= |table| && forall l | 0 <= l < n :: table[l] == map[]
    ensures ShiftThenProbe(table, addr, n) == None
  {
    if n > 0 {
      ShiftThenProbeEmpty(table, addr / 2, n - 1);
    }
  }

  /** With a slot for every length 0 to 32, `match` as written misses a
      host route: a /32 route for any address but 0.0.0.0, alone in the
      table, is not found for that very address, which longest-prefix
      match finds. */
  lemma HostRouteMissed(h: u32, info: Info)
    requires h != 0
    ensures var t := WithRoute(EmptyTable(), h, 32, info);
            MatchAsWritten(t, h) == None && Lookup(t, h) == Some(info)
  {
    var t := WithRoute(EmptyTable(), h, 32, info);
    KeyMatches(h, 32, h);
    assert t[32] == map[h := info];
    ShiftThenProbeEmpty(t, h / 2, 32);
    AddedRouteFound(EmptyTable(), h, 32, info, h);
  }

  /** Every port keeps the interface invariant. */
  ghost predicate PortsInv(ps: seq<Port>)
  {
    forall k | 0 <= k < |ps| :: ps[k].state.Inv()
  }

  /** Sending and draining keep the interface invariant. */
  lemma PortsInvKept(ps: seq<Port>, f: Forwarding, i: nat, q: seq<InternetDatagram>)
    requires PortsInv(ps) && f.interfaceNum < |ps| && i < |ps|
    ensures PortsInv(SendOne(ps, f)) && PortsInv(SetReceived(ps, i, q))
  {
    var p := ps[f.interfaceNum];
    SendProps(p.state, p.me, f.dgram, f.nextHop);
  }

  /** One more forwarding from the queue of port `i`, whose remaining
      queue is `q`. */
  lemma DeliverOneMore(p: seq<Port>, fw: seq<Forwarding>, f: Forwarding, i: nat, q: seq<InternetDatagram>)
    requires Within(fw, |p|) && f.interfaceNum < |p| && i < |p|
    ensures Within(fw + [f], |p|)
    ensures SendOne(SetReceived(Deliver(p, fw), i, q), f) == SetReceived(Deliver(p, fw + [f]), i, q)
  {
    SendOneSetReceived(Deliver(p, fw), f, i, q);
    assert (fw + [f])[..|fw|] == fw;
  }

  lemma SetReceivedTwice(ps: seq<Port>, i: nat, a: seq<InternetDatagram>, b: seq<InternetDatagram>)
    requires i < |ps|
    ensures SetReceived(SetReceived(ps, i, a), i, b) == SetReceived(ps, i, b)
  {
  }

  /** One more datagram of queue `q` taken: the forwardings so far grow by
      its own forwarding, if any. */
  lemma ForwardAllStep(table: Table, q: seq<InternetDatagram>, j: nat, fw0: seq<Forwarding>, fw: seq<Forwarding>, f: Option<Forwarding>)
    requires |table| == TABLE_SLOTS && 0 < j <= |q|
    requires fw0 == ForwardAll(table, q[..j - 1]) && f == Forward(table, q[j - 1])
    requires fw == fw0 + (if f.Some? then [f.value] else [])
    ensures fw == ForwardAll(table, q[..j])
  {
    assert q[..j][..j - 1] == q[..j - 1];
  }

  /** Port `i`'s turn in `route`: the ports so far, with its queue then
      forwarded and emptied, are the ports with one more queue drained
      after all the forwardings so far. */
  lemma RouteStep(table: Table, p0: seq<Port>, i: nat, sends: seq<Forwarding>, fw: seq<Forwarding>)
    requires |table| == TABLE_SLOTS && i < |p0| && Within(sends, |p0|) && Within(fw, |p0|)
    ensures Within(sends + fw, |p0|)
    ensures Deliver(DrainedBelow(p0, i), sends)[i].state.received == p0[i].state.received
    ensures SetReceived(Deliver(Deliver(DrainedBelow(p0, i), sends), fw), i, [])
            == Deliver(DrainedBelow(p0, i + 1), sends + fw)
    ensures RouteAll(table, Queues(p0)[..i + 1]) == RouteAll(table, Queues(p0)[..i]) + ForwardAll(table, p0[i].state.received)
  {
    DrainStep(p0, i, sends, fw);
    assert Queues(p0)[..i + 1][..i] == Queues(p0)[..i];
  }

  lemma DrainStep(p0: seq<Port>, i: nat, sends: seq<Forwarding>, fw: seq<Forwarding>)
    requires i < |p0| && Within(sends, |p0|) && Within(fw, |p0|)
    ensures Within(sends + fw, |p0|)
    ensures Deliver(DrainedBelow(p0, i), sends)[i].state.received == p0[i].state.received
    ensures SetReceived(Deliver(Deliver(DrainedBelow(p0, i), sends), fw), i, [])
            == Deliver(DrainedBelow(p0, i + 1), sends + fw)
  {
    var d := DrainedBelow(p0, i);
    DeliverKeepsReceived(d, sends, i);
    DeliverConcat(d, sends, fw);
    DeliverSetReceived(d, sends + fw, i, []);
    assert SetReceived(d, i, []) == DrainedBelow(p0, i + 1);
  }

  /** After `route`, every received queue is empty. */
  lemma {:induction false} RouteDrainsAll(p0: seq<Port>, sends: seq<Forwarding>)
    requires Within(sends, |p0|)
    ensures forall k | 0 <= k < |p0| :: Deliver(DrainedBelow(p0, |p0|), sends)[k].state.received == []
  {
    forall k | 0 <= k < |p0|
      ensures Deliver(DrainedBelow(p0, |p0|), sends)[k].state.received == []
    {
      DeliverKeepsReceived(DrainedBelow(p0, |p0|), sends, k);
    }
  }

  /** `Router`: its interfaces, fixed at construction, and its forwarding
      table. */
  class Router {
    const interfaces: seq<NetworkInterface>
    var table: Table

    ghost predicate Valid()
      reads this, interfaces
    {
      && |table| == TABLE_SLOTS
      && (forall a, b | 0 <= a < b < |interfaces| :: interfaces[a] != interfaces[b])
      && Targets(table, |interfaces|)
      && PortsInv(Ports())
    }

    /** The interfaces as values. */
    ghost function Ports(): (ps: seq<Port>)
      reads interfaces
      ensures |ps| == |interfaces|
    {
      seq(|interfaces|, k requires 0 <= k < |interfaces| reads interfaces =>
        Port(interfaces[k].me, interfaces[k].State(), interfaces[k].sent))
    }

    constructor (interfaces: seq<NetworkInterface>)
      requires forall a, b | 0 <= a < b < |interfaces| :: interfaces[a] != interfaces[b]
      requires forall k | 0 <= k < |interfaces| :: interfaces[k].Valid()
      ensures Valid() && this.interfaces == interfaces && table == EmptyTable()
    {
      this.interfaces := interfaces;
      table := EmptyTable();
    }

    /** `add_route`. */
    method AddRoute(prefix: u32, prefixLength: u8, nextHop: Option<u32>, interfaceNum: nat)
      requires Valid() && prefixLength <= 32 && interfaceNum < |interfaces|
      modifies this`table
      ensures Valid()
      ensures table == WithRoute(old(table), prefix, prefixLength, Info(interfaceNum, nextHop))
    {
      var slot: map<u32, Info> := table[prefixLength][Key(prefix, prefixLength) := Info(interfaceNum, nextHop)];
      table := table[prefixLength := slot];
    }

    /** `match`, probing each slot before shifting (see `MatchAsWritten`
        for the order in the source). */
    method Match(dst: u32) returns (r: Option<Info>)
      requires |table| == TABLE_SLOTS
      ensures r == Lookup(table, dst)
    {
      var addr: u32 := dst;
      var n := TABLE_SLOTS;
      while n > 0
        invariant 0 <= n <= TABLE_SLOTS
        invariant n > 0 ==> addr == Probe(dst, n - 1)
        invariant Lookup(table, dst) == LookupFrom(table, dst, n)
      {
        if addr in table[n - 1] {
          return Some(table[n - 1][addr]);
        }
        addr := addr / 2;
        n := n - 1;
      }
      return None;
    }

    /** `route`. */
    method Route() returns (sends: seq<Forwarding>)
      requires Valid()
      modifies interfaces
      ensures Valid()
      ensures sends == RouteAll(table, Queues(old(Ports())))
      ensures Within(sends, |interfaces|)
      ensures Ports() == Deliver(DrainedBelow(old(Ports()), |interfaces|), sends)
    {
      ghost var p0 := Ports();
      sends := [];
      for i := 0 to |interfaces|
        invariant Valid()
        invariant sends == RouteAll(table, Queues(p0)[..i])
        invariant Within(sends, |interfaces|)
        invariant Ports() == Deliver(DrainedBelow(p0, i), sends)
      {
        RouteStep(table, p0, i, sends, []);
        var fw := DrainInterface(i);
        RouteStep(table, p0, i, sends, fw);
        sends := sends + fw;
      }
      assert Queues(p0)[..|interfaces|] == Queues(p0);
    }

    /** Lines 36-54 of `route`: the datagrams received by interface `i`,
        forwarded one by one until its queue is empty. */
    method DrainInterface(i: nat) returns (fw: seq<Forwarding>)
      requires Valid() && i < |interfaces|
      modifies interfaces
      ensures Valid()
      ensures fw == ForwardAll(table, old(interfaces[i].received))
      ensures Within(fw, |interfaces|)
      ensures Ports() == SetReceived(Deliver(old(Ports()), fw), i, [])
    {
      ghost var p := Ports();
      ghost var q := interfaces[i].received;
      ghost var j := 0;
      fw := [];
      while interfaces[i].received != []
        invariant Valid()
        invariant 0 <= j <= |q| && interfaces[i].received == q[j..]
        invariant fw == ForwardAll(table, q[..j])
        invariant Within(fw, |interfaces|)
        invariant Ports() == SetReceived(Deliver(p, fw), i, q[j..])
        decreases |interfaces[i].received|
      {
        ghost var fw0 := fw;
        var dgram := PopReceived(i);
        j := j + 1;
        SetReceivedTwice(Deliver(p, fw), i, q[j - 1..], q[j..]);
        var f := ForwardOne(dgram);
        if f.Some? {
          DeliverOneMore(p, fw, f.value, i, q[j..]);
          fw := fw + [f.value];
        }
        ForwardAllStep(table, q, j, fw0, fw, f);
      }
      assert q[..j] == q;
    }

    /** Lines 41-53 of `route`: one datagram, dropped or sent on. */
    method ForwardOne(dgram: InternetDatagram) returns (f: Option<Forwarding>)
      requires Valid()
      modifies interfaces
      ensures Valid()
      ensures f == Forward(table, dgram)
      ensures f.Some? ==> f.value.interfaceNum < |interfaces| && Ports() == SendOne(old(Ports()), f.value)
      ensures f.None? ==> Ports() == old(Ports())
      ensures forall k | 0 <= k < |interfaces| :: interfaces[k].received == old(interfaces[k].received)
    {
      if dgram.header.ttl <= 1 {
        return None;
      }
      var d := dgram.(header := dgram.header.(ttl := dgram.header.ttl - 1));
      var mp := Match(d.header.dst);
      if mp.None? {
        return None;
      }
      var hop := if mp.value.nextHop.Some? then mp.value.nextHop.value else d.header.dst;
      LookupFromTargets(table, d.header.dst, TABLE_SLOTS, |interfaces|);
      f := Some(Forwarding(mp.value.interfaceNum, d, hop));
      SendOn(f.value);
    }

    /** Lines 38-39 of `route`: take the datagram at the front of
        interface `i`'s received queue. */
    method PopReceived(i: nat) returns (d: InternetDatagram)
      requires Valid() && i < |interfaces| && interfaces[i].received != []
      modifies interfaces[i]
      ensures Valid()
      ensures d == old(interfaces[i].received[0])
      ensures interfaces[i].received == old(interfaces[i].received[1..])
      ensures Ports() == SetReceived(old(Ports()), i, old(interfaces[i].received[1..]))
    {
      ghost var before := Ports();
      var source := interfaces[i];
      d := source.received[0];
      source.received := source.received[1..];
      forall k | 0 <= k < |interfaces|
        ensures Ports()[k] == SetReceived(before, i, old(source.received[1..]))[k]
      {
        if k != i {
          assert interfaces[k] != source;
        }
      }
      PortsInvKept(before, Forwarding(i, d, 0), i, old(source.received[1..]));
    }

    /** Line 52 of `route`: `send_datagram` on the chosen interface. */
    method SendOn(f: Forwarding)
      requires Valid() && f.interfaceNum < |interfaces|
      modifies interfaces[f.interfaceNum]
      ensures Valid()
      ensures Ports() == SendOne(old(Ports()), f)
      ensures forall k | 0 <= k < |interfaces| :: interfaces[k].received == old(interfaces[k].received)
    {
      ghost var before := Ports();
      var target := interfaces[f.interfaceNum];
      assert before[f.interfaceNum].state == target.State();
      target.SendDatagram(f.dgram, f.nextHop);
      forall k | 0 <= k < |interfaces|
        ensures Ports()[k] == SendOne(before, f)[k]
      {
        if k != f.interfaceNum {
          assert interfaces[k] != target;
        }
      }
      PortsInvKept(before, f, f.interfaceNum, []);
    }
  }
}
