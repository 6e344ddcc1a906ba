/** A network interface joining IP (the internet layer) to Ethernet (the
    link layer). Outgoing datagrams go to the Ethernet address of their next
    hop, learned through ARP (RFC 826): a datagram whose next hop is not yet
    known waits in a per-hop queue while a broadcast request is
    outstanding, and a request is not repeated while its timer runs. Learned
    mappings and request timers expire. */
module NetworkInterfaces {
  import opened Common
  import opened NetworkFrames

  /** The interface's own addresses. */
  datatype Identity = Identity(mac: EthernetAddress, ip: u32)

  /** An ARP cache entry: the learned Ethernet address and its timer (the
      milliseconds it has existed). */
  datatype CacheEntry = CacheEntry(mac: EthernetAddress, timer: nat)

  /** Everything the interface's operations change except the outgoing
      frames: the ARP cache, the datagrams waiting per next hop, the request
      timers per next hop and the datagrams received for the router. */
  datatype InterfaceState = InterfaceState(
    arpCache: map<u32, CacheEntry>,
    waiting: map<u32, seq<InternetDatagram>>,
    waitTimer: map<u32, nat>,
    received: seq<InternetDatagram>)
  {
    /** A request timer only runs for a hop with datagrams waiting, no hop
        is both known and waiting, and no queue is empty. */
    ghost predicate Inv()
    {
      && waitTimer.Keys <= waiting.Keys
      && arpCache.Keys !! waiting.Keys
      && (forall h | h in waiting :: waiting[h] != [])
    }
  }

  /** An operation's new state and the frames it transmits, in order. */
  datatype Step = Step(state: InterfaceState, out: seq<EthernetFrame>)

  /** `make_arp`: an ARP message from this interface. */
  function MakeArp(me: Identity, opcode: u16, targetEthernetAddress: EthernetAddress, targetIpAddress: u32): (arp: ARPMessage)
    ensures arp.senderEthernetAddress == me.mac && arp.senderIpAddress == me.ip
    ensures arp.opcode == opcode
    ensures arp.targetEthernetAddress == targetEthernetAddress && arp.targetIpAddress == targetIpAddress
  {
    ARPMessage(opcode, me.mac, me.ip, targetEthernetAddress, targetIpAddress)
  }

  /** The frame carrying datagram `d` to Ethernet address `dst`. */
  function DatagramFrame(me: Identity, dst: EthernetAddress, d: InternetDatagram): EthernetFrame
  {
    EthernetFrame(EthernetHeader(dst, me.mac, TYPE_IPv4), SerializeDatagram(d))
  }

  /** The broadcast ARP request for `hop`; its target Ethernet address is
      the all-zero one, being unknown. */
  function RequestFrame(me: Identity, hop: u32): EthernetFrame
  {
    EthernetFrame(EthernetHeader(ETHERNET_BROADCAST, me.mac, TYPE_ARP),
                  SerializeARP(MakeArp(me, OPCODE_REQUEST, [0, 0, 0, 0, 0, 0], hop)))
  }

  /** The ARP reply to a request from `mac`/`ip`, sent to that sender only. */
  function ReplyFrame(me: Identity, mac: EthernetAddress, ip: u32): EthernetFrame
  {
    EthernetFrame(EthernetHeader(mac, me.mac, TYPE_ARP), SerializeARP(MakeArp(me, OPCODE_REPLY, mac, ip)))
  }

  /** The frames carrying the datagrams of `q` to `dst`, in queue order. */
  function DatagramFrames(me: Identity, dst: EthernetAddress, q: seq<InternetDatagram>): seq<EthernetFrame>
  {
    if q == [] then [] else DatagramFrames(me, dst, q[..|q| - 1]) + [DatagramFrame(me, dst, q[|q| - 1])]
  }

  /** The queued datagrams leave in first-in first-out order, one frame
      each. */
  lemma {:induction false} DatagramFramesInOrder(me: Identity, dst: EthernetAddress, q: seq<InternetDatagram>)
    ensures |DatagramFrames(me, dst, q)| == |q|
    ensures forall i | 0 <= i < |q| :: DatagramFrames(me, dst, q)[i] == DatagramFrame(me, dst, q[i])
  {
    if q != [] {
      DatagramFramesInOrder(me, dst, q[..|q| - 1]);
    }
  }

  /** The datagrams waiting for `hop` (none when it has no queue). */
  function Queued(s: InterfaceState, hop: u32): seq<InternetDatagram>
  {
    if hop in s.waiting then s.waiting[hop] else []
  }

  /** `send_datagram` on the state: to a known next hop the datagram leaves
      at once; otherwise it joins the hop's queue, and an ARP request is
      broadcast unless one is already pending for that hop. */
  function OnSend(s: InterfaceState, me: Identity, dgram: InternetDatagram, hop: u32): Step
  {
    if hop in s.arpCache then
      Step(s, [DatagramFrame(me, s.arpCache[hop].mac, dgram)])
    else
      var s1 := s.(waiting := s.waiting[hop := Queued(s, hop) + [dgram]]);
      if hop in s.waitTimer then Step(s1, [])
      else Step(s1.(waitTimer := s.waitTimer[hop := 0]), [RequestFrame(me, hop)])
  }

  /** Whether a frame is addressed to this interface or broadcast. */
  function AddressedTo(me: Identity, frame: EthernetFrame): bool
  {
    frame.header.dst == me.mac || frame.header.dst == ETHERNET_BROADCAST
  }

  /** An ARP message's effect, once parsed: its sender's mapping is
      (re)learned with a fresh timer; a request for this interface's address
      is answered; the datagrams waiting for the sender leave, and its queue
      and request timer are dropped. */
  function OnARP(s: InterfaceState, me: Identity, msg: ARPMessage): Step
  {
    var ip, mac := msg.senderIpAddress, msg.senderEthernetAddress;
    var s1 := s.(arpCache := s.arpCache[ip := CacheEntry(mac, 0)]);
    var reply := if msg.opcode == OPCODE_REQUEST && msg.targetIpAddress == me.ip then [ReplyFrame(me, mac, ip)] else [];
    if ip in s.waiting then
      Step(s1.(waiting := s.waiting - {ip}, waitTimer := s.waitTimer - {ip}),
           reply + DatagramFrames(me, mac, s.waiting[ip]))
    else Step(s1, reply)
  }

  /** `recv_frame` on the state: frames for another interface are ignored;
      a datagram that parses is queued for the router; an ARP message that
      parses is handled by `OnARP`; anything else is dropped. */
  function OnFrame(s: InterfaceState, me: Identity, frame: EthernetFrame): Step
  {
    if !AddressedTo(me, frame) then Step(s, [])
    else if frame.header.etherType == TYPE_IPv4 then
      match ParseDatagram(frame.payload)
      case Some(d) => Step(s.(received := s.received + [d]), [])
      case None => Step(s, [])
    else if frame.header.etherType == TYPE_ARP then
      match ParseARP(frame.payload)
      case Some(msg) => OnARP(s, me, msg)
      case None => Step(s, [])
    else Step(s, [])
  }

  /** `tick` on the state: every cache entry and request timer ages by `ms`,
      and those that have then expired are dropped; queued datagrams stay. */
  function OnTick(s: InterfaceState, ms: nat, entryTTL: nat, responseTTL: nat, expired: (nat, nat) -> bool): InterfaceState
  {
    s.(arpCache := map ip | ip in s.arpCache && !expired(s.arpCache[ip].timer + ms, entryTTL)
                    :: s.arpCache[ip].(timer := s.arpCache[ip].timer + ms),
       waitTimer := map ip | ip in s.waitTimer && !expired(s.waitTimer[ip] + ms, responseTTL)
                    :: s.waitTimer[ip] + ms)
  }

  /** `send_datagram` keeps the invariant. A known next hop gets exactly one
      frame, addressed to its cached Ethernet address, and nothing is
      queued; otherwise the datagram is appended to the hop's queue, which
      is otherwise unchanged, and exactly one broadcast ARP request for the
      hop goes out, only if no request was pending for it. */
  lemma SendProps(s: InterfaceState, me: Identity, dgram: InternetDatagram, hop: u32)
    requires s.Inv()
    ensures var r := OnSend(s, me, dgram, hop);
            && r.state.Inv()
            && r.state.arpCache == s.arpCache && r.state.received == s.received
            && (hop in s.arpCache ==>
                  r.state == s && |r.out| == 1
                  && r.out[0].header.dst == s.arpCache[hop].mac && ParseDatagram(r.out[0].payload) == Some(dgram))
            && (hop !in s.arpCache ==>
                  && Queued(r.state, hop) == Queued(s, hop) + [dgram]
                  && (forall h | h != hop :: Queued(r.state, h) == Queued(s, h))
                  && hop in r.state.waitTimer
                  && (|r.out| == 1 <==> hop !in s.waitTimer) && |r.out| <= 1
                  && (r.out != [] ==> r.out[0].header.dst == ETHERNET_BROADCAST
                                      && ParseARP(r.out[0].payload).Some?
                                      && ParseARP(r.out[0].payload).value.opcode == OPCODE_REQUEST
                                      && ParseARP(r.out[0].payload).value.targetIpAddress == hop))
  {
  }

  /** A frame addressed elsewhere changes nothing and sends nothing. */
  lemma ForeignFrameIgnored(s: InterfaceState, me: Identity, frame: EthernetFrame)
    requires !AddressedTo(me, frame)
    ensures OnFrame(s, me, frame) == Step(s, [])
  {
  }

  /** `recv_frame` keeps the invariant and never touches the request timers
      of other hops; it queues a datagram for the router exactly when the
      frame is addressed here and carries a datagram that parses. */
  lemma FrameInv(s: InterfaceState, me: Identity, frame: EthernetFrame)
    requires s.Inv()
    ensures var r := OnFrame(s, me, frame);
            && r.state.Inv()
            && (r.state.received != s.received <==>
                  AddressedTo(me, frame) && frame.header.etherType == TYPE_IPv4 && ParseDatagram(frame.payload).Some?)
            && (r.state.received != s.received ==> r.state.received == s.received + [ParseDatagram(frame.payload).value])
  {
  }

  /** Any ARP message, request or reply, teaches the sender's mapping with a
      fresh timer and ends the wait for it, leaving every other hop's queue
      as it was. */
  lemma ARPLearns(s: InterfaceState, me: Identity, msg: ARPMessage)
    requires s.Inv()
    ensures var r, ip, mac := OnARP(s, me, msg), msg.senderIpAddress, msg.senderEthernetAddress;
            && r.state.Inv()
            && r.state.arpCache == s.arpCache[ip := CacheEntry(mac, 0)]
            && ip !in r.state.waiting && ip !in r.state.waitTimer
            && (forall h | h != ip :: Queued(r.state, h) == Queued(s, h))
            && r.state.received == s.received
  {
  }

  /** A reply goes out only to a request for this interface's own address,
      first, unicast to the requester; after it the datagrams that waited
      for the sender leave, in the order they were queued, addressed to the
      learned Ethernet address. */
  lemma ARPAnswers(s: InterfaceState, me: Identity, msg: ARPMessage)
    ensures var r, ip, mac := OnARP(s, me, msg), msg.senderIpAddress, msg.senderEthernetAddress;
            var asked := msg.opcode == OPCODE_REQUEST && msg.targetIpAddress == me.ip;
            var q := Queued(s, ip);
            && |r.out| == (if asked then 1 else 0) + |q|
            && (asked ==> r.out[0] == ReplyFrame(me, mac, ip) && r.out[0].header.dst == mac
                          && ParseARP(r.out[0].payload).value.opcode == OPCODE_REPLY)
            && (forall i | 0 <= i < |q| ::
                  r.out[(if asked then 1 else 0) + i] == DatagramFrame(me, mac, q[i]))
  {
    var r, ip, mac := OnARP(s, me, msg), msg.senderIpAddress, msg.senderEthernetAddress;
    var asked := msg.opcode == OPCODE_REQUEST && msg.targetIpAddress == me.ip;
    var reply := if asked then [ReplyFrame(me, mac, ip)] else [];
    var flushed := DatagramFrames(me, mac, Queued(s, ip));
    DatagramFramesInOrder(me, mac, Queued(s, ip));
    assert r.out == reply + flushed;
  }

  /** `tick` keeps the invariant, drops exactly the cache entries and
      request timers that have expired, ages the others, and keeps every
      queued datagram: a request that times out does not drop its queue. */
  lemma TickEvictsExpired(s: InterfaceState, ms: nat, entryTTL: nat, responseTTL: nat, expired: (nat, nat) -> bool)
    requires s.Inv()
    ensures var t := OnTick(s, ms, entryTTL, responseTTL, expired);
            && t.Inv()
            && t.waiting == s.waiting && t.received == s.received
            && (forall ip :: ip in t.arpCache <==> ip in s.arpCache && !expired(s.arpCache[ip].timer + ms, entryTTL))
            && (forall ip | ip in t.arpCache :: t.arpCache[ip].mac == s.arpCache[ip].mac)
            && (forall ip :: ip in t.waitTimer <==> ip in s.waitTimer && !expired(s.waitTimer[ip] + ms, responseTTL))
  {
  }

  /** `NetworkInterface`: the constants are its addresses, the two ARP
      lifetimes and the timer's expiry test; `sent` records, in order, the
      frames handed to the output port. */
  class NetworkInterface {
    const me: Identity
    const entryTTL: nat
    const responseTTL: nat
    /** `Timer::expired`: whether a timer that has run `elapsed` ms has
        outlived `ttl`. */
    const expired: (nat, nat) -> bool
    var arpCache: map<u32, CacheEntry>
    var waiting: map<u32, seq<InternetDatagram>>
    var waitTimer: map<u32, nat>
    var received: seq<InternetDatagram>
    var sent: seq<EthernetFrame>

    ghost function State(): InterfaceState
      reads this
    {
      InterfaceState(arpCache, waiting, waitTimer, received)
    }

    ghost predicate Valid()
      reads this
    {
      State().Inv()
    }

    constructor (mac: EthernetAddress, ip: u32, entryTTL: nat, responseTTL: nat, expired: (nat, nat) -> bool)
      ensures Valid() && me == Identity(mac, ip)
      ensures this.entryTTL == entryTTL && this.responseTTL == responseTTL && this.expired == expired
      ensures State() == InterfaceState(map[], map[], map[], []) && sent == []
    {
      me := Identity(mac, ip);
      this.entryTTL, this.responseTTL, this.expired := entryTTL, responseTTL, expired;
      arpCache, waiting, waitTimer, received, sent := map[], map[], map[], [], [];
    }

    /** `send_datagram`. */
    method SendDatagram(dgram: InternetDatagram, nextHop: u32)
      requires Valid()
      modifies this`waiting, this`waitTimer, this`sent
      ensures Valid()
      ensures var r := OnSend(old(State()), me, dgram, nextHop);
              State() == r.state && sent == old(sent) + r.out
    {
      if nextHop in arpCache {
        sent := sent + [DatagramFrame(me, arpCache[nextHop].mac, dgram)];
        return;
      }
      var queue := if nextHop in waiting then waiting[nextHop] else [];
      waiting := waiting[nextHop := queue + [dgram]];
      if nextHop in waitTimer {
        return;
      }
      waitTimer := waitTimer[nextHop := 0];
      sent := sent + [RequestFrame(me, nextHop)];
    }

    /** The flush loop of `recv_frame` (`src/network_interface.cc`, lines
        95-97): every datagram waiting for `ip` goes out to `mac`, in queue
        order. */
    method FlushWaiting(ip: u32, mac: EthernetAddress)
      requires ip in waiting
      modifies this`sent
      ensures sent == old(sent) + DatagramFrames(me, mac, waiting[ip])
    {
      var q := waiting[ip];
      for j := 0 to |q|
        invariant sent == old(sent) + DatagramFrames(me, mac, q[..j])
      {
        assert q[..j + 1][..j] == q[..j];
        sent := sent + [DatagramFrame(me, mac, q[j])];
      }
      assert q[..|q|] == q;
    }

    /** `recv_frame`. */
    method RecvFrame(frame: EthernetFrame)
      requires Valid()
      modifies this`arpCache, this`waiting, this`waitTimer, this`received, this`sent
      ensures Valid()
      ensures var r := OnFrame(old(State()), me, frame);
              State() == r.state && sent == old(sent) + r.out
    {
      ghost var s := State();
      FrameInv(s, me, frame);
      if frame.header.dst != me.mac && frame.header.dst != ETHERNET_BROADCAST {
        return;
      }
      if frame.header.etherType == TYPE_IPv4 {
        var d := ParseDatagram(frame.payload);
        if d.Some? {
          received := received + [d.value];
        }
        return;
      }
      if frame.header.etherType == TYPE_ARP {
        var parsed := ParseARP(frame.payload);
        if parsed.None? {
          return;
        }
        var msg := parsed.value;
        var ip, mac := msg.senderIpAddress, msg.senderEthernetAddress;
        arpCache := arpCache[ip := CacheEntry(mac, 0)];
        if msg.opcode == OPCODE_REQUEST && msg.targetIpAddress == me.ip {
          sent := sent + [ReplyFrame(me, mac, ip)];
        }
        if ip in waiting {
          ghost var before := sent;
          FlushWaiting(ip, mac);
          waiting := waiting - {ip};
          waitTimer := waitTimer - {ip};
          AppendAssoc(old(sent), before[|old(sent)|..], DatagramFrames(me, mac, s.waiting[ip]));
        }
      }
    }

    /** `tick`. */
    method Tick(ms: nat)
      requires Valid()
      modifies this`arpCache, this`waitTimer
      ensures Valid()
      ensures State() == OnTick(old(State()), ms, entryTTL, responseTTL, expired)
    {
      TickEvictsExpired(State(), ms, entryTTL, responseTTL, expired);
      arpCache := map ip | ip in arpCache && !expired(arpCache[ip].timer + ms, entryTTL)
                    :: arpCache[ip].(timer := arpCache[ip].timer + ms);
      waitTimer := map ip | ip in waitTimer && !expired(waitTimer[ip] + ms, responseTTL)
                    :: waitTimer[ip] + ms;
    }
  }
}
