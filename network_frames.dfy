/** The values the network layer exchanges: IPv4 datagrams, ARP messages and
    Ethernet frames. Only the fields the interface and the router read or
    write are modelled; the wire encoding is abstracted to `Wire`, the
    result of serializing one of these values (or bytes that parse as
    none of them). */
module NetworkFrames {
  import opened Common

  /** A 48-bit Ethernet address. */
  type EthernetAddress = a: seq<u8> | |a| == 6 witness [0, 0, 0, 0, 0, 0]

  /** The all-ones broadcast address of IEEE 802.3. */
  const ETHERNET_BROADCAST: EthernetAddress := [0xff, 0xff, 0xff, 0xff, 0xff, 0xff]

  /** EtherType values for IPv4 (RFC 894) and ARP (RFC 826). */
  const TYPE_IPv4: u16 := 0x0800
  const TYPE_ARP: u16 := 0x0806

  /** ARP operation codes of RFC 826. */
  const OPCODE_REQUEST: u16 := 1
  const OPCODE_REPLY: u16 := 2

  /** The IPv4 header fields the stack reads: the time to live and the two
      addresses. */
  datatype IPv4Header = IPv4Header(ttl: u8, src: u32, dst: u32)

  datatype InternetDatagram = InternetDatagram(header: IPv4Header, payload: Bytes)

  /** An ARP message for IPv4 over Ethernet (RFC 826). */
  datatype ARPMessage = ARPMessage(
    opcode: u16,
    senderEthernetAddress: EthernetAddress, senderIpAddress: u32,
    targetEthernetAddress: EthernetAddress, targetIpAddress: u32)

  /** A frame payload: a serialized datagram, a serialized ARP message, or
      bytes that are neither. */
  datatype Wire = DatagramBytes(d: InternetDatagram) | ARPBytes(a: ARPMessage) | OtherBytes(raw: Bytes)

  /** `serialize` of a datagram. */
  function SerializeDatagram(d: InternetDatagram): Wire
  {
    DatagramBytes(d)
  }

  /** `serialize` of an ARP message. */
  function SerializeARP(a: ARPMessage): Wire
  {
    ARPBytes(a)
  }

  /** `parse` into a datagram. */
  function ParseDatagram(w: Wire): Option<InternetDatagram>
  {
    if w.DatagramBytes? then Some(w.d) else None
  }

  /** `parse` into an ARP message. */
  function ParseARP(w: Wire): Option<ARPMessage>
  {
    if w.ARPBytes? then Some(w.a) else None
  }

  datatype EthernetHeader = EthernetHeader(dst: EthernetAddress, src: EthernetAddress, etherType: u16)

  datatype EthernetFrame = EthernetFrame(header: EthernetHeader, payload: Wire)
}
