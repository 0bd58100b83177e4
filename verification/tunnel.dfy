/** The user plane end to end: a packet built, put in a G-PDU, decoded and parsed again
    (internal/gtpu/message.go, internal/gtpu/ip.go, internal/gtpu/ip6.go). */
module Tunnel {
  import opened Words
  import opened GtpuMessages
  import opened IPPackets

  /** What the receiver of a G-PDU reports: TEID, container and parsed packet. */
  datatype Report = Report(teid: uint32, container: Option<Container>, inner: Result<Inner, PacketError>)

  function Received(b: seq<byte>): Option<Report> {
    match Decoded(b)
    case Err(_) => None
    case Ok(m) => Some(Report(m.teid, m.pduSession, ParseInner(m.payload)))
  }

  /** The two encapsulations: 5G with a QFI, 4G without. */
  function Encapsulated(teid: uint32, qfi: Option<byte>, packet: seq<byte>): seq<byte> {
    match qfi
    case None => GPDU(teid, packet)
    case Some(q) => GPDUWithQFI(teid, q, packet)
  }

  function UplinkContainerOf(qfi: Option<byte>): Option<Container> {
    match qfi case None => None case Some(q) => Some(Container(1, q % 64, None))
  }

  lemma PacketIsReceived(teid: uint32, qfi: Option<byte>, packet: seq<byte>)
    requires 8 + |packet| < 0x1_0000
    ensures Received(Encapsulated(teid, qfi, packet)) == Some(Report(teid, UplinkContainerOf(qfi), ParseInner(packet)))
  {
    hide Decoded, GPDU, GPDUWithQFI, ParseInner;
    if qfi.None? { GPDURoundTrip(teid, packet); } else { GPDUWithQFIRoundTrip(teid, qfi.value, packet); }
  }

  /** A UDP datagram through the tunnel, over either IP version: TEID, the six low bits of the QFI,
      addresses, ports and payload arrive unchanged. */
  lemma UDPThroughTunnel(teid: uint32, qfi: Option<byte>, src: Addr, dst: Addr, srcPort: uint16, dstPort: uint16,
                         payload: seq<byte>)
    requires IsAddr(src) && IsAddr(dst)
    requires var packet := UDPPacket(src, dst, srcPort, dstPort, payload); packet.Ok? && 8 + |packet.value| < 0x1_0000
    ensures Received(Encapsulated(teid, qfi, UDPPacket(src, dst, srcPort, dstPort, payload).value)) ==
              Some(Report(teid, UplinkContainerOf(qfi),
                          Ok(Inner(src.octets, dst.octets, PROTO_UDP, 0, 0, 0, srcPort, dstPort, payload))))
  {
    hide Received, Encapsulated, UDPPacket, ParseInner;
    UDPRoundTrip(src, dst, srcPort, dstPort, payload);
    PacketIsReceived(teid, qfi, UDPPacket(src, dst, srcPort, dstPort, payload).value);
  }

  /** An echo request through the tunnel: TEID, QFI, addresses, identifier and sequence number. */
  lemma EchoThroughTunnel(teid: uint32, qfi: Option<byte>, src: Addr, dst: Addr, id: uint16, sequence: uint16,
                          payload: seq<byte>)
    requires IsAddr(src) && IsAddr(dst)
    requires var packet := EchoPacket(src, dst, id, sequence, payload); packet.Ok? && 8 + |packet.value| < 0x1_0000
    ensures Received(Encapsulated(teid, qfi, EchoPacket(src, dst, id, sequence, payload).value)) ==
              Some(Report(teid, UplinkContainerOf(qfi),
                          Ok(Inner(src.octets, dst.octets, if src.V4? then PROTO_ICMP else PROTO_ICMPV6,
                                   if src.V4? then ICMP_ECHO_REQUEST else ICMPV6_ECHO_REQUEST, id, sequence, 0, 0, []))))
  {
    hide Received, Encapsulated, EchoPacket, ParseInner;
    EchoRoundTrip(src, dst, id, sequence, payload);
    PacketIsReceived(teid, qfi, EchoPacket(src, dst, id, sequence, payload).value);
  }
}
