/** IPv4 and IPv6 packets with ICMP echo requests and UDP datagrams (internal/gtpu/ip.go,
    internal/gtpu/ip6.go). Addresses are octets, not text. */
module IPPackets {
  import opened Words
  import opened Buffers
  import opened Checksums

  datatype Addr = NoAddr | V4(octets: seq<byte>) | V6(octets: seq<byte>)

  predicate IsAddr(a: Addr) {
    (a.V4? ==> |a.octets| == 4) && (a.V6? ==> |a.octets| == 16)
  }

  const PROTO_ICMP: byte := 1
  const PROTO_UDP: byte := 17
  const PROTO_ICMPV6: byte := 58
  const ICMP_ECHO_REQUEST: byte := 8
  const ICMPV6_ECHO_REQUEST: byte := 128
  const HOPS: byte := 64

  datatype PacketError = AddressFamilies | NotIPv4 | HeaderTruncated | NotIPv6 | Empty | UnknownVersion

  // ---- Packets as the standards write them, with the checksum as a parameter --------------------

  /** An ICMP or ICMPv6 echo request. */
  function Echo(t: byte, id: uint16, sequence: uint16, payload: seq<byte>, cs: uint16): seq<byte> {
    [t, 0] + Put16(cs) + (Put16(id) + Put16(sequence) + payload)
  }

  function UDPDatagram(srcPort: uint16, dstPort: uint16, payload: seq<byte>, cs: uint16): seq<byte> {
    (Put16(srcPort) + Put16(dstPort) + Put16(Low16(8 + |payload|))) + Put16(cs) + payload
  }

  function IPv4Start(proto: byte, total: uint16): (b: seq<byte>)
    ensures |b| == 10
  {
    [0x45, 0, total / 0x100, total % 0x100, 0, 0, 0, 0, HOPS, proto]
  }

  function IPv4Header(proto: byte, src: seq<byte>, dst: seq<byte>, total: uint16, cs: uint16): seq<byte> {
    IPv4Start(proto, total) + Put16(cs) + (src + dst)
  }

  function IPv4Packet(proto: byte, src: seq<byte>, dst: seq<byte>, l4: seq<byte>): seq<byte> {
    var total := Low16(20 + |l4|);
    IPv4Header(proto, src, dst, total, Checksum(IPv4Header(proto, src, dst, total, 0))) + l4
  }

  function IPv6Packet(next: byte, src: seq<byte>, dst: seq<byte>, upper: seq<byte>): seq<byte> {
    [0x60, 0, 0, 0] + Put16(Low16(|upper|)) + [next, HOPS] + src + dst + upper
  }

  /** The pseudo-header of section 8.1 of RFC 8200. */
  function PseudoHeader(src: seq<byte>, dst: seq<byte>, next: byte, length: nat): (b: seq<byte>)
    ensures |b| == |src| + |dst| + 8
  {
    src + dst + Put32(length % 0x1_0000_0000) + [0, 0, 0, next]
  }

  function Checksum6(src: seq<byte>, dst: seq<byte>, next: byte, upper: seq<byte>): uint16 {
    Checksum(PseudoHeader(src, dst, next, |upper|) + upper)
  }

  function EchoV4(id: uint16, sequence: uint16, payload: seq<byte>): seq<byte> {
    Echo(ICMP_ECHO_REQUEST, id, sequence, payload, Checksum(Echo(ICMP_ECHO_REQUEST, id, sequence, payload, 0)))
  }

  function EchoV6(src: seq<byte>, dst: seq<byte>, id: uint16, sequence: uint16, payload: seq<byte>): seq<byte> {
    Echo(ICMPV6_ECHO_REQUEST, id, sequence, payload,
         Checksum6(src, dst, PROTO_ICMPV6, Echo(ICMPV6_ECHO_REQUEST, id, sequence, payload, 0)))
  }

  /** Over IPv4 the checksum is not computed; over IPv6 it must be, and zero is sent as 0xffff. */
  function UDPv4(srcPort: uint16, dstPort: uint16, payload: seq<byte>): seq<byte> {
    UDPDatagram(srcPort, dstPort, payload, 0)
  }

  function UDPv6(src: seq<byte>, dst: seq<byte>, srcPort: uint16, dstPort: uint16, payload: seq<byte>): seq<byte> {
    var cs := Checksum6(src, dst, PROTO_UDP, UDPDatagram(srcPort, dstPort, payload, 0));
    UDPDatagram(srcPort, dstPort, payload, if cs == 0 then 0xffff else cs)
  }

  function EchoPacket(src: Addr, dst: Addr, id: uint16, sequence: uint16, payload: seq<byte>): Result<seq<byte>, PacketError> {
    if src.V4? && dst.V4? then
      Ok(IPv4Packet(PROTO_ICMP, src.octets, dst.octets, EchoV4(id, sequence, payload)))
    else if src.V6? && dst.V6? then
      Ok(IPv6Packet(PROTO_ICMPV6, src.octets, dst.octets, EchoV6(src.octets, dst.octets, id, sequence, payload)))
    else Err(AddressFamilies)
  }

  function UDPPacket(src: Addr, dst: Addr, srcPort: uint16, dstPort: uint16, payload: seq<byte>): Result<seq<byte>, PacketError> {
    if src.V4? && dst.V4? then
      Ok(IPv4Packet(PROTO_UDP, src.octets, dst.octets, UDPv4(srcPort, dstPort, payload)))
    else if src.V6? && dst.V6? then
      Ok(IPv6Packet(PROTO_UDP, src.octets, dst.octets, UDPv6(src.octets, dst.octets, srcPort, dstPort, payload)))
    else Err(AddressFamilies)
  }

  // ---- The builders fill buffers in place ------------------------------------------------------

  method NewEcho(t: byte, id: uint16, sequence: uint16, payload: seq<byte>) returns (icmp: array<byte>)
    ensures fresh(icmp) && icmp[..] == Echo(t, id, sequence, payload, 0)
  {
    hide Put16;
    icmp := new byte[8 + |payload|](_ => 0);
    icmp[0] := t;
    PutUint16(icmp, 4, id);
    PutUint16(icmp, 6, sequence);
    ghost var head := icmp[..8];
    assert head[..4] == [t, 0, 0, 0] && head[4..6] == Put16(id) && head[6..8] == Put16(sequence);
    Copy(icmp, 8, payload);
    assert icmp[..8] == head && icmp[8..] == payload;
    ZeroField();
    assert icmp[..] == head[..4] + (head[4..6] + head[6..8] + icmp[8..]);
  }

  method NewUDP(srcPort: uint16, dstPort: uint16, payload: seq<byte>) returns (udp: array<byte>)
    ensures fresh(udp) && udp[..] == UDPDatagram(srcPort, dstPort, payload, 0)
  {
    hide Put16, Low16;
    udp := new byte[8 + |payload|](_ => 0);
    var length := Low16(udp.Length);
    PutUint16(udp, 0, srcPort);
    PutUint16(udp, 2, dstPort);
    PutUint16(udp, 4, length);
    ghost var head := udp[..8];
    assert head[..2] == Put16(srcPort) && head[2..4] == Put16(dstPort) && head[4..6] == Put16(length);
    assert head[6..] == [0, 0];
    Copy(udp, 8, payload);
    assert udp[..8] == head && udp[8..] == payload;
    ZeroField();
    assert udp[..] == head[..2] + head[2..4] + head[4..6] + head[6..] + udp[8..];
  }

  lemma ZeroField()
    ensures Put16(0) == [0, 0]
  {
  }

  /** Fills in a field of two octets. */
  method SetField(out: array<byte>, at: nat, v: uint16)
    requires at + 2 <= out.Length
    modifies out
    ensures out[..] == old(out[..at]) + Put16(v) + old(out[at + 2..])
  {
    hide Put16;
    ghost var before := out[..];
    PutUint16(out, at, v);
    assert out[..at] == before[..at] && out[at + 2..] == before[at + 2..];
    assert out[at..at + 2] == Put16(v);
    assert out[..] == out[..at] + out[at..at + 2] + out[at + 2..];
  }

  /** A buffer with an IPv4 header whose checksum field is still zero. */
  method NewIPv4(proto: byte, src: seq<byte>, dst: seq<byte>, size: nat) returns (ip: array<byte>)
    requires |src| == 4 && |dst| == 4 && size >= 20
    ensures fresh(ip) && ip.Length == size
    ensures ip[..20] == IPv4Header(proto, src, dst, Low16(size), 0)
  {
    ip := new byte[size](_ => 0);
    ip[0] := 0x45;
    PutUint16(ip, 2, Low16(size));
    ip[8] := HOPS;
    ip[9] := proto;
    ghost var start := ip[..12];
    assert start == IPv4Start(proto, Low16(size)) + Put16(0);
    Copy(ip, 12, src);
    Copy(ip, 16, dst);
    hide IPv4Start, Put16, Low16;
    assert ip[..12] == start && ip[12..16] == src && ip[16..20] == dst;
    assert ip[..20] == ip[..12] + (ip[12..16] + ip[16..20]);
  }

  method BuildIPv4(proto: byte, src: seq<byte>, dst: seq<byte>, l4: seq<byte>) returns (r: seq<byte>)
    requires |src| == 4 && |dst| == 4
    ensures r == IPv4Packet(proto, src, dst, l4)
  {
    hide IPv4Start, Put16, Low16, Checksum;
    var ip := NewIPv4(proto, src, dst, 20 + |l4|);
    ghost var start := IPv4Start(proto, Low16(20 + |l4|));
    ghost var blank := ip[..20];
    var cs := OnesComplementSum(ip[..20]);
    SetField(ip, 10, cs);
    Cut(start, Put16(0), src + dst);
    assert ip[..20] == blank[..10] + Put16(cs) + blank[12..];
    ghost var header := ip[..20];
    Copy(ip, 20, l4);
    r := ip[..];
    assert r[..20] == header && r == r[..20] + r[20..];
  }

  method BuildIPv6(next: byte, src: seq<byte>, dst: seq<byte>, upper: seq<byte>) returns (r: seq<byte>)
    requires |src| == 16 && |dst| == 16
    ensures r == IPv6Packet(next, src, dst, upper)
  {
    var ip := new byte[40 + |upper|](_ => 0);
    ip[0] := 0x60;
    PutUint16(ip, 4, Low16(|upper|));
    ip[6] := next;
    ip[7] := HOPS;
    ghost var start := ip[..8];
    assert start == [0x60, 0, 0, 0] + Put16(Low16(|upper|)) + [next, HOPS];
    Copy(ip, 8, src);
    Copy(ip, 24, dst);
    Copy(ip, 40, upper);
    r := ip[..];
    assert r[..8] == start && r[8..24] == src && r[24..40] == dst && r[40..] == upper;
    assert r == r[..8] + r[8..24] + r[24..40] + r[40..];
  }

  method ChecksumIPv6(src: seq<byte>, dst: seq<byte>, nextHeader: byte, upper: seq<byte>) returns (cs: uint16)
    requires |src| == 16 && |dst| == 16
    ensures cs == Checksum6(src, dst, nextHeader, upper)
  {
    var pseudo := new byte[40 + |upper|](_ => 0);
    Copy(pseudo, 0, src);
    Copy(pseudo, 16, dst);
    ghost var addresses := pseudo[..32];
    assert addresses == src + dst by { assert addresses == pseudo[0..16] + pseudo[16..32]; }
    PutUint32(pseudo, 32, |upper| % 0x1_0000_0000);
    pseudo[39] := nextHeader;
    ghost var tail := pseudo[32..40];
    assert tail == Put32(|upper| % 0x1_0000_0000) + [0, 0, 0, nextHeader];
    Copy(pseudo, 40, upper);
    assert pseudo[..32] == addresses && pseudo[32..40] == tail && pseudo[40..] == upper;
    assert pseudo[..] == pseudo[..32] + pseudo[32..40] + pseudo[40..];
    assert pseudo[..] == PseudoHeader(src, dst, nextHeader, |upper|) + upper;
    cs := OnesComplementSum(pseudo[..]);
  }

  method BuildICMPEcho(src: Addr, dst: Addr, id: uint16, sequence: uint16, payload: seq<byte>)
    returns (r: Result<seq<byte>, PacketError>)
    requires IsAddr(src) && IsAddr(dst)
    ensures r == EchoPacket(src, dst, id, sequence, payload)
  {
    hide Put16, Low16, Checksum, Checksum6, IPv4Packet, IPv6Packet;
    ghost var rest := Put16(id) + Put16(sequence) + payload;
    if src.V4? && dst.V4? {
      var icmp := NewEcho(ICMP_ECHO_REQUEST, id, sequence, payload);
      var cs := OnesComplementSum(icmp[..]);
      SetField(icmp, 2, cs);
      Cut([ICMP_ECHO_REQUEST, 0], Put16(0), rest);
      var ip := BuildIPv4(PROTO_ICMP, src.octets, dst.octets, icmp[..]);
      return Ok(ip);
    } else if src.V6? && dst.V6? {
      var icmp := NewEcho(ICMPV6_ECHO_REQUEST, id, sequence, payload);
      var cs := ChecksumIPv6(src.octets, dst.octets, PROTO_ICMPV6, icmp[..]);
      SetField(icmp, 2, cs);
      Cut([ICMPV6_ECHO_REQUEST, 0], Put16(0), rest);
      var ip := BuildIPv6(PROTO_ICMPV6, src.octets, dst.octets, icmp[..]);
      return Ok(ip);
    } else {
      return Err(AddressFamilies);
    }
  }

  method BuildUDP(src: Addr, dst: Addr, srcPort: uint16, dstPort: uint16, payload: seq<byte>)
    returns (r: Result<seq<byte>, PacketError>)
    requires IsAddr(src) && IsAddr(dst)
    ensures r == UDPPacket(src, dst, srcPort, dstPort, payload)
  {
    hide Put16, Low16, Checksum6, IPv4Packet, IPv6Packet;
    if src.V4? && dst.V4? {
      var udp := NewUDP(srcPort, dstPort, payload);
      var ip := BuildIPv4(PROTO_UDP, src.octets, dst.octets, udp[..]);
      return Ok(ip);
    } else if src.V6? && dst.V6? {
      var udp := NewUDP(srcPort, dstPort, payload);
      var cs := ChecksumIPv6(src.octets, dst.octets, PROTO_UDP, udp[..]);
      if cs == 0 { cs := 0xffff; }
      SetField(udp, 6, cs);
      Cut(Put16(srcPort) + Put16(dstPort) + Put16(Low16(8 + |payload|)), Put16(0), payload);
      var ip := BuildIPv6(PROTO_UDP, src.octets, dst.octets, udp[..]);
      return Ok(ip);
    } else {
      return Err(AddressFamilies);
    }
  }

  // ---- The parsers -----------------------------------------------------------------------------

  /** What a parsed packet shows; fields that do not apply stay zero. */
  datatype Inner = Inner(src: seq<byte>, dst: seq<byte>, proto: byte, icmpType: byte, icmpID: uint16, icmpSeq: uint16,
                         udpSrcPort: uint16, udpDstPort: uint16, payload: seq<byte>)

  function WithTransport(p: Inner, icmpProto: byte, l4: seq<byte>): Inner {
    if |l4| < 8 then p
    else if p.proto == icmpProto then
      p.(icmpType := l4[0], icmpID := U16(l4[4], l4[5]), icmpSeq := U16(l4[6], l4[7]))
    else if p.proto == PROTO_UDP then
      p.(udpSrcPort := U16(l4[0], l4[1]), udpDstPort := U16(l4[2], l4[3]), payload := l4[8..])
    else p
  }

  function ParseIPv4(b: seq<byte>): Result<Inner, PacketError> {
    if |b| < 20 || b[0] / 16 != 4 then Err(NotIPv4)
    else
      var ihl := 4 * ((b[0] % 16) as nat);
      if |b| < ihl then Err(HeaderTruncated)
      else Ok(WithTransport(Inner(b[12..16], b[16..20], b[9], 0, 0, 0, 0, 0, []), PROTO_ICMP, b[ihl..]))
  }

  function ParseIPv6(b: seq<byte>): Result<Inner, PacketError> {
    if |b| < 40 || b[0] / 16 != 6 then Err(NotIPv6)
    else Ok(WithTransport(Inner(b[8..24], b[24..40], b[6], 0, 0, 0, 0, 0, []), PROTO_ICMPV6, b[40..]))
  }

  function ParseInner(b: seq<byte>): Result<Inner, PacketError> {
    if |b| < 1 then Err(Empty)
    else if b[0] / 16 == 4 then ParseIPv4(b)
    else if b[0] / 16 == 6 then ParseIPv6(b)
    else Err(UnknownVersion)
  }

  // ---- Checksums verify ------------------------------------------------------------------------

  /** A receiver's check of a built IPv4 header. */
  lemma IPv4HeaderVerifies(proto: byte, src: seq<byte>, dst: seq<byte>, l4: seq<byte>)
    requires |src| == 4 && |dst| == 4
    ensures Checksum(IPv4Packet(proto, src, dst, l4)[..20]) == 0
  {
    hide Checksum, IPv4Start, Put16;
    var total := Low16(20 + |l4|);
    var cs := Checksum(IPv4Header(proto, src, dst, total, 0));
    FieldMakesChecksumZero(IPv4Start(proto, total), src + dst, cs);
    assert IPv4Packet(proto, src, dst, l4)[..20] == IPv4Header(proto, src, dst, total, cs);
  }

  /** A receiver's check of an ICMP echo request, of odd length or even. */
  lemma EchoV4Verifies(id: uint16, sequence: uint16, payload: seq<byte>)
    requires 8 + |payload| <= 131074
    ensures Checksum(EchoV4(id, sequence, payload)) == 0
  {
    hide Checksum, Put16;
    FieldMakesChecksumZero([ICMP_ECHO_REQUEST, 0], Put16(id) + Put16(sequence) + payload,
                           Checksum(Echo(ICMP_ECHO_REQUEST, id, sequence, payload, 0)));
  }

  /** A receiver's check of an ICMPv6 echo request under the pseudo-header. */
  lemma EchoV6Verifies(src: seq<byte>, dst: seq<byte>, id: uint16, sequence: uint16, payload: seq<byte>)
    requires |src| == 16 && |dst| == 16 && 48 + |payload| <= 131074
    ensures Checksum6(src, dst, PROTO_ICMPV6, EchoV6(src, dst, id, sequence, payload)) == 0
  {
    hide Checksum, Put16, PseudoHeader;
    var cs := Checksum6(src, dst, PROTO_ICMPV6, Echo(ICMPV6_ECHO_REQUEST, id, sequence, payload, 0));
    FieldUnderPseudoHeader(src, dst, PROTO_ICMPV6, [ICMPV6_ECHO_REQUEST, 0], Put16(id) + Put16(sequence) + payload, cs);
  }

  /** A receiver's check of a UDP datagram over IPv6; its field is never zero. */
  lemma UDPv6Verifies(src: seq<byte>, dst: seq<byte>, srcPort: uint16, dstPort: uint16, payload: seq<byte>)
    requires |src| == 16 && |dst| == 16 && 48 + |payload| <= 131074
    ensures var udp := UDPv6(src, dst, srcPort, dstPort, payload);
            && Checksum6(src, dst, PROTO_UDP, udp) == 0
            && |udp| >= 8 && U16(udp[6], udp[7]) != 0
  {
    var cs0 := Checksum6(src, dst, PROTO_UDP, UDPDatagram(srcPort, dstPort, payload, 0));
    var cs := if cs0 == 0 then 0xffff else cs0;
    var a := Put16(srcPort) + Put16(dstPort) + Put16(Low16(8 + |payload|));
    assert UDPv6(src, dst, srcPort, dstPort, payload)[6..8] == Put16(cs);
    FieldUnderPseudoHeader(src, dst, PROTO_UDP, a, payload, cs);
  }

  lemma FieldUnderPseudoHeader(src: seq<byte>, dst: seq<byte>, next: byte, a: seq<byte>, c: seq<byte>, cs: uint16)
    requires |src| == 16 && |dst| == 16 && |a| % 2 == 0 && 42 + |a| + |c| <= 131074
    requires var zero := Checksum6(src, dst, next, a + Put16(0) + c); cs == zero || (cs == 0xffff && zero == 0)
    ensures Checksum6(src, dst, next, a + Put16(cs) + c) == 0
  {
    hide Checksum, Put16, PseudoHeader;
    var p := PseudoHeader(src, dst, next, |a| + 2 + |c|);
    assert p + (a + Put16(0) + c) == (p + a) + Put16(0) + c;
    assert p + (a + Put16(cs) + c) == (p + a) + Put16(cs) + c;
    FieldMakesChecksumZero(p + a, c, cs);
  }

  // ---- Round trips -----------------------------------------------------------------------------

  /** A built echo request parses to its addresses, identifier and sequence number. */
  lemma EchoRoundTrip(src: Addr, dst: Addr, id: uint16, sequence: uint16, payload: seq<byte>)
    requires IsAddr(src) && IsAddr(dst)
    ensures EchoPacket(src, dst, id, sequence, payload).Ok? <==> (src.V4? && dst.V4?) || (src.V6? && dst.V6?)
    ensures EchoPacket(src, dst, id, sequence, payload).Ok? ==>
              ParseInner(EchoPacket(src, dst, id, sequence, payload).value) ==
                Ok(Inner(src.octets, dst.octets, if src.V4? then PROTO_ICMP else PROTO_ICMPV6,
                         if src.V4? then ICMP_ECHO_REQUEST else ICMPV6_ECHO_REQUEST, id, sequence, 0, 0, []))
  {
    hide IPv4Packet, IPv6Packet, Echo, ParseInner, Checksum, Checksum6;
    if src.V4? && dst.V4? {
      IPv4Parses(PROTO_ICMP, src.octets, dst.octets, EchoV4(id, sequence, payload));
      EchoFields(ICMP_ECHO_REQUEST, id, sequence, payload, Checksum(Echo(ICMP_ECHO_REQUEST, id, sequence, payload, 0)));
    } else if src.V6? && dst.V6? {
      IPv6Parses(PROTO_ICMPV6, src.octets, dst.octets, EchoV6(src.octets, dst.octets, id, sequence, payload));
      EchoFields(ICMPV6_ECHO_REQUEST, id, sequence, payload,
                 Checksum6(src.octets, dst.octets, PROTO_ICMPV6, Echo(ICMPV6_ECHO_REQUEST, id, sequence, payload, 0)));
    }
  }

  /** A built UDP packet parses to its addresses, ports and payload. */
  lemma UDPRoundTrip(src: Addr, dst: Addr, srcPort: uint16, dstPort: uint16, payload: seq<byte>)
    requires IsAddr(src) && IsAddr(dst)
    ensures UDPPacket(src, dst, srcPort, dstPort, payload).Ok? <==> (src.V4? && dst.V4?) || (src.V6? && dst.V6?)
    ensures UDPPacket(src, dst, srcPort, dstPort, payload).Ok? ==>
              ParseInner(UDPPacket(src, dst, srcPort, dstPort, payload).value) ==
                Ok(Inner(src.octets, dst.octets, PROTO_UDP, 0, 0, 0, srcPort, dstPort, payload))
  {
    hide IPv4Packet, IPv6Packet, UDPDatagram, ParseInner, Checksum, Checksum6;
    if src.V4? && dst.V4? {
      IPv4Parses(PROTO_UDP, src.octets, dst.octets, UDPv4(srcPort, dstPort, payload));
      UDPFields(srcPort, dstPort, payload, 0);
    } else if src.V6? && dst.V6? {
      var cs := Checksum6(src.octets, dst.octets, PROTO_UDP, UDPDatagram(srcPort, dstPort, payload, 0));
      IPv6Parses(PROTO_UDP, src.octets, dst.octets, UDPv6(src.octets, dst.octets, srcPort, dstPort, payload));
      UDPFields(srcPort, dstPort, payload, if cs == 0 then 0xffff else cs);
    }
  }

  lemma IPv4Parses(proto: byte, src: seq<byte>, dst: seq<byte>, l4: seq<byte>)
    requires |src| == 4 && |dst| == 4
    ensures ParseInner(IPv4Packet(proto, src, dst, l4)) ==
              Ok(WithTransport(Inner(src, dst, proto, 0, 0, 0, 0, 0, []), PROTO_ICMP, l4))
  {
    hide Checksum, Put16;
    var total := Low16(20 + |l4|);
    var cs := Put16(Checksum(IPv4Header(proto, src, dst, total, 0)));
    var b := IPv4Packet(proto, src, dst, l4);
    var start := IPv4Start(proto, total);
    assert b == start + (cs + (src + (dst + l4)));
    assert b[0] == start[0] && b[9] == start[9];
    assert b[12..16] == src && b[16..20] == dst && b[20..] == l4;
  }

  lemma IPv6Parses(next: byte, src: seq<byte>, dst: seq<byte>, upper: seq<byte>)
    requires |src| == 16 && |dst| == 16
    ensures ParseInner(IPv6Packet(next, src, dst, upper)) ==
              Ok(WithTransport(Inner(src, dst, next, 0, 0, 0, 0, 0, []), PROTO_ICMPV6, upper))
  {
    hide Put16;
    var start := [0x60, 0, 0, 0] + Put16(Low16(|upper|)) + [next, HOPS];
    var b := IPv6Packet(next, src, dst, upper);
    assert b == start + (src + (dst + upper));
    assert b[0] == start[0] && b[6] == start[6];
    assert b[8..24] == src && b[24..40] == dst && b[40..] == upper;
  }

  lemma EchoFields(t: byte, id: uint16, sequence: uint16, payload: seq<byte>, cs: uint16)
    ensures var l4 := Echo(t, id, sequence, payload, cs);
            |l4| >= 8 && l4[0] == t && U16(l4[4], l4[5]) == id && U16(l4[6], l4[7]) == sequence
  {
  }

  lemma UDPFields(srcPort: uint16, dstPort: uint16, payload: seq<byte>, cs: uint16)
    ensures var l4 := UDPDatagram(srcPort, dstPort, payload, cs);
            |l4| >= 8 && U16(l4[0], l4[1]) == srcPort && U16(l4[2], l4[3]) == dstPort && l4[8..] == payload
  {
  }
}
