/** A receiver as the standards prescribe it (RFC 791, 792, 768, 4443 and 8200), against which the built
    packets are held: it trusts lengths and checksums, not the end of the buffer. */
module IPReceivers {
  import opened Words
  import opened Checksums
  import opened IPPackets

  datatype Received = Received(src: seq<byte>, dst: seq<byte>, proto: byte, hops: byte, data: seq<byte>)

  /** Version 4, a header length of at least five words, no fragment, a header that sums to all ones, and the
      data up to the total length. */
  function ReceiveIPv4(b: seq<byte>): Option<Received> {
    if |b| < 20 || b[0] / 16 != 4 then None
    else
      var header, total := 4 * (b[0] as int % 16), Number(b[2..4]);
      if header < 20 || !(header <= total <= |b|) || b[6] % 64 != 0 || b[7] != 0 || RunningSum(b[..header]) != 0xffff then None
      else Some(Received(b[12..16], b[16..20], b[9], b[8], b[header..total]))
  }

  /** Version 6, and the data of the payload length. */
  function ReceiveIPv6(b: seq<byte>): Option<Received> {
    if |b| < 40 || b[0] / 16 != 6 then None
    else
      var length := Number(b[4..6]);
      if 40 + length > |b| then None
      else Some(Received(b[8..24], b[24..40], b[6], b[7], b[40..40 + length]))
  }

  function Receive(b: seq<byte>): Option<Received> {
    if |b| > 0 && b[0] / 16 == 6 then ReceiveIPv6(b) else ReceiveIPv4(b)
  }

  /** The pseudo-header of an upper layer packet over IPv6. */
  function Pseudo(r: Received, length: uint32): seq<byte> {
    r.src + r.dst + Put32(length) + [0, 0, 0, r.proto]
  }

  datatype Datagram = Datagram(srcPort: nat, dstPort: nat, payload: seq<byte>)

  /** A datagram of protocol 17 with the octets its length field counts, header included. Its checksum may
      be absent over IPv4 and must be present and verify over IPv6. */
  function ReceiveUDP(r: Received): Option<Datagram> {
    var d := r.data;
    if r.proto != 17 || |d| < 8 then None
    else
      var length, cs := Number(d[4..6]), Number(d[6..8]);
      if !(8 <= length <= |d|) then None
      else if |r.src| == 16 && (cs == 0 || RunningSum(Pseudo(r, length % 0x1_0000_0000) + d[..length]) != 0xffff) then None
      else if |r.src| == 4 && cs != 0 then None
      else Some(Datagram(Number(d[..2]), Number(d[2..4]), d[8..length]))
  }

  datatype EchoRequest = EchoRequest(id: nat, sequence: nat, payload: seq<byte>)

  /** An echo request, type 8 of protocol 1 or type 128 of protocol 58, code 0, whose checksum verifies. */
  function ReceiveEcho(r: Received): Option<EchoRequest> {
    var d := r.data;
    if |d| < 8 || d[1] != 0 then None
    else if |r.src| == 4 && (r.proto != 1 || d[0] != 8 || RunningSum(d) != 0xffff) then None
    else if |r.src| != 4 && (r.proto != 58 || d[0] != 128 || RunningSum(Pseudo(r, |d| % 0x1_0000_0000) + d) != 0xffff) then None
    else Some(EchoRequest(Number(d[4..6]), Number(d[6..8]), d[8..]))
  }

  lemma SumsToOnes(b: seq<byte>)
    requires |b| <= 131074 && Checksum(b) == 0
    ensures RunningSum(b) == 0xffff
  {
    ChecksumIsComplement(b);
  }

  lemma IPv4IsReceived(proto: byte, src: seq<byte>, dst: seq<byte>, l4: seq<byte>)
    requires |src| == 4 && |dst| == 4 && 20 + |l4| < 0x1_0000
    ensures Receive(IPv4Packet(proto, src, dst, l4)) == Some(Received(src, dst, proto, 64, l4))
  {
    var total := Low16(20 + |l4|);
    var b := IPv4Packet(proto, src, dst, l4);
    IPv4HeaderVerifies(proto, src, dst, l4);
    SumsToOnes(b[..20]);
    NumberOfTwo(total);
    hide Checksum, Number, RunningSum, IPv4Start;
    HeaderOctets(proto, total, Put16(Checksum(IPv4Header(proto, src, dst, total, 0))), src, dst, l4);
  }

  lemma HeaderOctets(proto: byte, total: uint16, cs: seq<byte>, src: seq<byte>, dst: seq<byte>, l4: seq<byte>)
    requires |cs| == 2 && |src| == 4 && |dst| == 4 && total == 20 + |l4|
    ensures var b := IPv4Start(proto, total) + cs + (src + dst) + l4;
            && |b| == total && b[0] == 0x45 && b[1] == 0 && b[2..4] == Put16(total) && b[4..8] == [0, 0, 0, 0]
            && b[8] == 64 && b[9] == proto && b[12..16] == src && b[16..20] == dst && b[20..total] == l4
  {
    var start := IPv4Start(proto, total);
    assert start[2..4] == Put16(total) && start[4..8] == [0, 0, 0, 0];
    var b := start + cs + (src + dst) + l4;
    assert b == start + (cs + (src + (dst + l4)));
    assert b[2..4] == start[2..4] && b[4..8] == start[4..8];
    assert b[12..16] == src && b[16..20] == dst && b[20..total] == l4;
  }

  lemma IPv6IsReceived(next: byte, src: seq<byte>, dst: seq<byte>, upper: seq<byte>)
    requires |src| == 16 && |dst| == 16 && |upper| < 0x1_0000
    ensures Receive(IPv6Packet(next, src, dst, upper)) == Some(Received(src, dst, next, 64, upper))
    ensures IPv6Packet(next, src, dst, upper)[..4] == [0x60, 0, 0, 0]
  {
    NumberOfTwo(|upper|);
    assert Low16(|upper|) == |upper|;
    hide Put16, Number, Low16;
    V6HeaderOctets(next, Put16(|upper|), src, dst, upper);
  }

  lemma V6HeaderOctets(next: byte, length: seq<byte>, src: seq<byte>, dst: seq<byte>, upper: seq<byte>)
    requires |length| == 2 && |src| == 16 && |dst| == 16
    ensures var b := [0x60, 0, 0, 0] + length + [next, 64] + src + dst + upper;
            && |b| == 40 + |upper| && b[..4] == [0x60, 0, 0, 0] && b[0] == 0x60 && b[4..6] == length
            && b[6] == next && b[7] == 64 && b[8..24] == src && b[24..40] == dst && b[40..40 + |upper|] == upper
  {
    var first := [0x60, 0, 0, 0];
    var b := first + length + [next, 64] + src + dst + upper;
    assert b == first + (length + ([next, 64] + (src + (dst + upper))));
    assert b[..4] == first && b[4..6] == length && b[0] == first[0];
    assert b[8..24] == src && b[24..40] == dst && b[40..40 + |upper|] == upper;
  }

  lemma UDPOctets(srcPort: uint16, dstPort: uint16, payload: seq<byte>, cs: uint16)
    requires 8 + |payload| < 0x1_0000
    ensures var d := UDPDatagram(srcPort, dstPort, payload, cs);
            && |d| == 8 + |payload| && Number(d[..2]) == srcPort && Number(d[2..4]) == dstPort
            && Number(d[4..6]) == |d| && Number(d[6..8]) == cs && d[8..] == payload
  {
    NumberOfTwo(srcPort);
    NumberOfTwo(dstPort);
    NumberOfTwo(8 + |payload|);
    NumberOfTwo(cs);
    hide Put16, Number;
    var d := UDPDatagram(srcPort, dstPort, payload, cs);
    assert d[..2] == Put16(srcPort) && d[2..4] == Put16(dstPort);
    assert d[4..6] == Put16(Low16(8 + |payload|)) && d[6..8] == Put16(cs) && d[8..] == payload;
  }

  /** Every built UDP packet that fits its length fields is received: addresses, hop limit 64, ports and
      exactly the payload, with a checksum that verifies where one is required. */
  lemma UDPIsReceived(src: Addr, dst: Addr, srcPort: uint16, dstPort: uint16, payload: seq<byte>)
    requires IsAddr(src) && IsAddr(dst) && ((src.V4? && dst.V4?) || (src.V6? && dst.V6?))
    requires (if src.V4? then 28 else 8) + |payload| < 0x1_0000
    ensures UDPPacket(src, dst, srcPort, dstPort, payload).Ok?
    ensures var r := Receive(UDPPacket(src, dst, srcPort, dstPort, payload).value);
            && r.Some? && r.value == Received(src.octets, dst.octets, 17, 64, r.value.data)
            && ReceiveUDP(r.value) == Some(Datagram(srcPort, dstPort, payload))
  {
    hide Receive, IPv4Packet, IPv6Packet, UDPDatagram, RunningSum, Number, Checksum6;
    if src.V4? {
      var d := UDPv4(srcPort, dstPort, payload);
      UDPOctets(srcPort, dstPort, payload, 0);
      IPv4IsReceived(17, src.octets, dst.octets, d);
      assert d[..|d|] == d;
    } else {
      var d := UDPv6(src.octets, dst.octets, srcPort, dstPort, payload);
      UDPv6IsReceived(src.octets, dst.octets, srcPort, dstPort, payload);
      IPv6IsReceived(17, src.octets, dst.octets, d);
    }
  }

  lemma UpperSumsToOnes(r: Received)
    requires |r.src| == 16 && |r.dst| == 16 && |r.data| < 0x1_0000
    requires Checksum6(r.src, r.dst, r.proto, r.data) == 0
    ensures RunningSum(Pseudo(r, |r.data|) + r.data) == 0xffff
  {
    hide Checksum, RunningSum, Put32;
    assert Pseudo(r, |r.data|) == PseudoHeader(r.src, r.dst, r.proto, |r.data|);
    hide Pseudo, PseudoHeader;
    SumsToOnes(Pseudo(r, |r.data|) + r.data);
  }

  lemma UDPv6IsReceived(src: seq<byte>, dst: seq<byte>, srcPort: uint16, dstPort: uint16, payload: seq<byte>)
    requires |src| == 16 && |dst| == 16 && 8 + |payload| < 0x1_0000
    ensures var d := UDPv6(src, dst, srcPort, dstPort, payload);
            |d| < 0x1_0000 && ReceiveUDP(Received(src, dst, 17, 64, d)) == Some(Datagram(srcPort, dstPort, payload))
  {
    hide UDPDatagram, RunningSum, Number, Checksum6, ReceiveUDP, Pseudo;
    var cs0 := Checksum6(src, dst, 17, UDPDatagram(srcPort, dstPort, payload, 0));
    UDPOctets(srcPort, dstPort, payload, if cs0 == 0 then 0xffff else cs0);
    UDPv6Verifies(src, dst, srcPort, dstPort, payload);
    var r := Received(src, dst, 17, 64, UDPv6(src, dst, srcPort, dstPort, payload));
    UpperSumsToOnes(r);
    DatagramIsTaken(r, srcPort, dstPort, payload);
  }

  lemma DatagramIsTaken(r: Received, srcPort: nat, dstPort: nat, payload: seq<byte>)
    requires |r.src| == 16 && r.proto == 17 && 8 <= |r.data| < 0x1_0000
    requires Number(r.data[..2]) == srcPort && Number(r.data[2..4]) == dstPort && Number(r.data[4..6]) == |r.data|
    requires Number(r.data[6..8]) != 0 && r.data[8..] == payload
    requires RunningSum(Pseudo(r, |r.data|) + r.data) == 0xffff
    ensures ReceiveUDP(r) == Some(Datagram(srcPort, dstPort, payload))
  {
    hide Number, RunningSum, Pseudo;
    assert r.data[..|r.data|] == r.data;
  }

  lemma EchoOctets(t: byte, id: uint16, sequence: uint16, payload: seq<byte>, cs: uint16)
    ensures var d := Echo(t, id, sequence, payload, cs);
            && |d| == 8 + |payload| && d[0] == t && d[1] == 0
            && Number(d[4..6]) == id && Number(d[6..8]) == sequence && d[8..] == payload
  {
    NumberOfTwo(id);
    NumberOfTwo(sequence);
    hide Put16, Number;
    var d := Echo(t, id, sequence, payload, cs);
    assert d == [t, 0] + (Put16(cs) + (Put16(id) + (Put16(sequence) + payload)));
    assert d[4..6] == Put16(id) && d[6..8] == Put16(sequence) && d[8..] == payload;
  }

  /** Every built echo request that fits its length field is received, payload included, and its checksum
      verifies. */
  lemma EchoIsReceived(src: Addr, dst: Addr, id: uint16, sequence: uint16, payload: seq<byte>)
    requires IsAddr(src) && IsAddr(dst) && ((src.V4? && dst.V4?) || (src.V6? && dst.V6?))
    requires (if src.V4? then 28 else 8) + |payload| < 0x1_0000
    ensures EchoPacket(src, dst, id, sequence, payload).Ok?
    ensures var r := Receive(EchoPacket(src, dst, id, sequence, payload).value);
            && r.Some? && r.value == Received(src.octets, dst.octets, if src.V4? then 1 else 58, 64, r.value.data)
            && ReceiveEcho(r.value) == Some(EchoRequest(id, sequence, payload))
  {
    hide Receive, IPv4Packet, IPv6Packet, Echo, RunningSum, Number, Checksum, Checksum6;
    if src.V4? {
      var d := EchoV4(id, sequence, payload);
      EchoOctets(8, id, sequence, payload, Checksum(Echo(8, id, sequence, payload, 0)));
      IPv4IsReceived(1, src.octets, dst.octets, d);
      EchoV4Verifies(id, sequence, payload);
      SumsToOnes(d);
    } else {
      var d := EchoV6(src.octets, dst.octets, id, sequence, payload);
      EchoV6IsReceived(src.octets, dst.octets, id, sequence, payload);
      IPv6IsReceived(58, src.octets, dst.octets, d);
    }
  }

  lemma EchoV6IsReceived(src: seq<byte>, dst: seq<byte>, id: uint16, sequence: uint16, payload: seq<byte>)
    requires |src| == 16 && |dst| == 16 && 8 + |payload| < 0x1_0000
    ensures var d := EchoV6(src, dst, id, sequence, payload);
            |d| < 0x1_0000 && ReceiveEcho(Received(src, dst, 58, 64, d)) == Some(EchoRequest(id, sequence, payload))
  {
    hide Echo, RunningSum, Number, Checksum6, Pseudo;
    var cs := Checksum6(src, dst, 58, Echo(128, id, sequence, payload, 0));
    EchoOctets(128, id, sequence, payload, cs);
    EchoV6Verifies(src, dst, id, sequence, payload);
    UpperSumsToOnes(Received(src, dst, 58, 64, EchoV6(src, dst, id, sequence, payload)));
  }

  // ---- The code's own parser on packets of others ----------------------------------------------

  /** Exactly what the parser refuses. */
  lemma ParserRefusesExactly(b: seq<byte>)
    ensures ParseInner(b) == Err(Empty) <==> b == []
    ensures ParseInner(b) == Err(UnknownVersion) <==> |b| > 0 && b[0] / 16 != 4 && b[0] / 16 != 6
    ensures ParseInner(b) == Err(NotIPv4) <==> 0 < |b| < 20 && b[0] / 16 == 4
    ensures ParseInner(b) == Err(HeaderTruncated) <==> |b| >= 20 && b[0] / 16 == 4 && |b| < 4 * (b[0] as int % 16)
    ensures ParseInner(b) == Err(NotIPv6) <==> 0 < |b| < 40 && b[0] / 16 == 6
    ensures ParseInner(b) != Err(AddressFamilies)
  {
  }

  /** An IPv4 packet with any number of options: the upper layer packet starts behind them. */
  lemma OptionsAreSkipped(words: nat, rest: seq<byte>, proto: byte, cs: seq<byte>, src: seq<byte>, dst: seq<byte>,
                          options: seq<byte>, l4: seq<byte>)
    requires 5 <= words < 16 && |rest| == 8 && |cs| == 2 && |src| == 4 && |dst| == 4 && |options| == 4 * (words - 5)
    ensures ParseInner([0x40 + words] + rest + [proto] + cs + src + dst + options + l4) ==
              Ok(WithTransport(Inner(src, dst, proto, 0, 0, 0, 0, 0, []), 1, l4))
  {
    var b := [0x40 + words] + rest + [proto] + cs + src + dst + options + l4;
    hide WithTransport;
    assert b == [0x40 + words] + (rest + ([proto] + (cs + (src + (dst + (options + l4))))));
    assert b[0] == 0x40 + words && b[9] == proto && b[12..16] == src && b[16..20] == dst;
    assert b[4 * words..] == l4;
  }

  /** An IPv6 packet with any traffic class, flow label and lengths. */
  lemma IPv6IsParsed(low: byte, rest: seq<byte>, next: byte, hops: byte, src: seq<byte>, dst: seq<byte>, upper: seq<byte>)
    requires low < 16 && |rest| == 5 && |src| == 16 && |dst| == 16
    ensures ParseInner([0x60 + low] + rest + [next, hops] + src + dst + upper) ==
              Ok(WithTransport(Inner(src, dst, next, 0, 0, 0, 0, 0, []), 58, upper))
  {
    var b := [0x60 + low] + rest + [next, hops] + src + dst + upper;
    hide WithTransport;
    assert b == [0x60 + low] + (rest + ([next, hops] + (src + (dst + upper))));
    assert b[0] == 0x60 + low && b[6] == next && b[8..24] == src && b[24..40] == dst && b[40..] == upper;
  }

  /** What is reported of the upper layer: type, identifier and sequence number of an ICMP message of any
      type, ports and payload of a datagram whatever its length and checksum fields say, and nothing of
      another protocol or of fewer than eight octets. */
  lemma TransportIsReported(p: Inner, icmp: byte, l4: seq<byte>)
    requires icmp in {1, 58} && p == Inner(p.src, p.dst, p.proto, 0, 0, 0, 0, 0, [])
    ensures var r := WithTransport(p, icmp, l4);
            if |l4| >= 8 && p.proto == icmp then
              r == Inner(p.src, p.dst, p.proto, l4[0], 0x100 * (l4[4] as int) + l4[5] as int,
                         0x100 * (l4[6] as int) + l4[7] as int, 0, 0, [])
            else if |l4| >= 8 && p.proto == 17 then
              r == Inner(p.src, p.dst, p.proto, 0, 0, 0, 0x100 * (l4[0] as int) + l4[1] as int,
                         0x100 * (l4[2] as int) + l4[3] as int, l4[8..])
            else r == p
  {
  }
}
