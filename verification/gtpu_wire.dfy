/** GTP-U messages octet by octet (section 5 of TS 29.281; section 5.5.2 of TS 38.415): what the encoders
    send, and what the decoder reports of anything received. */
module GtpuWire {
  import opened Words
  import opened ElementLists
  import opened GtpuElements
  import opened GtpuMessages

  // ---- What is sent ----------------------------------------------------------------------------

  /** The mandatory header: flags, type, the number of octets behind the first eight as far as sixteen bits
      hold it, and TEID. */
  ghost predicate StartsWith(b: seq<byte>, flags: byte, t: byte, teid: uint32) {
    && |b| >= 8 && b[0] == flags && b[1] == t
    && Number(b[2..4]) == (|b| - 8) % 0x1_0000 && Number(b[4..8]) == teid
  }

  lemma FixedStarts(flags: byte, t: byte, teid: uint32, rest: seq<byte>)
    ensures StartsWith(Fixed(flags, t, Low16(|rest|), teid) + rest, flags, t, teid)
  {
    var b := Fixed(flags, t, Low16(|rest|), teid) + rest;
    assert b[2..4] == Put16(Low16(|rest|)) && b[4..8] == Put32(teid);
    NumberOfTwo(Low16(|rest|));
    NumberOfFour(teid);
  }

  /** A G-PDU of 4G: version 1, protocol type GTP and no optional part. */
  lemma GPDUOctets(teid: uint32, tpdu: seq<byte>)
    ensures StartsWith(GPDU(teid, tpdu), 0x30, 255, teid) && GPDU(teid, tpdu)[8..] == tpdu
  {
    hide Fixed, StartsWith;
    FixedStarts(0x30, 255, teid, tpdu);
  }

  /** A G-PDU of 5G: the E flag, and one extension header of one unit, an uplink session container. */
  lemma GPDUWithQFIOctets(teid: uint32, qfi: byte, tpdu: seq<byte>)
    ensures var b := GPDUWithQFI(teid, qfi, tpdu);
            && StartsWith(b, 0x34, 255, teid)
            && b[8..16] == [0, 0, 0, 0x85, 1, 0x10, qfi % 64, 0] && b[16..] == tpdu
  {
    hide Fixed, StartsWith;
    var rest := [0, 0, 0, 0x85, 1, 0x10, qfi % 64, 0] + tpdu;
    FixedStarts(0x34, 255, teid, rest);
    assert GPDUWithQFI(teid, qfi, tpdu) == Fixed(0x34, 255, Low16(8 + |tpdu|), teid) + rest;
  }

  lemma EchoRequestOctets(sequence: uint16)
    ensures var b := EchoRequest(sequence);
            StartsWith(b, 0x32, 1, 0) && Number(b[8..10]) == sequence && b[10..] == [0, 0]
  {
    hide Fixed, StartsWith;
    FixedStarts(0x32, 1, 0, Optional(sequence, 0, 0));
    NumberOfTwo(sequence);
    assert EchoRequest(sequence)[8..10] == Put16(sequence);
  }

  // ---- What is received ------------------------------------------------------------------------

  /** Exactly what is refused: fewer than eight octets, a version other than 1 in the upper three bits, and
      an optional part that was announced and does not fit. */
  lemma RefusedExactly(b: seq<byte>)
    ensures Decoded(b) == Err(TooShort) <==> |b| < 8
    ensures Decoded(b) == Err(UnsupportedVersion) <==> |b| >= 8 && !(32 <= b[0] < 64)
    ensures Decoded(b) == Err(Truncated) <==> 8 <= |b| < 12 && 32 <= b[0] < 64 && b[0] % 8 != 0
  {
    hide Walk, Clip, ReadElements, U16, U32;
  }

  /** A message without optional part, of any type: its payload is exactly that of the declared length. */
  lemma PlainMessageIsDecoded(flags: byte, t: byte, teid: uint32, payload: seq<byte>, trailing: seq<byte>)
    requires flags / 32 == 1 && flags % 8 == 0 && |payload| < 0x1_0000
    ensures Decoded(Fixed(flags, t, |payload|, teid) + payload + trailing) ==
              Ok(Msg(t, teid, None, payload, None, if t != 255 then ReadElements(NO_ELEMENTS, payload) else NO_ELEMENTS))
  {
    hide Fixed, ReadElements, U16, U32, Walk, Decoded;
    FixedFields(flags, t, |payload|, teid);
    PlainFields(Fixed(flags, t, |payload|, teid), payload, trailing);
  }

  lemma PlainFields(f: seq<byte>, payload: seq<byte>, trailing: seq<byte>)
    requires |f| == 8 && f[0] / 32 == 1 && f[0] % 8 == 0 && U16(f[2], f[3]) == |payload|
    ensures Decoded(f + payload + trailing) ==
              Ok(Msg(f[1], U32(f[4..8]), None, payload, None, if f[1] != 255 then ReadElements(NO_ELEMENTS, payload) else NO_ELEMENTS))
  {
    hide ReadElements, U16, U32, Walk;
    var b := f + payload + trailing;
    assert b[4..8] == f[4..8] && b[8..8 + |payload|] == payload;
    assert Clip(b, 8, U16(b[2], b[3])) == payload;
    hide Clip;
  }

  /** A control message without optional part is decoded to the elements that count. */
  lemma PlainControlRoundTrip(flags: byte, t: byte, teid: uint32, es: seq<Element>, trailing: seq<byte>)
    requires flags / 32 == 1 && flags % 8 == 0 && t != 255
    requires (forall x | x in es :: IsElement(x)) && |AllOctets(Octets, es)| < 0x1_0000
    ensures Decoded(Fixed(flags, t, |AllOctets(Octets, es)|, teid) + AllOctets(Octets, es) + trailing) ==
              Ok(Msg(t, teid, None, AllOctets(Octets, es), None, Kept(NO_ELEMENTS, es)))
  {
    hide Fixed, Decoded, ReadElements, Kept, IsElement;
    PlainMessageIsDecoded(flags, t, teid, AllOctets(Octets, es), trailing);
    ReadsExactlyTheList(NO_ELEMENTS, es, []);
    assert AllOctets(Octets, es) + [] == AllOctets(Octets, es);
  }

  /** A declared length beyond the datagram is read as the datagram's own. */
  lemma ShortDatagram(b: seq<byte>)
    requires 8 <= |b| < 8 + U16(b[2], b[3])
    ensures Decoded(b) == Decoded(b[..2] + Put16(|b| - 8) + b[4..])
  {
    var n: uint16 := |b| - 8;
    var c := b[..2] + Put16(n) + b[4..];
    assert c[..2] == b[..2] && c[2..4] == Put16(n) && c[4..] == b[4..];
    assert U16(c[2], c[3]) == n;
    hide Put16, U16, U32, ReadElements, Decoded, Walk;
    assert forall i | 0 <= i < |b| && i != 2 && i != 3 :: c[i] == b[i];
    assert c[4..8] == b[4..8];
    if |b| >= 12 { SameWalk(b, c, 12, b[11], None); }
    SameUpToLength(b, c);
  }

  lemma SameUpToLength(b: seq<byte>, c: seq<byte>)
    requires |b| == |c| >= 8 && c[0] == b[0] && c[1] == b[1] && c[4..] == b[4..]
    requires 8 + U16(b[2], b[3]) >= |b| && 8 + U16(c[2], c[3]) == |c|
    requires |b| >= 12 ==> Walk(b, 12, b[11], None) == Walk(c, 12, b[11], None)
    ensures Decoded(b) == Decoded(c)
  {
    hide U16, U32, ReadElements, Walk;
    assert c[4..8] == c[4..][..4] == b[4..8];
    forall start: nat | 8 <= start <= |b| ensures Clip(b, start, U16(b[2], b[3])) == Clip(c, start, U16(c[2], c[3])) {
      assert b[start..|b|] == b[4..][start - 4..] && c[start..|c|] == c[4..][start - 4..];
    }
    hide Clip;
    if |b| >= 12 {
      assert b[8] == b[4..][4] && b[9] == b[4..][5] && b[11] == b[4..][7];
      assert c[8] == c[4..][4] && c[9] == c[4..][5] && c[11] == c[4..][7];
    }
  }

  lemma {:induction false} SameWalk(b: seq<byte>, c: seq<byte>, pos: nat, next: byte, found: Option<Container>)
    requires |b| == |c| && 4 <= pos <= |b| && forall i | 4 <= i < |b| :: c[i] == b[i]
    ensures Walk(b, pos, next, found) == Walk(c, pos, next, found)
    decreases |b| - pos
  {
    var n := ExtensionLength(b, pos);
    assert ExtensionLength(c, pos) == n;
    if next != 0 && n != 0 {
      assert c[pos + 1..pos + n - 1] == b[pos + 1..pos + n - 1];
      WalkSteps(b, pos, next, found);
      WalkSteps(c, pos, next, found);
      hide Walk, ReadContainer, ExtensionLength;
      SameWalk(b, c, pos + n, b[pos + n - 1],
               if next == PDU_SESSION_CONTAINER then ReadContainer(b[pos + 1..pos + n - 1]) else found);
    }
  }

  /** A header that cannot be read, because nothing is left, its length is 0 or it does not fit, ends the chain
      and belongs to the payload. */
  lemma UnreadableHeaderIsPayload(h: Header, next: byte, rest: seq<byte>)
    requires h.flags / 32 == 1 && h.flags % 8 != 0 && 4 + |rest| < 0x1_0000
    requires rest == [] || rest[0] == 0 || 4 * (rest[0] as int) > |rest|
    ensures var r := Decoded(Fixed(h.flags, h.t, 4 + |rest|, h.teid) + Optional(h.sequence, h.npdu, next) + rest);
            r.Ok? && r.value.payload == rest && r.value.pduSession == None
  {
    var f, o := Fixed(h.flags, h.t, 4 + |rest|, h.teid), Optional(h.sequence, h.npdu, next);
    FixedFields(h.flags, h.t, 4 + |rest|, h.teid);
    var b := f + o + rest;
    hide Fixed, Optional, U16, U32, ReadElements, Decoded;
    assert b[0] == f[0] && b[2] == f[2] && b[3] == f[3] && b[11] == o[3] && b[12..] == rest && b[12..|b|] == rest;
    assert rest != [] ==> b[12] == rest[0];
    assert Walk(b, 12, b[11], None) == (12, None);
    hide Walk;
    OptionalIsDecoded(b, b, |b|);
    AssembledShows(b, rest, None);
  }

  // ---- Session containers ----------------------------------------------------------------------

  /** The two forms of PDU session information: PDU type, flags, paging policy presence and reflective QoS
      in the downlink, other bits in the uplink, PDU type 1, and the reserved types, the QFI, and further fields. */
  datatype SessionInfo =
    | DownlinkInfo(flags: byte, ppp: bool, rqi: bool, qfi: byte, more: seq<byte>)
    | UplinkInfo(pduType: byte, flags: byte, top: byte, qfi: byte, more: seq<byte>)

  predicate IsInfo(i: SessionInfo) {
    && i.flags < 16 && i.qfi < 64 && |i.more| % 4 == 0 && |i.more| <= 1016
    && (i.UplinkInfo? ==> 1 <= i.pduType < 16 && i.top < 4)
  }

  function InfoOctets(i: SessionInfo): seq<byte>
    requires IsInfo(i)
  {
    match i
    case DownlinkInfo(flags, ppp, rqi, qfi, more) =>
      [flags, (if ppp then 0x80 else 0) + (if rqi then 0x40 else 0) + qfi] + more
    case UplinkInfo(pduType, flags, top, qfi, more) => [0x10 * pduType + flags, 0x40 * top + qfi] + more
  }

  function Session(i: SessionInfo): Extension
    requires IsInfo(i)
  {
    Extension(0x85, InfoOctets(i))
  }

  /** What is reported: the QFI in both forms, the reflective QoS indication in the downlink only. */
  function Reported(i: SessionInfo): Container {
    match i
    case DownlinkInfo(_, _, rqi, qfi, _) => Container(0, qfi, Some(rqi))
    case UplinkInfo(pduType, _, _, qfi, _) => Container(pduType, qfi, None)
  }

  lemma InfoIsRead(i: SessionInfo)
    requires IsInfo(i)
    ensures IsExtension(Session(i)) && ReadContainer(InfoOctets(i)) == Some(Reported(i))
  {
  }

  lemma {:induction false} LastContainerAt(xs: seq<Extension>, x: Extension, ys: seq<Extension>)
    requires x.t == 0x85 && forall y | y in ys :: y.t != 0x85
    ensures LastContainer(xs + [x] + ys, None) == ReadContainer(x.content)
  {
    var all := xs + [x] + ys;
    hide ReadContainer;
    if ys == [] {
      assert all[|all| - 1] == x;
    } else {
      var n := |ys| - 1;
      LastContainerAt(xs, x, ys[..n]);
      assert all[|all| - 1] == ys[n] && all[..|all| - 1] == xs + [x] + ys[..n];
    }
  }

  /** Every session container, of either direction, that is the last one in a chain of headers is reported
      as written, whatever precedes and follows it. */
  lemma SessionIsReported(h: Header, xs: seq<Extension>, i: SessionInfo, ys: seq<Extension>, payload: seq<byte>,
                          trailing: seq<byte>)
    requires IsInfo(i) && (forall x | x in xs + ys :: IsExtension(x)) && forall y | y in ys :: y.t != 0x85
    requires h.flags / 32 == 1 && h.flags % 8 != 0
    ensures forall x | x in xs + [Session(i)] + ys :: IsExtension(x)
    ensures var all := xs + [Session(i)] + ys;
            4 + |Chain(all)| + |payload| < 0x1_0000 ==>
              && var r := Decoded(Packet(h, all, payload) + trailing);
                 r.Ok? && r.value.payload == payload && r.value.pduSession == Some(Reported(i))
  {
    var all := xs + [Session(i)] + ys;
    InfoIsRead(i);
    hide IsExtension, ReadContainer, Decoded, Packet, Chain, InfoOctets, ReadElements;
    assert forall x | x in all :: x in xs + ys || x == Session(i);
    LastContainerAt(xs, Session(i), ys);
    if 4 + |Chain(all)| + |payload| < 0x1_0000 { ChainIsSkipped(h, all, payload, trailing); }
  }
}
