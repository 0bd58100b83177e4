/** GTP-U messages (internal/gtpu/message.go; section 5 of TS 29.281). */
module GtpuMessages {
  import opened Words
  import opened Buffers
  import opened ElementLists
  import opened GtpuElements

  const MSG_ECHO_REQUEST: byte := 1
  const MSG_GPDU: byte := 255
  const PDU_SESSION_CONTAINER: byte := 0x85

  datatype Container = Container(pduType: byte, qfi: byte, rqi: Option<bool>)

  datatype Msg = Msg(t: byte, teid: uint32, sequence: Option<uint16>, payload: seq<byte>,
                     pduSession: Option<Container>, elements: Elements)

  datatype DecodeError = TooShort | UnsupportedVersion | Truncated

  // ---- Decoding --------------------------------------------------------------------------------

  /** decodePDUSessionContainer: the RQI exists only in the downlink direction, PDU type 0. */
  function ReadContainer(c: seq<byte>): Option<Container> {
    if |c| < 2 then None
    else Some(Container(c[0] / 16, c[1] % 64, if c[0] / 16 == 0 then Some(c[1] / 64 % 2 == 1) else None))
  }

  /** The length of the extension header at `pos`, or 0 when the chain cannot be followed there. */
  function ExtensionLength(b: seq<byte>, pos: nat): (n: nat)
    ensures n > 0 ==> pos + n <= |b|
  {
    if pos >= |b| || pos + 4 * (b[pos] as int) > |b| then 0 else 4 * (b[pos] as int)
  }

  /** Where the chain of extension headers ends, and the container it leaves. */
  function Walk(b: seq<byte>, pos: nat, next: byte, found: Option<Container>): (r: (nat, Option<Container>))
    requires pos <= |b|
    ensures pos <= r.0 <= |b|
    decreases |b| - pos
  {
    var n := ExtensionLength(b, pos);
    if next == 0 || n == 0 then (pos, found)
    else
      Walk(b, pos + n, b[pos + n - 1],
           if next == PDU_SESSION_CONTAINER then ReadContainer(b[pos + 1..pos + n - 1]) else found)
  }

  /** The payload: from `start` to the declared end, both clipped to what was received. */
  function Clip(b: seq<byte>, start: nat, length: nat): seq<byte>
    requires |b| >= 8
  {
    var end := if 8 + length > |b| then |b| else 8 + length;
    b[if start > end then end else start..end]
  }

  function Decoded(b: seq<byte>): Result<Msg, DecodeError> {
    if |b| < 8 then Err(TooShort)
    else if b[0] / 32 != 1 then Err(UnsupportedVersion)
    else if b[0] % 8 != 0 && |b| < 12 then Err(Truncated)
    else
      var optional := b[0] % 8 != 0;
      var walk := if optional then Walk(b, 12, b[11], None) else (8, None);
      var payload := Clip(b, walk.0, U16(b[2], b[3]));
      Ok(Msg(b[1], U32(b[4..8]),
             if optional && b[0] / 2 % 2 == 1 then Some(U16(b[8], b[9])) else None,
             payload, walk.1,
             if b[1] != MSG_GPDU then ReadElements(NO_ELEMENTS, payload) else NO_ELEMENTS))
  }

  class Message {
    var t: byte
    var teid: uint32
    var sequence: uint16
    var hasSequence: bool
    var payload: seq<byte>
    var pduSession: Option<Container>
    var recovery: Option<byte>
    var teidDataI: Option<uint32>
    var peerAddress: seq<byte>

    constructor (t: byte, teid: uint32)
      ensures Value() == Msg(t, teid, None, [], None, NO_ELEMENTS) && sequence == 0
    {
      this.t, this.teid, sequence, hasSequence := t, teid, 0, false;
      payload, pduSession, recovery, teidDataI, peerAddress := [], None, None, None, [];
    }

    ghost function Read(): Elements
      reads this
    {
      Elements(recovery, teidDataI, peerAddress)
    }

    ghost function Value(): Msg
      reads this
    {
      Msg(t, teid, if hasSequence then Some(sequence) else None, payload, pduSession, Read())
    }

    method SetIE(ieType: byte, value: seq<byte>)
      requires Fits(ieType, value)
      modifies this`recovery, this`teidDataI, this`peerAddress
      ensures Read() == WithElement(old(Read()), ieType, value)
    {
      if ieType == IE_RECOVERY {
        recovery := Some(value[0]);
      } else if ieType == IE_TEID_DATA_I {
        teidDataI := Some(U32(value));
      } else if ieType == IE_PEER_ADDRESS {
        if |value| == 4 || |value| == 16 {
          peerAddress := Unmap(value);
        }
      }
    }

    method DecodeIEs(b: seq<byte>)
      modifies this`recovery, this`teidDataI, this`peerAddress
      ensures Read() == ReadElements(old(Read()), b)
    {
      hide ElementValue, WithElement;
      var i := 0;
      assert b[0..] == b;
      while i < |b|
        invariant 0 <= i <= |b|
        invariant ReadElements(Read(), b[i..]) == ReadElements(old(Read()), b)
      {
        var ieType := b[i];
        if ieType < 0x80 {
          var n := FixedLength(ieType);
          if n.None? || i + 1 + n.value > |b| { return; }
          FixedElementAt(b, i, n.value);
          SetIE(ieType, b[i + 1..i + 1 + n.value]);
          i := i + 1 + n.value;
          continue;
        }
        if i + 3 > |b| { return; }
        var n: nat := U16(b[i + 1], b[i + 2]);
        if i + 3 + n > |b| { return; }
        VariableElementAt(b, i, n);
        SetIE(ieType, b[i + 3..i + 3 + n]);
        i := i + 3 + n;
      }
    }
  }

  /** The optional part: the sequence number and the chain of extension headers. */
  method DecodeOptional(m: Message, b: seq<byte>) returns (payloadStart: nat)
    requires |b| >= 12
    modifies m`sequence, m`hasSequence, m`pduSession
    ensures (payloadStart, m.pduSession) == Walk(b, 12, b[11], old(m.pduSession))
    ensures if b[0] / 2 % 2 == 1 then m.hasSequence && m.sequence == U16(b[8], b[9])
            else m.hasSequence == old(m.hasSequence) && m.sequence == old(m.sequence)
  {
    if b[0] / 2 % 2 == 1 {
      m.sequence := U16(b[8], b[9]);
      m.hasSequence := true;
    }
    var nextExt := b[11];
    payloadStart := 12;
    while nextExt != 0
      invariant 12 <= payloadStart <= |b|
      invariant Walk(b, 12, b[11], old(m.pduSession)) == Walk(b, payloadStart, nextExt, m.pduSession)
      modifies m`pduSession
      decreases |b| - payloadStart, nextExt
    {
      if payloadStart >= |b| { return; }
      var extLen: nat := 4 * (b[payloadStart] as int);
      if extLen == 0 || payloadStart + extLen > |b| { return; }
      if nextExt == PDU_SESSION_CONTAINER {
        m.pduSession := ReadContainer(b[payloadStart + 1..payloadStart + extLen - 1]);
      }
      nextExt := b[payloadStart + extLen - 1];
      payloadStart := payloadStart + extLen;
    }
  }

  method Decode(b: seq<byte>) returns (r: Result<Message, DecodeError>)
    ensures r.Ok? ==> fresh(r.value)
    ensures Decoded(b) == match r case Ok(m) => Ok(m.Value()) case Err(e) => Err(e)
  {
    hide Walk, ReadElements, U16, U32;
    if |b| < 8 { return Err(TooShort); }
    var flags := b[0];
    if flags / 32 != 1 { return Err(UnsupportedVersion); }
    var m := new Message(b[1], U32(b[4..8]));
    var length := U16(b[2], b[3]);
    var payloadStart := 8;
    if flags % 8 != 0 {
      if |b| < 12 { return Err(Truncated); }
      payloadStart := DecodeOptional(m, b);
    }
    var end: nat := 8 + length as int;
    if end > |b| { end := |b|; }
    if payloadStart > end { payloadStart := end; }
    m.payload := b[payloadStart..end];
    if m.t != MSG_GPDU {
      m.DecodeIEs(m.payload);
    }
    return Ok(m);
  }

  // ---- Messages as the standard writes them ----------------------------------------------------

  datatype Extension = Extension(t: byte, content: seq<byte>)

  /** An extension header occupies a positive number of units of four octets: its length, its content
      and the type of the next one. */
  predicate IsExtension(x: Extension) {
    x.t != 0 && |x.content| >= 2 && (|x.content| + 2) % 4 == 0 && (|x.content| + 2) / 4 <= 255
  }

  function NextType(xs: seq<Extension>): byte {
    if xs == [] then 0 else xs[0].t
  }

  function Chain(xs: seq<Extension>): seq<byte>
    requires forall x | x in xs :: IsExtension(x)
  {
    if xs == [] then []
    else Single(xs[0], NextType(xs[1..])) + Chain(xs[1..])
  }

  function Single(x: Extension, next: byte): (b: seq<byte>)
    requires IsExtension(x)
    ensures |b| == |x.content| + 2 && b[0] == |b| / 4 && b[1..|b| - 1] == x.content && b[|b| - 1] == next
  {
    var units: byte := (|x.content| + 2) / 4;
    [units] + x.content + [next]
  }

  /** The last PDU Session Container of a chain. */
  function LastContainer(xs: seq<Extension>, otherwise: Option<Container>): Option<Container> {
    if xs == [] then otherwise
    else if xs[|xs| - 1].t == PDU_SESSION_CONTAINER then ReadContainer(xs[|xs| - 1].content)
    else LastContainer(xs[..|xs| - 1], otherwise)
  }

  /** A message with the optional part: sequence number, N-PDU number and extension headers. */
  datatype Header = Header(flags: byte, t: byte, teid: uint32, sequence: uint16, npdu: byte)

  function Fixed(flags: byte, t: byte, length: uint16, teid: uint32): (b: seq<byte>)
    ensures |b| == 8
  {
    [flags, t, length / 0x100, length % 0x100, Put32(teid)[0], Put32(teid)[1], Put32(teid)[2], Put32(teid)[3]]
  }

  lemma FixedFields(flags: byte, t: byte, length: uint16, teid: uint32)
    ensures var b := Fixed(flags, t, length, teid);
            b[0] == flags && b[1] == t && U16(b[2], b[3]) == length && U32(b[4..8]) == teid
  {
    assert Fixed(flags, t, length, teid)[4..8] == Put32(teid);
    U32OfPut32(teid);
  }

  function Optional(sequence: uint16, npdu: byte, next: byte): (b: seq<byte>)
    ensures |b| == 4 && U16(b[0], b[1]) == sequence && b[3] == next
  {
    Put16(sequence) + [npdu, next]
  }

  function Packet(h: Header, xs: seq<Extension>, payload: seq<byte>): seq<byte>
    requires forall x | x in xs :: IsExtension(x)
    requires 4 + |Chain(xs)| + |payload| < 0x1_0000
  {
    Fixed(h.flags, h.t, 4 + |Chain(xs)| + |payload|, h.teid) + Optional(h.sequence, h.npdu, NextType(xs))
    + Chain(xs) + payload
  }

  function ContainerOr(x: Extension, otherwise: Option<Container>): Option<Container> {
    if x.t == PDU_SESSION_CONTAINER then ReadContainer(x.content) else otherwise
  }

  lemma {:induction false} LastContainerFromTheFront(xs: seq<Extension>, otherwise: Option<Container>)
    requires xs != []
    ensures LastContainer(xs, otherwise) == LastContainer(xs[1..], ContainerOr(xs[0], otherwise))
  {
    if |xs| > 1 {
      assert xs[1..][..|xs| - 2] == xs[..|xs| - 1][1..];
      LastContainerFromTheFront(xs[..|xs| - 1], otherwise);
    } else {
      assert xs[..0] == [] && xs[1..] == [];
    }
  }

  lemma WalkStops(b: seq<byte>, pos: nat, found: Option<Container>)
    requires pos <= |b|
    ensures Walk(b, pos, 0, found) == (pos, LastContainer([], found))
  {
  }

  lemma WalkPassesOne(b: seq<byte>, pos: nat, x: Extension, next: byte, found: Option<Container>)
    requires IsExtension(x)
    requires pos + |Single(x, next)| <= |b| && b[pos..pos + |Single(x, next)|] == Single(x, next)
    ensures Walk(b, pos, x.t, found) ==
              Walk(b, pos + |Single(x, next)|, next, ContainerOr(x, found))
  {
    var one := Single(x, next);
    var n := |one|;
    assert b[pos] == one[0] && b[pos + n - 1] == one[n - 1];
    SubSlice(b, pos, n, 1, n - 1);
    assert ExtensionLength(b, pos) == n;
  }

  /** Following a chain ends right behind it. */
  lemma {:induction false} WalkFollowsChain(b: seq<byte>, pos: nat, xs: seq<Extension>, found: Option<Container>)
    requires forall x | x in xs :: IsExtension(x)
    requires pos + |Chain(xs)| <= |b| && b[pos..pos + |Chain(xs)|] == Chain(xs)
    ensures Walk(b, pos, NextType(xs), found) == (pos + |Chain(xs)|, LastContainer(xs, found))
    decreases |xs|
  {
    hide Walk, Single, ContainerOr, LastContainer, ReadContainer, IsExtension;
    if xs == [] {
      WalkStops(b, pos, found);
    } else {
      var x, rest := xs[0], xs[1..];
      var one := Single(x, NextType(rest));
      var n, m := |one|, |Chain(xs)|;
      assert Chain(xs)[..n] == one && Chain(xs)[n..] == Chain(rest);
      SubSlice(b, pos, m, 0, n);
      SubSlice(b, pos, m, n, m);
      WalkPassesOne(b, pos, x, NextType(rest), found);
      WalkFollowsChain(b, pos + n, rest, ContainerOr(x, found));
      LastContainerFromTheFront(xs, found);
    }
  }

  /** The fields of a received message with optional part, chain and payload. */
  ghost predicate LaidOut(b: seq<byte>, h: Header, xs: seq<Extension>, payload: seq<byte>)
    requires forall x | x in xs :: IsExtension(x)
  {
    var n := |Chain(xs)|;
    && |b| >= 12 + n + |payload|
    && b[0] == h.flags && b[1] == h.t && U16(b[2], b[3]) == 4 + n + |payload| && U32(b[4..8]) == h.teid
    && U16(b[8], b[9]) == h.sequence && b[11] == NextType(xs)
    && b[12..12 + n] == Chain(xs) && b[12 + n..12 + n + |payload|] == payload
  }

  lemma LaidOutIsDecoded(b: seq<byte>, h: Header, xs: seq<Extension>, payload: seq<byte>)
    requires (forall x | x in xs :: IsExtension(x)) && LaidOut(b, h, xs, payload)
    requires h.flags / 32 == 1 && h.flags % 8 != 0
    ensures Decoded(b) ==
              Ok(Msg(h.t, h.teid, if h.flags / 2 % 2 == 1 then Some(h.sequence) else None, payload, LastContainer(xs, None),
                     if h.t != MSG_GPDU then ReadElements(NO_ELEMENTS, payload) else NO_ELEMENTS))
  {
    WalkFollowsChain(b, 12, xs, None);
    assert Walk(b, 12, b[11], None) == (12 + |Chain(xs)|, LastContainer(xs, None));
    assert Clip(b, 12 + |Chain(xs)|, U16(b[2], b[3])) == payload;
  }

  lemma PacketIsLaidOut(h: Header, xs: seq<Extension>, payload: seq<byte>, trailing: seq<byte>)
    requires forall x | x in xs :: IsExtension(x)
    requires 4 + |Chain(xs)| + |payload| < 0x1_0000
    ensures LaidOut(Packet(h, xs, payload) + trailing, h, xs, payload)
  {
    hide Fixed, U16, U32, Chain;
    var f := Fixed(h.flags, h.t, 4 + |Chain(xs)| + |payload|, h.teid);
    var o := Optional(h.sequence, h.npdu, NextType(xs));
    FixedFields(h.flags, h.t, 4 + |Chain(xs)| + |payload|, h.teid);
    PartsAreLaidOut(f, o, h, xs, payload, trailing);
    assert Packet(h, xs, payload) + trailing == f + (o + (Chain(xs) + (payload + trailing)));
  }

  lemma PartsAreLaidOut(f: seq<byte>, o: seq<byte>, h: Header, xs: seq<Extension>, payload: seq<byte>, trailing: seq<byte>)
    requires forall x | x in xs :: IsExtension(x)
    requires |f| == 8 && f[0] == h.flags && f[1] == h.t && U32(f[4..8]) == h.teid
    requires U16(f[2], f[3]) == 4 + |Chain(xs)| + |payload|
    requires |o| == 4 && U16(o[0], o[1]) == h.sequence && o[3] == NextType(xs)
    ensures LaidOut(f + (o + (Chain(xs) + (payload + trailing))), h, xs, payload)
  {
    hide Chain, U16, U32, IsExtension;
    var c := Chain(xs);
    var b := f + (o + (c + (payload + trailing)));
    assert b[4..8] == f[4..8];
    assert b[12..12 + |c|] == c;
    assert b[12 + |c|..12 + |c| + |payload|] == payload;
  }

  /** Extension chains: a well-formed message with optional part is decoded to exactly its payload,
      whatever the number and lengths of its extension headers; the PDU session is that of the last
      container in the chain, and octets behind the declared length are ignored. */
  lemma ChainIsSkipped(h: Header, xs: seq<Extension>, payload: seq<byte>, trailing: seq<byte>)
    requires forall x | x in xs :: IsExtension(x)
    requires 4 + |Chain(xs)| + |payload| < 0x1_0000
    requires h.flags / 32 == 1 && h.flags % 8 != 0
    ensures Decoded(Packet(h, xs, payload) + trailing) ==
              Ok(Msg(h.t, h.teid, if h.flags / 2 % 2 == 1 then Some(h.sequence) else None, payload, LastContainer(xs, None),
                     if h.t != MSG_GPDU then ReadElements(NO_ELEMENTS, payload) else NO_ELEMENTS))
  {
    PacketIsLaidOut(h, xs, payload, trailing);
    LaidOutIsDecoded(Packet(h, xs, payload) + trailing, h, xs, payload);
  }

  /** The type octet the walk stops at: 0 when the chain has ended. */
  ghost function PendingType(b: seq<byte>, pos: nat, next: byte): byte
    requires pos <= |b|
    decreases |b| - pos
  {
    var n := ExtensionLength(b, pos);
    if next == 0 || n == 0 then next else PendingType(b, pos + n, b[pos + n - 1])
  }

  /** The walk over a received message is the walk over its first `end` octets, continued. */
  lemma {:induction false} WalkContinues(b: seq<byte>, end: nat, pos: nat, next: byte, found: Option<Container>)
    requires pos <= end <= |b|
    ensures var w := Walk(b[..end], pos, next, found);
            Walk(b, pos, next, found) == Walk(b, w.0, PendingType(b[..end], pos, next), w.1)
    decreases end - pos
  {
    var c, n := b[..end], ExtensionLength(b[..end], pos);
    if next == 0 || n == 0 {
      hide ReadContainer, ExtensionLength;
      assert Walk(c, pos, next, found) == (pos, found) && PendingType(c, pos, next) == next;
    } else {
      assert ExtensionLength(b, pos) == n && c[pos + 1..pos + n - 1] == b[pos + 1..pos + n - 1];
      hide Walk, PendingType, ReadContainer, ExtensionLength;
      WalkSteps(b, pos, next, found);
      WalkSteps(c, pos, next, found);
      WalkContinues(b, end, pos + n, b[pos + n - 1],
                    if next == PDU_SESSION_CONTAINER then ReadContainer(b[pos + 1..pos + n - 1]) else found);
    }
  }

  lemma WalkSteps(b: seq<byte>, pos: nat, next: byte, found: Option<Container>)
    requires pos <= |b| && next != 0 && ExtensionLength(b, pos) != 0
    ensures var n := ExtensionLength(b, pos);
            && n >= 2
            && Walk(b, pos, next, found) ==
                 Walk(b, pos + n, b[pos + n - 1],
                      if next == PDU_SESSION_CONTAINER then ReadContainer(b[pos + 1..pos + n - 1]) else found)
            && PendingType(b, pos, next) == PendingType(b, pos + n, b[pos + n - 1])
  {
    hide ReadContainer;
  }

  /** Stopping within `end` octets, the walk can go on in the whole message only past that end. */
  lemma {:induction false} StopsAtEnd(b: seq<byte>, end: nat, pos: nat, next: byte, found: Option<Container>)
    requires pos <= end <= |b|
    ensures var w := Walk(b[..end], pos, next, found);
            && w.0 <= end
            && (PendingType(b[..end], pos, next) != 0 && ExtensionLength(b, w.0) != 0 ==> w.0 + ExtensionLength(b, w.0) > end)
    decreases end - pos
  {
    var n := ExtensionLength(b[..end], pos);
    if next != 0 && n != 0 {
      StopsAtEnd(b, end, pos + n, b[pos + n - 1],
                 if next == PDU_SESSION_CONTAINER then ReadContainer(b[..end][pos + 1..pos + n - 1]) else found);
    }
  }

  /** The content of the last PDU Session Container in the chain that starts at `pos`. */
  ghost function LastSession(b: seq<byte>, pos: nat, next: byte): Option<seq<byte>>
    requires pos <= |b|
    decreases |b| - pos
  {
    var n := ExtensionLength(b, pos);
    if next == 0 || n == 0 then None
    else
      var later := LastSession(b, pos + n, b[pos + n - 1]);
      if later.None? && next == PDU_SESSION_CONTAINER then Some(b[pos + 1..pos + n - 1]) else later
  }

  lemma {:induction false} WalkFindsLastSession(b: seq<byte>, pos: nat, next: byte, found: Option<Container>)
    requires pos <= |b|
    ensures var last := LastSession(b, pos, next);
            Walk(b, pos, next, found).1 == if last.None? then found else ReadContainer(last.value)
    decreases |b| - pos
  {
    var n := ExtensionLength(b, pos);
    if next != 0 && n != 0 {
      WalkSteps(b, pos, next, found);
      hide Walk, ReadContainer, ExtensionLength;
      WalkFindsLastSession(b, pos + n, b[pos + n - 1],
                           if next == PDU_SESSION_CONTAINER then ReadContainer(b[pos + 1..pos + n - 1]) else found);
    }
  }

  /** The chain of a message does not run on behind its declared end, unless it gets exactly there and
      continues without a session container, or with a last one that reads as the one already found. */
  ghost predicate StaysWithin(b: seq<byte>, end: nat)
    requires 12 <= end <= |b|
  {
    var w, next := Walk(b[..end], 12, b[11], None), PendingType(b[..end], 12, b[11]);
    var last := LastSession(b, end, next);
    next == 0 || ExtensionLength(b, w.0) == 0 || (w.0 == end && (last.None? || ReadContainer(last.value) == w.1))
  }

  /** Octets behind the declared length: exactly when they make no difference, for any octets received. With
      an optional part the declared length has to cover it, and the chain must stay within that length. */
  lemma TrailingOctets(b: seq<byte>)
    requires |b| >= 8 && 8 + U16(b[2], b[3]) <= |b|
    ensures var end := 8 + U16(b[2], b[3]);
            Decoded(b) == Decoded(b[..end]) <==>
              b[0] / 32 != 1 || b[0] % 8 == 0 || |b| < 12 || (end >= 12 && StaysWithin(b, end))
  {
    var end: nat := 8 + U16(b[2], b[3]);
    hide U16, Decoded, StaysWithin;
    if b[0] / 32 == 1 && b[0] % 8 != 0 && end >= 12 {
      TrailingBehindChain(b, end);
    } else {
      WithoutChain(b, end);
    }
  }

  lemma TrailingBehindChain(b: seq<byte>, end: nat)
    requires 12 <= end <= |b| && end == 8 + U16(b[2], b[3])
    requires b[0] / 32 == 1 && b[0] % 8 != 0
    ensures Decoded(b) == Decoded(b[..end]) <==> StaysWithin(b, end)
  {
    hide U16, U32, Decoded, Clip, Assembled, Walk, PendingType, ExtensionLength, LastSession, ReadContainer;
    var w, v := Walk(b[..end], 12, b[11], None), Walk(b, 12, b[11], None);
    WalkFindsLastSession(b, end, PendingType(b[..end], 12, b[11]), w.1);
    ChainAtEnd(b, end);
    OptionalIsDecoded(b, b, end);
    OptionalIsDecoded(b[..end], b, end);
    var p, q := b[w.0..end], if v.0 > end then [] else b[v.0..end];
    AssembledFromParts(b, q, v.1, p, w.1);
    assert |p| == end - w.0;
  }

  lemma WithoutChain(b: seq<byte>, end: nat)
    requires 8 <= end <= |b| && end == 8 + U16(b[2], b[3])
    requires b[0] / 32 != 1 || b[0] % 8 == 0 || end < 12
    ensures Decoded(b) == Decoded(b[..end]) <==> b[0] / 32 != 1 || b[0] % 8 == 0 || |b| < 12
  {
    var c := b[..end];
    assert c[4..8] == b[4..8];
    hide U16, U32, ReadElements, Walk;
    assert Clip(c, 8, U16(c[2], c[3])) == Clip(b, 8, U16(b[2], b[3]));
  }

  lemma ChainAtEnd(b: seq<byte>, end: nat)
    requires 12 <= end <= |b|
    ensures var w, next := Walk(b[..end], 12, b[11], None), PendingType(b[..end], 12, b[11]);
            var v := Walk(b, 12, b[11], None);
            && w.0 <= end
            && if next == 0 || ExtensionLength(b, w.0) == 0 then v == w
               else v.0 > end && v.1 == Walk(b, w.0, next, w.1).1
  {
    WalkContinues(b, end, 12, b[11], None);
    StopsAtEnd(b, end, 12, b[11], None);
    hide ReadContainer, ExtensionLength;
    var w, next := Walk(b[..end], 12, b[11], None), PendingType(b[..end], 12, b[11]);
    if next != 0 && ExtensionLength(b, w.0) != 0 {
      assert Walk(b, w.0, next, w.1).0 >= w.0 + ExtensionLength(b, w.0);
    }
  }

  /** A message with optional part, put together from the octets before the chain, a payload and a session. */
  ghost function Assembled(b: seq<byte>, payload: seq<byte>, session: Option<Container>): Msg
    requires |b| >= 12
  {
    Msg(b[1], U32(b[4..8]), if b[0] / 2 % 2 == 1 then Some(U16(b[8], b[9])) else None, payload, session,
        if b[1] != MSG_GPDU then ReadElements(NO_ELEMENTS, payload) else NO_ELEMENTS)
  }

  lemma AssembledFromParts(b: seq<byte>, p: seq<byte>, s: Option<Container>, q: seq<byte>, r: Option<Container>)
    requires |b| >= 12
    ensures Assembled(b, p, s) == Assembled(b, q, r) <==> p == q && s == r
  {
  }

  lemma OptionalIsDecoded(c: seq<byte>, b: seq<byte>, end: nat)
    requires 12 <= end <= |b| && end == 8 + U16(b[2], b[3]) && (c == b || c == b[..end])
    requires b[0] / 32 == 1 && b[0] % 8 != 0
    ensures var v := Walk(c, 12, b[11], None);
            Decoded(c) == Ok(Assembled(b, if v.0 > end then [] else b[v.0..end], v.1))
  {
    assert c[4..8] == b[4..8];
    hide U16, U32, ReadElements, Walk;
    var v := Walk(c, 12, b[11], None);
    assert Clip(c, v.0, U16(c[2], c[3])) == if v.0 > end then [] else b[v.0..end];
  }

  /** Such octets do make a difference: a message whose declared length ends with its optional part takes
      the session container of any chain of headers behind its end. */
  lemma ContainerBehindTheEnd(h: Header, xs: seq<Extension>, payload: seq<byte>)
    requires forall x | x in xs :: IsExtension(x)
    requires h.flags / 32 == 1 && h.flags % 8 != 0 && h.t == MSG_GPDU
    ensures var b := Fixed(h.flags, h.t, 4, h.teid) + Optional(h.sequence, h.npdu, NextType(xs)) + (Chain(xs) + payload);
            && Decoded(b).Ok? && Decoded(b).value.payload == []
            && Decoded(b).value.pduSession == LastContainer(xs, None)
            && Decoded(b[..12]).Ok? && Decoded(b[..12]).value.pduSession == None
  {
    var f, o := Fixed(h.flags, h.t, 4, h.teid), Optional(h.sequence, h.npdu, NextType(xs));
    FixedFields(h.flags, h.t, 4, h.teid);
    hide Fixed, Optional, U16, U32, Chain, IsExtension, LastContainer, Decoded, Walk;
    var b := f + o + (Chain(xs) + payload);
    OpeningOf(f, o, Chain(xs), payload);
    hide Clip;
    WalkFollowsChain(b, 12, xs, None);
    hide Assembled;
    OptionalIsDecoded(b, b, 12);
    OptionalIsDecoded(b[..12], b, 12);
    NothingToWalk(b[..12], b[11]);
    AssembledShows(b, [], LastContainer(xs, None));
    AssembledShows(b, [], None);
  }

  lemma AssembledShows(b: seq<byte>, payload: seq<byte>, session: Option<Container>)
    requires |b| >= 12
    ensures Assembled(b, payload, session).payload == payload && Assembled(b, payload, session).pduSession == session
  {
  }

  lemma OpeningOf(f: seq<byte>, o: seq<byte>, c: seq<byte>, payload: seq<byte>)
    requires |f| == 8 && |o| == 4
    ensures var b := f + o + (c + payload);
            && b[0] == f[0] && b[1] == f[1] && b[2] == f[2] && b[3] == f[3] && b[11] == o[3]
            && b[12..12 + |c|] == c
  {
  }

  lemma NothingToWalk(b: seq<byte>, next: byte)
    ensures Walk(b, |b|, next, None) == (|b|, None)
  {
  }

  /** The code follows the chain whenever any optional flag is set. Section 5.1 of TS 29.281 gives the
      next-type octet a meaning only under the E flag: with the E flag clear the payload starts behind
      the optional part exactly when that octet is 0, or no header can be read there, or the declared
      length leaves no payload. */
  lemma PayloadWithoutExtensionFlag(b: seq<byte>)
    requires |b| >= 12 && b[0] / 32 == 1 && 0 < b[0] % 8 < 4
    ensures Decoded(b).Ok?
    ensures (Decoded(b).value.payload == Clip(b, 12, U16(b[2], b[3])))
            == (b[11] == 0 || ExtensionLength(b, 12) == 0 || U16(b[2], b[3]) <= 4)
  {
  }

  /** Such messages: with the E flag clear, whatever a payload starts with that could be read as a chain of
      headers is taken away from it. */
  lemma ChainWithoutExtensionFlag(h: Header, xs: seq<Extension>, payload: seq<byte>)
    requires (forall x | x in xs :: IsExtension(x)) && xs != []
    requires 4 + |Chain(xs)| + |payload| < 0x1_0000
    requires h.flags / 32 == 1 && 0 < h.flags % 8 < 4
    ensures var b := Packet(h, xs, payload);
            && Clip(b, 12, U16(b[2], b[3])) == Chain(xs) + payload != payload
            && Decoded(b).Ok? && Decoded(b).value.payload == payload
            && Decoded(b).value.pduSession == LastContainer(xs, None)
  {
    hide Fixed, U16, Chain, Decoded, ReadElements;
    var b := Packet(h, xs, payload);
    assert b + [] == b;
    ChainIsSkipped(h, xs, payload, []);
    PacketIsLaidOut(h, xs, payload, []);
    hide Packet, IsExtension, LastContainer;
    assert |Chain(xs)| > 0 by { OneHeader(xs); }
    assert b[12..12 + |Chain(xs)| + |payload|]
           == b[12..12 + |Chain(xs)|] + b[12 + |Chain(xs)|..12 + |Chain(xs)| + |payload|];
  }

  lemma OneHeader(xs: seq<Extension>)
    requires (forall x | x in xs :: IsExtension(x)) && xs != []
    ensures |Chain(xs)| >= 4
  {
    var x, rest := xs[0], xs[1..];
    assert x in xs && IsExtension(x);
    assert Chain(xs) == Single(x, NextType(rest)) + Chain(rest);
  }

  // ---- The encoders ----------------------------------------------------------------------------

  function GPDU(teid: uint32, tpdu: seq<byte>): seq<byte> {
    Fixed(0x30, MSG_GPDU, Low16(|tpdu|), teid) + tpdu
  }

  function GPDUWithQFI(teid: uint32, qfi: byte, tpdu: seq<byte>): seq<byte> {
    Fixed(0x34, MSG_GPDU, Low16(8 + |tpdu|), teid) + UplinkContainer(qfi % 64) + tpdu
  }

  /** The optional part and the one extension header of an uplink G-PDU (PDU type 1). */
  function UplinkContainer(qfi: byte): seq<byte> {
    [0, 0, 0, PDU_SESSION_CONTAINER, 1, 0x10, qfi, 0]
  }

  function EchoRequest(sequence: uint16): seq<byte> {
    Fixed(0x32, MSG_ECHO_REQUEST, 4, 0) + Optional(sequence, 0, 0)
  }

  method EncodeGPDU(teid: uint32, tpdu: seq<byte>) returns (r: seq<byte>)
    ensures r == GPDU(teid, tpdu)
  {
    var out := new byte[8 + |tpdu|](_ => 0);
    PutFixed(out, 0x30, MSG_GPDU, Low16(out.Length - 8), teid);
    Copy(out, 8, tpdu);
    r := out[..];
    assert r == r[..8] + r[8..];
  }

  method EncodeGPDUWithQFI(teid: uint32, qfi: byte, tpdu: seq<byte>) returns (r: seq<byte>)
    ensures r == GPDUWithQFI(teid, qfi, tpdu)
  {
    var out := new byte[16 + |tpdu|](_ => 0);
    PutFixed(out, 0x34, MSG_GPDU, Low16(out.Length - 8), teid);
    ghost var fixed := out[..8];
    out[11] := PDU_SESSION_CONTAINER;
    out[12] := 1;
    out[13] := 0x10;
    out[14] := qfi % 64;
    out[15] := 0;
    hide Fixed, Low16;
    ghost var head := out[..16];
    assert head[..8] == fixed;
    ContainerOctets(head, qfi % 64);
    Copy(out, 16, tpdu);
    r := out[..];
    assert r[..16] == head && r == head[..8] + head[8..] + r[16..];
  }

  lemma ContainerOctets(head: seq<byte>, qfi: byte)
    requires |head| == 16 && head[8] == 0 && head[9] == 0 && head[10] == 0 && head[11] == PDU_SESSION_CONTAINER
    requires head[12] == 1 && head[13] == 0x10 && head[14] == qfi && head[15] == 0
    ensures head[8..] == UplinkContainer(qfi)
  {
  }

  method EncodeEchoRequest(sequence: uint16) returns (r: seq<byte>)
    ensures r == EchoRequest(sequence)
  {
    assert Low16(12 - 8) == 4;
    hide Fixed, Put16, Put32, Optional, U16, Low16;
    var out := new byte[12](_ => 0);
    PutFixed(out, 0x32, MSG_ECHO_REQUEST, Low16(out.Length - 8), 0);
    ghost var head := out[..8];
    PutUint16(out, 8, sequence);
    r := out[..];
    assert forall i | 0 <= i < 8 :: r[i] == head[i];
    EchoPieces(r, head, sequence);
  }

  lemma EchoPieces(r: seq<byte>, head: seq<byte>, sequence: uint16)
    requires |r| == 12 && |head| == 8 && forall i | 0 <= i < 8 :: r[i] == head[i]
    requires r[8] == Put16(sequence)[0] && r[9] == Put16(sequence)[1] && r[10] == 0 && r[11] == 0
    ensures r == head + Optional(sequence, 0, 0)
  {
  }

  /** The first eight octets of every message. */
  method PutFixed(out: array<byte>, flags: byte, t: byte, length: uint16, teid: uint32)
    requires out.Length >= 8
    modifies out
    ensures out[..8] == Fixed(flags, t, length, teid)
    ensures forall i | 8 <= i < out.Length :: out[i] == old(out[i])
  {
    out[0] := flags;
    out[1] := t;
    PutUint16(out, 2, length);
    PutUint32(out, 4, teid);
    assert out[..8] == [out[0], out[1], out[2], out[3], out[4], out[5], out[6], out[7]];
  }

  // ---- Round trips -----------------------------------------------------------------------------

  /** A G-PDU encoded with a QFI: the length field must fit, and the QFI has six bits. */
  lemma GPDUWithQFIRoundTrip(teid: uint32, qfi: byte, tpdu: seq<byte>)
    requires 8 + |tpdu| < 0x1_0000
    ensures Decoded(GPDUWithQFI(teid, qfi, tpdu)) ==
              Ok(Msg(MSG_GPDU, teid, None, tpdu, Some(Container(1, qfi % 64, None)), NO_ELEMENTS))
  {
    hide Fixed, U16, U32, Decoded;
    var f := Fixed(0x34, MSG_GPDU, Low16(8 + |tpdu|), teid);
    var q: byte := qfi % 64;
    assert GPDUWithQFI(teid, qfi, tpdu) == f + UplinkContainer(q) + tpdu;
    FixedFields(0x34, MSG_GPDU, 8 + |tpdu|, teid);
    QFIIsDecoded(f, teid, q, tpdu);
  }

  lemma QFIIsDecoded(f: seq<byte>, teid: uint32, qfi: byte, tpdu: seq<byte>)
    requires |f| == 8 && f[0] == 0x34 && f[1] == MSG_GPDU && U16(f[2], f[3]) == 8 + |tpdu| && U32(f[4..8]) == teid
    requires qfi < 64
    ensures Decoded(f + UplinkContainer(qfi) + tpdu) ==
              Ok(Msg(MSG_GPDU, teid, None, tpdu, Some(Container(1, qfi, None)), NO_ELEMENTS))
  {
    hide Decoded, Walk, U16, U32, Chain, LaidOut, LastContainer, IsExtension, NextType, UplinkContainer, ReadContainer;
    hide Single;
    var x := QFIExtension(qfi);
    var xs := [x];
    QFIOctets(qfi);
    OneLink(x, None);
    var o := [0, 0, 0, PDU_SESSION_CONTAINER];
    assert U16(o[0], o[1]) == 0 by { NoSequence(); }
    var h := Header(0x34, MSG_GPDU, teid, 0, 0);
    PartsAreLaidOut(f, o, h, xs, tpdu, []);
    var b := f + (o + (Chain(xs) + (tpdu + [])));
    assert UplinkContainer(qfi) == o + Chain(xs);
    assert f + (o + Chain(xs)) + tpdu == b;
    LaidOutIsDecoded(b, h, xs, tpdu);
  }

  function QFIExtension(qfi: byte): Extension {
    Extension(PDU_SESSION_CONTAINER, [0x10, qfi])
  }

  lemma QFIOctets(qfi: byte)
    requires qfi < 64
    ensures IsExtension(QFIExtension(qfi))
    ensures UplinkContainer(qfi) == [0, 0, 0, PDU_SESSION_CONTAINER] + Single(QFIExtension(qfi), 0)
    ensures ReadContainer(QFIExtension(qfi).content) == Some(Container(1, qfi, None))
  {
  }

  lemma NoSequence()
    ensures U16(0, 0) == 0
  {
  }

  lemma OneLink(x: Extension, otherwise: Option<Container>)
    requires IsExtension(x)
    ensures Chain([x]) == Single(x, 0) && NextType([x]) == x.t
    ensures x.t == PDU_SESSION_CONTAINER ==> LastContainer([x], otherwise) == ReadContainer(x.content)
  {
    hide IsExtension, ReadContainer;
    assert [x][1..] == [] && [x][..0] == [];
  }

  lemma GPDURoundTrip(teid: uint32, tpdu: seq<byte>)
    requires |tpdu| < 0x1_0000
    ensures Decoded(GPDU(teid, tpdu)) == Ok(Msg(MSG_GPDU, teid, None, tpdu, None, NO_ELEMENTS))
  {
    hide Fixed, U16, U32, Decoded;
    FixedFields(0x30, MSG_GPDU, |tpdu|, teid);
    PlainIsDecoded(Fixed(0x30, MSG_GPDU, |tpdu|, teid), teid, tpdu);
  }

  lemma PlainIsDecoded(f: seq<byte>, teid: uint32, tpdu: seq<byte>)
    requires |f| == 8 && f[0] == 0x30 && f[1] == MSG_GPDU && U16(f[2], f[3]) == |tpdu| && U32(f[4..8]) == teid
    ensures Decoded(f + tpdu) == Ok(Msg(MSG_GPDU, teid, None, tpdu, None, NO_ELEMENTS))
  {
    var b := f + tpdu;
    assert b[4..8] == f[4..8] && b[8..8 + |tpdu|] == tpdu;
  }

  lemma EchoRequestRoundTrip(sequence: uint16)
    ensures Decoded(EchoRequest(sequence)) == Ok(Msg(MSG_ECHO_REQUEST, 0, Some(sequence), [], None, NO_ELEMENTS))
  {
    hide Fixed, U16, U32, Decoded;
    FixedFields(0x32, MSG_ECHO_REQUEST, 4, 0);
    EchoIsDecoded(Fixed(0x32, MSG_ECHO_REQUEST, 4, 0), Optional(sequence, 0, 0), sequence);
  }

  lemma EchoIsDecoded(f: seq<byte>, o: seq<byte>, sequence: uint16)
    requires |f| == 8 && f[0] == 0x32 && f[1] == MSG_ECHO_REQUEST && U16(f[2], f[3]) == 4 && U32(f[4..8]) == 0
    requires |o| == 4 && U16(o[0], o[1]) == sequence && o[3] == 0
    ensures Decoded(f + o) == Ok(Msg(MSG_ECHO_REQUEST, 0, Some(sequence), [], None, NO_ELEMENTS))
  {
    var h := Header(0x32, MSG_ECHO_REQUEST, 0, sequence, 0);
    PartsAreLaidOut(f, o, h, [], [], []);
    assert f + (o + (Chain([]) + ([] + []))) == f + o;
    LaidOutIsDecoded(f + o, h, [], []);
  }

  /** A control message with a list of elements is decoded to the elements that count. */
  lemma ControlRoundTrip(h: Header, es: seq<Element>, trailing: seq<byte>)
    requires h.flags / 32 == 1 && h.flags % 8 != 0 && h.t != MSG_GPDU
    requires (forall x | x in es :: IsElement(x)) && 4 + |AllOctets(Octets, es)| < 0x1_0000
    ensures Decoded(Packet(h, [], AllOctets(Octets, es)) + trailing) ==
              Ok(Msg(h.t, h.teid, if h.flags / 2 % 2 == 1 then Some(h.sequence) else None, AllOctets(Octets, es), None,
                     Kept(NO_ELEMENTS, es)))
  {
    ChainIsSkipped(h, [], AllOctets(Octets, es), trailing);
    ReadsExactlyTheList(NO_ELEMENTS, es, []);
    assert AllOctets(Octets, es) + [] == AllOctets(Octets, es);
  }
}
