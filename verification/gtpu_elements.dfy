/** Information elements of GTP-U control messages (internal/gtpu/message.go:33-40, 194-241;
    section 8 of TS 29.281). */
module GtpuElements {
  import opened Words
  import opened ElementLists

  const IE_RECOVERY: byte := 14
  const IE_TEID_DATA_I: byte := 16
  const IE_PEER_ADDRESS: byte := 133

  /** The elements a message keeps. An address is kept as its octets; none is the empty sequence. */
  datatype Elements = Elements(recovery: Option<byte>, teidDataI: Option<uint32>, peer: seq<byte>)

  const NO_ELEMENTS := Elements(None, None, [])

  /** The value length of the known elements with a fixed length. */
  function FixedLength(t: byte): Option<nat> {
    if t == IE_RECOVERY then Some(1) else if t == IE_TEID_DATA_I then Some(4) else None
  }

  /** An IPv4 address in the mapped IPv6 form is an IPv4 address. */
  function Unmap(a: seq<byte>): seq<byte> {
    if |a| == 16 && a[..10] == Zeros(10) && a[10] == 0xff && a[11] == 0xff then a[12..] else a
  }

  predicate Fits(t: byte, value: seq<byte>) {
    FixedLength(t) == Some(|value|) || FixedLength(t) == None
  }

  /** setIE: it indexes into the value only as far as the element's length allows. */
  function WithElement(e: Elements, t: byte, value: seq<byte>): Elements
    requires Fits(t, value)
  {
    if t == IE_RECOVERY then e.(recovery := Some(value[0]))
    else if t == IE_TEID_DATA_I then e.(teidDataI := Some(U32(value)))
    else if t == IE_PEER_ADDRESS && |value| in {4, 16} then e.(peer := Unmap(value))
    else e
  }

  /** How many octets the first element of `b` occupies; None when there is no element to read: no
      octets left, an unknown type of fixed length, or a truncated element. */
  function ElementLength(b: seq<byte>): (n: Option<nat>)
    ensures n.Some? ==> 0 < n.value <= |b|
  {
    if b == [] then None
    else if b[0] < 0x80 then
      match FixedLength(b[0])
      case None => None
      case Some(n) => if 1 + n > |b| then None else Some(1 + n)
    else if |b| < 3 then None
    else if 3 + U16(b[1], b[2]) > |b| then None
    else Some(3 + U16(b[1], b[2]))
  }

  function ElementValue(b: seq<byte>): seq<byte>
    requires ElementLength(b).Some?
  {
    b[if b[0] < 0x80 then 1 else 3..ElementLength(b).value]
  }

  function ReadElements(e: Elements, b: seq<byte>): Elements
    decreases |b|
  {
    var n := ElementLength(b);
    if n.None? then e else ReadElements(WithElement(e, b[0], ElementValue(b)), b[n.value..])
  }

  /** The element at index i of a longer string, of fixed length and of variable length. */
  lemma FixedElementAt(b: seq<byte>, i: nat, n: nat)
    requires i + 1 + n <= |b| && b[i] < 0x80 && FixedLength(b[i]) == Some(n)
    ensures ElementLength(b[i..]) == Some(1 + n)
    ensures ElementValue(b[i..]) == b[i + 1..i + 1 + n] && b[i..][1 + n..] == b[i + 1 + n..]
  {
    DropSlice(b, i, 1, 1 + n);
  }

  lemma VariableElementAt(b: seq<byte>, i: nat, n: nat)
    requires i + 3 + n <= |b| && b[i] >= 0x80 && U16(b[i + 1], b[i + 2]) == n
    ensures ElementLength(b[i..]) == Some(3 + n)
    ensures ElementValue(b[i..]) == b[i + 3..i + 3 + n] && b[i..][3 + n..] == b[i + 3 + n..]
  {
    DropSlice(b, i, 3, 3 + n);
  }

  // ---- Elements as the standard writes them ----------------------------------------------------

  datatype Element =
    | Recovery(restartCounter: byte)
    | TEIDDataI(teid: uint32)
    | TLV(t: byte, value: seq<byte>)

  predicate IsElement(e: Element) {
    e.TLV? ==> e.t >= 0x80 && |e.value| < 0x1_0000
  }

  function Octets(e: Element): (b: seq<byte>)
    requires IsElement(e)
  {
    match e
    case Recovery(c) => [14, c]
    case TEIDDataI(teid) => [16] + Put32(teid)
    case TLV(t, value) => [t] + Put16(|value|) + value
  }

  /** The values that count: the last of each kind, an address only when it has a legal length. */
  function LastRecovery(es: seq<Element>, otherwise: Option<byte>): Option<byte> {
    if es == [] then otherwise
    else if es[|es| - 1].Recovery? then Some(es[|es| - 1].restartCounter)
    else LastRecovery(es[..|es| - 1], otherwise)
  }

  function LastTEID(es: seq<Element>, otherwise: Option<uint32>): Option<uint32> {
    if es == [] then otherwise
    else if es[|es| - 1].TEIDDataI? then Some(es[|es| - 1].teid)
    else LastTEID(es[..|es| - 1], otherwise)
  }

  predicate IsAddress(e: Element) {
    e.TLV? && e.t == 133 && |e.value| in {4, 16}
  }

  function LastAddress(es: seq<Element>, otherwise: seq<byte>): seq<byte> {
    if es == [] then otherwise
    else if IsAddress(es[|es| - 1]) then Unmap(es[|es| - 1].value)
    else LastAddress(es[..|es| - 1], otherwise)
  }

  function Kept(e: Elements, es: seq<Element>): Elements {
    Elements(LastRecovery(es, e.recovery), LastTEID(es, e.teidDataI), LastAddress(es, e.peer))
  }

  function Keep(e: Elements, x: Element): Elements {
    match x
    case Recovery(c) => e.(recovery := Some(c))
    case TEIDDataI(teid) => e.(teidDataI := Some(teid))
    case TLV(_, value) => if IsAddress(x) then e.(peer := Unmap(value)) else e
  }

  lemma {:induction false} KeptFromTheFront(e: Elements, es: seq<Element>)
    requires es != []
    ensures Kept(e, es) == Kept(Keep(e, es[0]), es[1..])
  {
    if |es| > 1 {
      KeptFromTheFront(e, es[..|es| - 1]);
      assert es[..|es| - 1][1..] == es[1..][..|es| - 2];
    } else {
      assert es[..0] == [] && es[1..] == [];
    }
  }

  lemma ReadsOneElement(x: Element, rest: seq<byte>)
    requires IsElement(x)
    ensures var b := Octets(x) + rest;
            && ElementLength(b) == Some(|Octets(x)|)
            && b[|Octets(x)|..] == rest
            && forall e :: WithElement(e, b[0], ElementValue(b)) == Keep(e, x)
  {
    var b := Octets(x) + rest;
    match x
    case Recovery(c) => assert ElementValue(b) == [c];
    case TEIDDataI(teid) =>
      assert b[1..5] == Put32(teid);
      U32OfPut32(teid);
      assert ElementValue(b) == Put32(teid);
    case TLV(t, value) =>
      assert b[1] == Put16(|value|)[0] && b[2] == Put16(|value|)[1];
      assert b[3..3 + |value|] == value;
      assert ElementValue(b) == value;
  }

  /** A list of elements in front of anything unreadable is read exactly: the last Recovery, the last
      TEID Data I and the last Peer Address of legal length are kept, the rest is passed over. */
  lemma {:induction false} ReadsExactlyTheList(e: Elements, es: seq<Element>, tail: seq<byte>)
    requires forall x | x in es :: IsElement(x)
    requires ElementLength(tail) == None
    ensures ReadElements(e, AllOctets(Octets, es) + tail) == Kept(e, es)
    decreases |es|
  {
    if es == [] {
      assert AllOctets(Octets, es) + tail == tail;
    } else {
      var rest := AllOctets(Octets, es[1..]) + tail;
      assert AllOctets(Octets, es) + tail == Octets(es[0]) + rest;
      ReadsOneElement(es[0], rest);
      ReadsExactlyTheList(Keep(e, es[0]), es[1..], tail);
      KeptFromTheFront(e, es);
    }
  }

  lemma {:induction false} LastAddressAt(es: seq<Element>, x: Element, later: seq<Element>, otherwise: seq<byte>)
    requires IsAddress(x) && forall y | y in later :: !IsAddress(y)
    ensures LastAddress(es + [x] + later, otherwise) == Unmap(x.value)
  {
    var all := es + [x] + later;
    if later == [] {
      assert all[|all| - 1] == x;
    } else {
      var n := |later| - 1;
      LastAddressAt(es, x, later[..n], otherwise);
      assert all[|all| - 1] == later[n] && all[..|all| - 1] == es + [x] + later[..n];
    }
  }

  /** The peer address reported for the last address element of a message, whatever else it contains: an
      IPv4 address and a proper IPv6 address as they are, an IPv4-mapped one as its last four octets. */
  lemma PeerAddressIsReported(e: Elements, es: seq<Element>, a: seq<byte>, later: seq<Element>, tail: seq<byte>)
    requires (forall x | x in es + later :: IsElement(x)) && ElementLength(tail) == None
    requires |a| in {4, 16} && forall x | x in later :: x.TLV? && x.t == 133 ==> |x.value| !in {4, 16}
    ensures (forall x | x in es + [TLV(133, a)] + later :: IsElement(x))
    ensures ReadElements(e, AllOctets(Octets, es + [TLV(133, a)] + later) + tail).peer ==
              if |a| == 16 && a[..12] == [0, 0, 0, 0, 0, 0, 0, 0, 0, 0, 0xff, 0xff] then a[12..] else a
  {
    var all := es + [TLV(133, a)] + later;
    assert forall x | x in all :: x in es + later || x == TLV(133, a);
    ReadsExactlyTheList(e, all, tail);
    LastAddressAt(es, TLV(133, a), later, e.peer);
    hide Unmap, ReadElements, LastAddress, LastRecovery, LastTEID, AllOctets;
    MappedPrefix(a);
  }

  lemma MappedPrefix(a: seq<byte>)
    requires |a| in {4, 16}
    ensures Unmap(a) == if |a| == 16 && a[..12] == [0, 0, 0, 0, 0, 0, 0, 0, 0, 0, 0xff, 0xff] then a[12..] else a
  {
    if |a| == 16 {
      assert a[..12] == a[..10] + [a[10], a[11]];
      assert Zeros(10) == [0, 0, 0, 0, 0, 0, 0, 0, 0, 0];
      assert [0, 0, 0, 0, 0, 0, 0, 0, 0, 0, 0xff, 0xff] == [0, 0, 0, 0, 0, 0, 0, 0, 0, 0] + [0xff, 0xff];
    }
  }

  lemma FirstElement(b: seq<byte>) returns (x: Element)
    requires ElementLength(b).Some?
    ensures IsElement(x) && Octets(x) == b[..ElementLength(b).value]
  {
    var n := ElementLength(b).value;
    var v := ElementValue(b);
    if b[0] >= 0x80 {
      x := TLV(b[0], v);
      Put16OfU16(b[1], b[2]);
      assert b[..n] == [b[0]] + [b[1], b[2]] + v;
    } else if b[0] == IE_RECOVERY {
      x := Recovery(v[0]);
      assert b[..n] == [b[0], b[1]];
    } else {
      x := TEIDDataI(U32(v));
      Put32OfU32(v);
      assert b[..n] == [b[0]] + v;
    }
  }

  lemma ElementsAreMeasured(b: seq<byte>)
    ensures StartsWithElement(Octets, ElementLength, b)
  {
    if ElementLength(b).Some? { var x := FirstElement(b); }
  }

  /** Any octets whatsoever are a list of elements and an unreadable tail, and exactly the list counts. */
  lemma WhatIsRead(e: Elements, b: seq<byte>)
    ensures exists es, tail :: Splits(Octets, ElementLength, b, es, tail) && ReadElements(e, b) == Kept(e, es)
  {
    forall s ensures StartsWithElement(Octets, ElementLength, s) { ElementsAreMeasured(s); }
    var es, tail := EveryStringSplits(Octets, ElementLength, b);
    ReadsExactlyTheList(e, es, tail);
  }
}
