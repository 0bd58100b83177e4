/** The scan for an Access type element in a PDU SESSION RELEASE COMMAND
    (internal/nas5gs/pdu_session.go:377-430; Table 8.3.14.1.1 of TS 24.501). */
module AccessType {
  import opened Words
  import opened ElementLists

  const MANDATORY_OCTETS := 5
  const ACCESS_TYPE: byte := 0xd
  const EAP_MESSAGE: byte := 0x78
  const EXTENDED_PCO: byte := 0x7b
  const SERVICE_LEVEL_AA: byte := 0x72

  predicate HasLongLength(iei: byte) {
    iei == EAP_MESSAGE || iei == EXTENDED_PCO || iei == SERVICE_LEVEL_AA
  }

  /** Optional elements: half octets with an identifier from 8 to 15 in front, and elements with a
      length of one octet or of two. Those of the table with two are the EAP message, the extended protocol
      configuration options and the service-level AA container. */
  datatype Element = Half(iei: byte, value: byte) | LengthValue(iei: byte, contents: seq<byte>)

  predicate IsElement(x: Element) {
    match x
    case Half(iei, value) => 8 <= iei < 16 && value < 16
    case LengthValue(iei, contents) => iei < 0x80 && |contents| < if iei in {0x72, 0x78, 0x7b} then 0x1_0000 else 0x100
  }

  function Octets(x: Element): (b: seq<byte>)
    requires IsElement(x)
    ensures |b| > 0
  {
    match x
    case Half(iei, value) => [iei * 16 + value]
    case LengthValue(iei, contents) =>
      if iei in {0x72, 0x78, 0x7b} then [iei] + Put16(|contents|) + contents else [iei, |contents|] + contents
  }

  predicate IsAccessType(x: Element) {
    x.Half? && x.iei == 0xd
  }

  /** The length of the first element, or None when none can be read. */
  function ElementLength(b: seq<byte>): (n: Option<nat>)
    ensures n.Some? ==> 0 < n.value <= |b|
  {
    if b == [] then None
    else if b[0] >= 0x80 then Some(1)
    else
      var lengthOctets := if HasLongLength(b[0]) then 2 else 1;
      if |b| < 1 + lengthOctets then None
      else
        var contents: nat := if lengthOctets == 2 then U16(b[1], b[2]) else b[1];
        if |b| < 1 + lengthOctets + contents then None else Some(1 + lengthOctets + contents)
  }

  function Scan(b: seq<byte>): bool
    decreases |b|
  {
    var n := ElementLength(b);
    n.Some? && (b[0] / 16 == ACCESS_TYPE || Scan(b[n.value..]))
  }

  function HasAccessType(raw: seq<byte>): bool {
    |raw| >= MANDATORY_OCTETS && Scan(raw[MANDATORY_OCTETS..])
  }

  method ReleaseCommandHasAccessType(raw: seq<byte>) returns (r: bool)
    ensures r == HasAccessType(raw)
  {
    if |raw| < MANDATORY_OCTETS { return false; }
    var opt := raw[MANDATORY_OCTETS..];
    while |opt| > 0
      invariant Scan(opt) <==> Scan(raw[MANDATORY_OCTETS..])
      decreases |opt|
    {
      var iei := opt[0];
      if iei >= 0x80 {
        if iei / 16 == ACCESS_TYPE { return true; }
        opt := opt[1..];
        continue;
      }
      var lenOctets := 1;
      if iei == EAP_MESSAGE || iei == EXTENDED_PCO || iei == SERVICE_LEVEL_AA {
        lenOctets := 2;
      }
      if |opt| < 1 + lenOctets { return false; }
      var contents: nat := opt[1];
      if lenOctets == 2 {
        contents := U16(opt[1], opt[2]);
      }
      var skip := 1 + lenOctets + contents;
      if |opt| < skip { return false; }
      opt := opt[skip..];
    }
    return false;
  }

  lemma ReadsOneElement(x: Element, rest: seq<byte>)
    requires IsElement(x)
    ensures var b := Octets(x) + rest;
            && ElementLength(b) == Some(|Octets(x)|)
            && b[|Octets(x)|..] == rest
            && (b[0] / 16 == ACCESS_TYPE <==> IsAccessType(x))
  {
  }

  /** The scan finds exactly the Access type elements of a well-formed list, and is never misled by
      octets inside another element; what follows an unreadable element is not looked at. */
  lemma {:induction false} ScanFindsAccessType(xs: seq<Element>, tail: seq<byte>)
    requires forall x | x in xs :: IsElement(x)
    requires ElementLength(tail) == None
    ensures Scan(AllOctets(Octets, xs) + tail) <==> exists x | x in xs :: IsAccessType(x)
    decreases |xs|
  {
    if xs == [] {
      assert AllOctets(Octets, xs) + tail == tail;
    } else {
      var x, rest := xs[0], AllOctets(Octets, xs[1..]) + tail;
      assert AllOctets(Octets, xs) + tail == Octets(x) + rest;
      assert xs == [x] + xs[1..];
      hide Octets, ElementLength, AllOctets, IsElement, IsAccessType;
      ReadsOneElement(x, rest);
      ScanFindsAccessType(xs[1..], tail);
      assert Scan(Octets(x) + rest) <==> IsAccessType(x) || Scan(rest);
    }
  }

  lemma FirstElement(b: seq<byte>) returns (x: Element)
    requires ElementLength(b).Some?
    ensures IsElement(x) && Octets(x) == b[..ElementLength(b).value]
  {
    var n := ElementLength(b).value;
    if b[0] >= 0x80 {
      x := Half(b[0] / 16, b[0] % 16);
    } else if HasLongLength(b[0]) {
      x := LengthValue(b[0], b[3..n]);
      Put16OfU16(b[1], b[2]);
      assert b[..n] == [b[0]] + [b[1], b[2]] + b[3..n];
    } else {
      x := LengthValue(b[0], b[2..n]);
      assert b[..n] == [b[0], b[1]] + b[2..n];
    }
  }

  lemma ElementsAreMeasured(b: seq<byte>)
    ensures StartsWithElement(Octets, ElementLength, b)
  {
    if ElementLength(b).Some? { var x := FirstElement(b); }
  }

  /** A PDU SESSION RELEASE COMMAND as the table writes it, five mandatory octets and a list of elements, in
      front of anything unreadable: the answer is whether the list has an element with identifier 0xD. */
  lemma CommandIsAnswered(mandatory: seq<byte>, xs: seq<Element>, tail: seq<byte>)
    requires |mandatory| == 5 && (forall x | x in xs :: IsElement(x)) && ElementLength(tail) == None
    ensures HasAccessType(mandatory + (AllOctets(Octets, xs) + tail)) <==> exists x | x in xs :: x.Half? && x.iei == 0xd
  {
    var optional := AllOctets(Octets, xs) + tail;
    assert (mandatory + optional)[5..] == optional;
    ScanFindsAccessType(xs, tail);
  }

  /** On any message: one of fewer than five octets has none; otherwise its optional part is a list of
      elements and an unreadable tail, and the answer is whether the list has an Access type element. */
  lemma AnswerOnAnyMessage(raw: seq<byte>)
    ensures |raw| < 5 ==> !HasAccessType(raw)
    ensures |raw| >= 5 ==>
              exists xs, tail ::
                && Splits(Octets, ElementLength, raw[5..], xs, tail)
                && (HasAccessType(raw) <==> exists x | x in xs :: IsAccessType(x))
  {
    if |raw| >= 5 {
      forall s ensures StartsWithElement(Octets, ElementLength, s) { ElementsAreMeasured(s); }
      var xs, tail := EveryStringSplits(Octets, ElementLength, raw[5..]);
      ScanFindsAccessType(xs, tail);
    }
  }
}
