/** The 5GS NAS security wrapper (internal/nas5gs/security.go): header, NAS-MAC, sequence number and
    payload, over primitives that are left open. */
module NasSecurity {
  import opened Words
  import opened Bits

  datatype Direction = Uplink | Downlink

  /** The functions the wrapper is built on. An unsupported algorithm yields None. `canonical` is the
      library's decoding of a plain message followed by its encoding, and `command` what the content
      decoder reads from a Security Mode Command: its ciphering and integrity algorithms. */
  datatype Primitives = Primitives(
    mac: (byte, seq<byte>, uint32, Direction, seq<byte>) -> Option<seq<byte>>,
    keystream: (byte, seq<byte>, uint32, Direction, nat) -> Option<seq<byte>>,
    deriveKeys: (seq<byte>, byte, byte) -> Option<(seq<byte>, seq<byte>)>,
    canonical: seq<byte> -> Option<seq<byte>>,
    command: seq<byte> -> Option<(byte, byte)>)

  /** A NAS-MAC has four octets and a key stream the length that was asked for. */
  ghost predicate Sized(p: Primitives) {
    && (forall a, k, c, d, m :: p.mac(a, k, c, d, m).Some? ==> |p.mac(a, k, c, d, m).value| == 4)
    && (forall a, k, c, d, n :: p.keystream(a, k, c, d, n).Some? ==> |p.keystream(a, k, c, d, n).value| == n)
  }

  datatype Keys = Keys(cipheringAlg: byte, integrityAlg: byte, knasEnc: seq<byte>, knasInt: seq<byte>)

  const EPD_5GMM: byte := 0x7e

  const PLAIN: byte := 0
  const INTEGRITY: byte := 1
  const CIPHERED: byte := 2
  const INTEGRITY_NEW: byte := 3
  const CIPHERED_NEW: byte := 4

  predicate IsCiphered(sht: byte) {
    sht == CIPHERED || sht == CIPHERED_NEW
  }

  predicate IsNewContext(sht: byte) {
    sht == INTEGRITY_NEW || sht == CIPHERED_NEW
  }

  function SecurityHeader(message: seq<byte>): Option<byte> {
    if |message| < 2 then None else Some(message[1] % 16)
  }

  /** The payload on the wire, or the payload read from it: ciphering is its own inverse. */
  ghost function Ciphered(p: Primitives, sht: byte, keys: Keys, count: uint32, dir: Direction, payload: seq<byte>): (r: Option<seq<byte>>)
    requires Sized(p)
    ensures r.Some? ==> |r.value| == |payload|
  {
    if !IsCiphered(sht) then Some(payload)
    else
      var ks := p.keystream(keys.cipheringAlg, keys.knasEnc, count, dir, |payload|);
      if ks.None? then None else Some(XorAll(payload, ks.value))
  }

  /** A message in the wrapper of clause 9.1.1 of TS 24.501, in either direction. */
  ghost function Wrap(p: Primitives, plain: seq<byte>, sht: byte, count: uint32, keys: Keys, dir: Direction): (r: Option<seq<byte>>)
    requires Sized(p)
    ensures r.Some? ==> |r.value| == 7 + |plain|
  {
    var payload := Ciphered(p, sht, keys, count, dir, plain);
    if payload.None? then None
    else
      var body := [count % 256] + payload.value;
      var mac := p.mac(keys.integrityAlg, keys.knasInt, count, dir, body);
      if mac.None? then None else Some([EPD_5GMM, sht] + mac.value + body)
  }

  datatype Unwrapped = Failed | Mismatch(plain: seq<byte>) | Verified(plain: seq<byte>)

  ghost function Unwrap(p: Primitives, message: seq<byte>, count: uint32, keys: Keys, dir: Direction): Unwrapped
    requires Sized(p)
  {
    if |message| < 7 then Failed
    else
      var mac := p.mac(keys.integrityAlg, keys.knasInt, count, dir, message[6..]);
      var inner := Ciphered(p, message[1] % 16, keys, count, dir, message[7..]);
      if mac.None? || inner.None? then Failed
      else if mac.value != message[2..6] then Mismatch(inner.value)
      else Verified(inner.value)
  }

  /** The library's in-place encryption. */
  method NASEncrypt(p: Primitives, keys: Keys, count: uint32, dir: Direction, payload: array<byte>) returns (ok: bool)
    requires Sized(p)
    modifies payload
    ensures ok <==> p.keystream(keys.cipheringAlg, keys.knasEnc, count, dir, payload.Length).Some?
    ensures ok ==> payload[..] == XorAll(old(payload[..]), p.keystream(keys.cipheringAlg, keys.knasEnc, count, dir, payload.Length).value)
  {
    var stream := p.keystream(keys.cipheringAlg, keys.knasEnc, count, dir, payload.Length);
    if stream.None? { return false; }
    var ks := stream.value;
    for i := 0 to payload.Length
      invariant forall j | 0 <= j < i :: payload[j] == Xor(old(payload[j]), ks[j])
      invariant forall j | i <= j < payload.Length :: payload[j] == old(payload[j])
    {
      payload[i] := Xor(payload[i], ks[i]);
    }
    return true;
  }

  method Protect(p: Primitives, plain: seq<byte>, sht: byte, count: uint32, keys: Keys) returns (r: Option<seq<byte>>)
    requires Sized(p)
    ensures r == match p.canonical(plain)
                 case None => None
                 case Some(payload) => Wrap(p, payload, sht, count, keys, Uplink)
  {
    var encoded := p.canonical(plain);
    if encoded.None? { return None; }
    var payload := new byte[|encoded.value|](i requires 0 <= i < |encoded.value| => encoded.value[i]);
    assert payload[..] == encoded.value;
    if IsCiphered(sht) {
      var ok := NASEncrypt(p, keys, count, Uplink, payload);
      if !ok { return None; }
    }
    var body := [count % 256] + payload[..];
    var mac := p.mac(keys.integrityAlg, keys.knasInt, count, Uplink, body);
    if mac.None? { return None; }
    return Some([EPD_5GMM, sht] + mac.value + body);
  }

  method Unprotect(p: Primitives, message: seq<byte>, count: uint32, keys: Keys) returns (r: Unwrapped)
    requires Sized(p)
    ensures r == Unwrap(p, message, count, keys, Downlink)
  {
    if |message| < 7 { return Failed; }
    var receivedMAC := message[2..6];
    var mac := p.mac(keys.integrityAlg, keys.knasInt, count, Downlink, message[6..]);
    if mac.None? { return Failed; }
    var inner := new byte[|message| - 7](i requires 0 <= i < |message| - 7 => message[7 + i]);
    assert inner[..] == message[7..];
    if IsCiphered(message[1] % 16) {
      var ok := NASEncrypt(p, keys, count, Downlink, inner);
      if !ok { return Failed; }
    }
    if mac.value != receivedMAC { return Mismatch(inner[..]); }
    return Verified(inner[..]);
  }

  /** A receiver with the same keys and COUNT verifies a wrapped message and recovers it. */
  lemma UnwrapInvertsWrap(p: Primitives, plain: seq<byte>, sht: byte, count: uint32, keys: Keys, dir: Direction)
    requires Sized(p) && sht < 16
    requires Wrap(p, plain, sht, count, keys, dir).Some?
    ensures Unwrap(p, Wrap(p, plain, sht, count, keys, dir).value, count, keys, dir) == Verified(plain)
  {
    hide Ciphered;
    assert Ciphered(p, sht, keys, count, dir, plain).Some?;
    hide Wrap;
    WrapLayout(p, plain, sht, count, keys, dir);
    CipheredInvolution(p, sht, keys, count, dir, plain);
    var w := Wrap(p, plain, sht, count, keys, dir).value;
    assert w[1] % 16 == sht;
    assert Ciphered(p, w[1] % 16, keys, count, dir, w[7..]) == Some(plain);
    assert p.mac(keys.integrityAlg, keys.knasInt, count, dir, w[6..]) == Some(w[2..6]);
  }

  lemma CipheredInvolution(p: Primitives, sht: byte, keys: Keys, count: uint32, dir: Direction, payload: seq<byte>)
    requires Sized(p) && Ciphered(p, sht, keys, count, dir, payload).Some?
    ensures Ciphered(p, sht, keys, count, dir, Ciphered(p, sht, keys, count, dir, payload).value) == Some(payload)
  {
    hide XorAll;
    if IsCiphered(sht) {
      XorAllInvolution(payload, p.keystream(keys.cipheringAlg, keys.knasEnc, count, dir, |payload|).value);
    }
  }

  lemma WrapLayout(p: Primitives, plain: seq<byte>, sht: byte, count: uint32, keys: Keys, dir: Direction)
    requires Sized(p) && Wrap(p, plain, sht, count, keys, dir).Some?
    ensures var w := Wrap(p, plain, sht, count, keys, dir).value;
            var payload := Ciphered(p, sht, keys, count, dir, plain).value;
            && w[0] == EPD_5GMM && w[1] == sht && w[6] == count % 256
            && w[6..] == [count % 256] + payload && w[7..] == payload
            && Some(w[2..6]) == p.mac(keys.integrityAlg, keys.knasInt, count, dir, w[6..])
  {
    var w := Wrap(p, plain, sht, count, keys, dir).value;
    var payload := Ciphered(p, sht, keys, count, dir, plain).value;
    var mac := p.mac(keys.integrityAlg, keys.knasInt, count, dir, [count % 256] + payload).value;
    assert w == [EPD_5GMM, sht] + mac + ([count % 256] + payload);
    assert w[6..] == [count % 256] + payload && w[2..6] == mac;
    assert w[7..] == w[6..][1..];
  }

  /** A message whose first MAC octet was inverted is refused by that receiver, and would have been
      accepted without the inversion. */
  lemma InvertedMACIsRefused(p: Primitives, plain: seq<byte>, sht: byte, count: uint32, keys: Keys, dir: Direction)
    requires Sized(p) && sht < 16
    requires Wrap(p, plain, sht, count, keys, dir).Some?
    ensures var w := Wrap(p, plain, sht, count, keys, dir).value;
            Unwrap(p, w[2 := Xor(w[2], 0xff)], count, keys, dir) == Mismatch(plain)
  {
    var w := Wrap(p, plain, sht, count, keys, dir).value;
    var c := w[2 := Xor(w[2], 0xff)];
    UnwrapInvertsWrap(p, plain, sht, count, keys, dir);
    XorFacts(w[2], 0);
    assert c[6..] == w[6..] && c[7..] == w[7..];
    assert c[2..6][0] != w[2..6][0];
  }

  /** The octets on the wire, bit by bit: discriminator 0x7e, header type, a MAC over everything behind it,
      the low octet of the COUNT, and the message, combined with the key stream for header types 2 and 4
      and in clear for all others. */
  lemma WireOctets(p: Primitives, plain: seq<byte>, sht: byte, count: uint32, keys: Keys, dir: Direction)
    requires Sized(p) && Wrap(p, plain, sht, count, keys, dir).Some?
    ensures var w := Wrap(p, plain, sht, count, keys, dir).value;
            && |w| == 7 + |plain| && w[0] == 0x7e && w[1] == sht && w[6] == count % 256
            && p.mac(keys.integrityAlg, keys.knasInt, count, dir, w[6..]) == Some(w[2..6])
            && (sht != 2 && sht != 4 ==> w[7..] == plain)
            && (sht == 2 || sht == 4 ==>
                  var ks := p.keystream(keys.cipheringAlg, keys.knasEnc, count, dir, |plain|);
                  ks.Some? && |ks.value| == |plain|
                  && forall i, j: nat | 0 <= i < |plain| && j < 8 :: Bit(w[7 + i], j) == 1 <==> Bit(plain[i], j) != Bit(ks.value[i], j))
  {
    WrapLayout(p, plain, sht, count, keys, dir);
    var w := Wrap(p, plain, sht, count, keys, dir).value;
    if sht == 2 || sht == 4 {
      var ks := p.keystream(keys.cipheringAlg, keys.knasEnc, count, dir, |plain|).value;
      assert w[7..] == XorAll(plain, ks);
      hide Wrap, Ciphered, XorAll, Bit;
      XorAllByBits(plain, ks);
      assert forall i | 0 <= i < |plain| :: w[7 + i] == w[7..][i];
    } else {
      hide Wrap;
    }
  }

  /** With any other MAC the message is refused, and its contents are handed over all the same. */
  lemma ForgedMACIsRefused(p: Primitives, plain: seq<byte>, sht: byte, count: uint32, keys: Keys, dir: Direction, forged: seq<byte>)
    requires Sized(p) && sht < 16 && Wrap(p, plain, sht, count, keys, dir).Some?
    requires |forged| == 4 && forged != Wrap(p, plain, sht, count, keys, dir).value[2..6]
    ensures var w := Wrap(p, plain, sht, count, keys, dir).value;
            Unwrap(p, w[..2] + forged + w[6..], count, keys, dir) == Mismatch(plain)
  {
    hide Wrap, Ciphered;
    UnwrapInvertsWrap(p, plain, sht, count, keys, dir);
    WrapLayout(p, plain, sht, count, keys, dir);
    var w := Wrap(p, plain, sht, count, keys, dir).value;
    var m := w[..2] + forged + w[6..];
    assert m[1] == w[1] && m[2..6] == forged && m[6..] == w[6..] && m[7..] == w[7..];
  }
}
