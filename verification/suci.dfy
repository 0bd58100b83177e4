/** Concealed subscriber identifiers: the protection profiles and the text they pass through
    (internal/crypto/suci.go:59-285, Annex C.3 of TS 33.501), and the SUCI octets (internal/crypto/suci_encode.go:34-124, section 9.11.3.4 of
    TS 24.501). */
module Suci {
  import opened Words
  import opened Bits
  import opened Buffers
  import opened BCD
  import opened Splitting

  // ---- Protection profiles ---------------------------------------------------------------------

  /** The primitives of a profile. `wire` is the form in which the ephemeral public key is sent and
      `point` its inverse: the identity in profile A, point compression in profile B. */
  datatype Suite = Suite(
    public: seq<byte> -> seq<byte>,
    agree: (seq<byte>, seq<byte>) -> seq<byte>,
    wire: seq<byte> -> seq<byte>,
    point: seq<byte> -> seq<byte>,
    wireLength: nat,
    sha256: seq<byte> -> seq<byte>,
    ctr: (seq<byte>, seq<byte>, nat) -> seq<byte>,
    hmac: (seq<byte>, seq<byte>) -> seq<byte>)

  /** Diffie-Hellman commutes, public keys survive their wire form, and the outputs have their lengths. */
  ghost predicate IsSuite(s: Suite) {
    && (forall a, b :: s.agree(a, s.public(b)) == s.agree(b, s.public(a)))
    && (forall a :: s.point(s.wire(s.public(a))) == s.public(a) && |s.wire(s.public(a))| == s.wireLength)
    && (forall m :: |s.sha256(m)| == 32)
    && (forall k, iv, n :: |s.ctr(k, iv, n)| == n)
    && (forall m, k :: |s.hmac(m, k)| == 32)
  }

  const ENC_KEY_LEN := 16
  const ICB_LEN := 16
  const MAC_KEY_LEN := 32
  const MAC_LEN := 8
  const HASH_LEN := 32

  /** ANSI X9.63: the hashes of secret, counter and shared information, counted from 1. */
  ghost function KeyData(s: Suite, secret: seq<byte>, info: seq<byte>, rounds: nat): seq<byte> {
    if rounds == 0 then []
    else KeyData(s, secret, info, rounds - 1) + s.sha256(secret + Put32(rounds % 0x1_0000_0000) + info)
  }

  method AnsiX963KDF(s: Suite, secret: seq<byte>, publicKey: seq<byte>, encKeyLen: nat, macKeyLen: nat, hashLen: nat)
    returns (kdfKey: seq<byte>)
    requires hashLen > 0
    ensures kdfKey == KeyData(s, secret, publicKey, (encKeyLen + macKeyLen + hashLen - 1) / hashLen)
  {
    hide Put32;
    var counter: uint32 := 1;
    kdfKey := [];
    var rounds: nat := (encKeyLen + macKeyLen + hashLen - 1) / hashLen;
    for i := 0 to rounds
      invariant counter == (i + 1) % 0x1_0000_0000
      invariant kdfKey == KeyData(s, secret, publicKey, i)
    {
      var tmpK := s.sha256(secret + Put32(counter) + publicKey);
      assert KeyData(s, secret, publicKey, i + 1) == KeyData(s, secret, publicKey, i) + tmpK;
      kdfKey := kdfKey + tmpK;
      counter := Successor(i + 1, counter);
    }
  }

  /** Incrementing a uint32. */
  function Successor(ghost n: nat, counter: uint32): (r: uint32)
    requires counter == n % 0x1_0000_0000
    ensures r == (n + 1) % 0x1_0000_0000
  {
    (counter + 1) % 0x1_0000_0000
  }

  /** Two rounds yield encryption key, initial counter block and MAC key, end to end and without
      overlap, although the round count is computed without the counter block. */
  lemma KeysCoverKeyData(s: Suite, secret: seq<byte>, info: seq<byte>)
    requires IsSuite(s)
    ensures (ENC_KEY_LEN + MAC_KEY_LEN + HASH_LEN - 1) / HASH_LEN == 2
    ensures var k := KeyData(s, secret, info, 2);
            && |k| == 64
            && k == k[..16] + k[16..32] + k[|k| - 32..]
            && k[..16] + k[16..32] == s.sha256(secret + [0, 0, 0, 1] + info)
            && k[|k| - 32..] == s.sha256(secret + [0, 0, 0, 2] + info)
  {
    assert Put32(1) == [0, 0, 0, 1] && Put32(2) == [0, 0, 0, 2];
    var k := KeyData(s, secret, info, 2);
    var first := s.sha256(secret + Put32(1) + info);
    assert KeyData(s, secret, info, 0) == [];
    assert KeyData(s, secret, info, 1) == first;
    assert k == first + s.sha256(secret + Put32(2) + info);
  }

  /** profileAEncrypt and profileBEncrypt, for a given ephemeral private key. */
  ghost function Concealed(s: Suite, ephemeral: seq<byte>, hnPublic: seq<byte>, msin: string): Option<seq<byte>>
    requires IsSuite(s) && msin != []
  {
    var wire := s.wire(s.public(ephemeral));
    var plain := HexDecode(TbcdOf(msin));
    if plain.None? then None
    else
      var k := KeyData(s, s.agree(ephemeral, hnPublic), wire, 2);
      KeysCoverKeyData(s, s.agree(ephemeral, hnPublic), wire);
      var cipherText := XorAll(plain.value, s.ctr(k[..ENC_KEY_LEN], k[ENC_KEY_LEN..ENC_KEY_LEN + ICB_LEN], |plain.value|));
      Some(wire + cipherText + s.hmac(cipherText, k[|k| - MAC_KEY_LEN..])[..MAC_LEN])
  }

  method ProfileEncrypt(s: Suite, ephemeral: seq<byte>, hnPublic: seq<byte>, msin: string) returns (r: Option<string>)
    requires IsSuite(s) && msin != []
    ensures r == match Concealed(s, ephemeral, hnPublic, msin) case None => None case Some(out) => Some(HexEncode(out))
  {
    hide HexDecode, HexEncode, TbcdOf, KeyData, XorAll;
    var ephemeralPub := s.wire(s.public(ephemeral));
    var sharedKey := s.agree(ephemeral, hnPublic);
    var tbcd := Tbcd(msin);
    var plainBCD := HexDecode(tbcd);
    if plainBCD.None? { return None; }
    var kdfKey := AnsiX963KDF(s, sharedKey, ephemeralPub, ENC_KEY_LEN, MAC_KEY_LEN, HASH_LEN);
    KeysCoverKeyData(s, sharedKey, ephemeralPub);
    var encKey := kdfKey[..ENC_KEY_LEN];
    var iv := kdfKey[ENC_KEY_LEN..ENC_KEY_LEN + ICB_LEN];
    var macKey := kdfKey[|kdfKey| - MAC_KEY_LEN..];
    var cipherText := XorAll(plainBCD.value, s.ctr(encKey, iv, |plainBCD.value|));
    var mac := s.hmac(cipherText, macKey)[..MAC_LEN];
    return Some(HexEncode(ephemeralPub + cipherText + mac));
  }

  /** The home network's side, clause C.3.3 of TS 33.501: None when the tag does not verify. */
  ghost function Deconcealed(s: Suite, hnPrivate: seq<byte>, out: seq<byte>): Option<string>
    requires IsSuite(s)
  {
    if |out| < s.wireLength + 8 then None
    else
      var wire := out[..s.wireLength];
      var cipherText := out[s.wireLength..|out| - 8];
      var secret := s.agree(hnPrivate, s.point(wire));
      var k := KeyData(s, secret, wire, 2);
      KeysCoverKeyData(s, secret, wire);
      if s.hmac(cipherText, k[32..])[..8] != out[|out| - 8..] then None
      else Some(ReadDigits(XorAll(cipherText, s.ctr(k[..16], k[16..32], |cipherText|))))
  }

  /** Every non-empty MSIN of decimal digits is concealed, and the home network verifies the tag and
      recovers it, in both profiles and for every pair of keys. */
  lemma ConcealRoundTrip(s: Suite, ephemeral: seq<byte>, hnPrivate: seq<byte>, msin: string)
    requires IsSuite(s) && msin != [] && IsDigits(msin)
    ensures Concealed(s, ephemeral, s.public(hnPrivate), msin).Some?
    ensures Deconcealed(s, hnPrivate, Concealed(s, ephemeral, s.public(hnPrivate), msin).value) == Some(msin)
  {
    hide TbcdOf, HexDecode, KeyData, XorAll, DigitOctets, ReadDigits;
    TbcdRoundTrip(msin);
    var plain := DigitOctets(msin);
    var wire := s.wire(s.public(ephemeral));
    var secret := s.agree(ephemeral, s.public(hnPrivate));
    var k := KeyData(s, secret, wire, 2);
    KeysCoverKeyData(s, secret, wire);
    var stream := s.ctr(k[..16], k[16..32], |plain|);
    var cipherText := XorAll(plain, stream);
    var mac := s.hmac(cipherText, k[32..])[..MAC_LEN];
    Cut(wire, cipherText, mac);
    XorAllInvolution(plain, stream);
    assert s.agree(hnPrivate, s.public(ephemeral)) == secret;
  }

  // ---- The text of a SUCI ----------------------------------------------------------------------

  datatype ParsedSuci = ParsedSuci(mcc: string, mnc: string, routing: string, scheme: string, keyID: string, output: string)

  predicate Digits(s: string, least: nat, most: nat) {
    least <= |s| <= most && IsDigits(s)
  }

  /** A decimal of at most 255 as the regular expression writes it. */
  predicate IsKeyID(s: string) {
    && Digits(s, 1, 3)
    && (|s| == 3 ==> s[0] == '1' || (s[0] == '2' && (s[1] <= '4' || (s[1] == '5' && s[2] <= '5'))))
  }

  predicate IsHex(s: string) {
    s != [] && forall c | c in s :: HexValue(c).Some?
  }

  predicate IsParsed(x: ParsedSuci) {
    && Digits(x.mcc, 3, 3) && Digits(x.mnc, 2, 3) && Digits(x.routing, 1, 4)
    && |x.scheme| == 1 && '0' <= x.scheme[0] <= '2'
    && IsKeyID(x.keyID) && IsHex(x.output)
  }

  function SuciText(x: ParsedSuci): string {
    Join(["suci", "0", x.mcc, x.mnc, x.routing, x.scheme, x.keyID, x.output], '-')
  }

  /** The regular expression, for a SUPI that is an IMSI; None is the code's nil. */
  function ParseSuci(input: string): Option<ParsedSuci> {
    var m := Split(input, '-');
    if |m| == 8 && m[0] == "suci" && m[1] == "0" && IsParsed(ParsedSuci(m[2], m[3], m[4], m[5], m[6], m[7]))
    then Some(ParsedSuci(m[2], m[3], m[4], m[5], m[6], m[7]))
    else None
  }

  lemma JoinInFront(first: string, rest: seq<string>)
    requires rest != []
    ensures Join([first] + rest, '-') == first + "-" + Join(rest, '-')
  {
    assert ([first] + rest)[1..] == rest;
  }

  /** The text letter by letter. */
  lemma TextIsSpelled(x: ParsedSuci)
    ensures SuciText(x) ==
              "suci-0-" + (x.mcc + "-" + (x.mnc + "-" + (x.routing + "-" + (x.scheme + "-" + (x.keyID + "-" + x.output)))))
  {
    var p1 := [x.output];
    var p2 := [x.keyID] + p1;
    var p3 := [x.scheme] + p2;
    var p4 := [x.routing] + p3;
    var p5 := [x.mnc] + p4;
    var p6 := [x.mcc] + p5;
    var p7 := ["0"] + p6;
    var p8 := ["suci"] + p7;
    assert p8 == ["suci", "0", x.mcc, x.mnc, x.routing, x.scheme, x.keyID, x.output];
    assert Join(p1, '-') == x.output;
    hide Join;
    JoinInFront(x.keyID, p1);
    JoinInFront(x.scheme, p2);
    JoinInFront(x.routing, p3);
    JoinInFront(x.mnc, p4);
    JoinInFront(x.mcc, p5);
    JoinInFront("0", p6);
    JoinInFront("suci", p7);
    var rest := Join(p6, '-');
    assert "suci" + "-" + ("0" + "-" + rest) == "suci-0-" + rest;
  }

  /** Whatever strings a text was made of, hyphens included, it is parsed back to them or to nothing. */
  lemma TextRoundTrip(x: ParsedSuci)
    ensures ParseSuci(SuciText(x)) == if IsParsed(x) then Some(x) else None
  {
    var parts := ["suci", "0", x.mcc, x.mnc, x.routing, x.scheme, x.keyID, x.output];
    SplitInvertsJoin(parts, '-');
    hide Split, Join, IsParsed;
    if y :| y in parts && '-' in y {
      assert '-' !in "suci" && '-' !in "0";
      HyphensAreRefused(x, y);
    }
  }

  lemma HyphensAreRefused(x: ParsedSuci, y: string)
    requires y in [x.mcc, x.mnc, x.routing, x.scheme, x.keyID, x.output] && '-' in y
    ensures !IsParsed(x)
  {
    var i :| 0 <= i < |y| && y[i] == '-';
  }

  /** What CipherSuci is given of the home network. The public key may be missing. */
  datatype HomeKey = HomeKey(scheme: string, public: Option<seq<byte>>, keyID: string)

  datatype Suites = Suites(a: Suite, b: Suite)

  ghost predicate AreSuites(u: Suites) {
    IsSuite(u.a) && IsSuite(u.b)
  }

  /** NilKey and OutOfRange are no errors that the code returns: it dereferences the missing public key,
      and it indexes an empty MSIN. */
  datatype CipherError = TooShort | NotConcealed | UnsupportedScheme | NilKey | OutOfRange

  /** The scheme output as CipherSuci writes it. */
  ghost function OutputText(u: Suites, ephemeral: seq<byte>, msin: string, key: HomeKey): Result<string, CipherError>
    requires AreSuites(u)
  {
    if key.scheme == "0" then Ok(msin)
    else if key.scheme == "1" || key.scheme == "2" then
      if key.public.None? then Err(NilKey)
      else if msin == [] then Err(OutOfRange)
      else
        match Concealed(if key.scheme == "1" then u.a else u.b, ephemeral, key.public.value, msin)
        case None => Err(NotConcealed)
        case Some(out) => Ok(HexEncode(out))
    else Err(UnsupportedScheme)
  }

  ghost function CipheredSuci(u: Suites, ephemeral: seq<byte>, msin: string, mcc: string, mnc: string, routing: string,
                              key: HomeKey): Result<Option<ParsedSuci>, CipherError>
    requires AreSuites(u)
  {
    if |msin| + |mcc| + |mnc| < 14 then Err(TooShort)
    else
      match OutputText(u, ephemeral, msin, key)
      case Err(e) => Err(e)
      case Ok(output) => Ok(ParseSuci(SuciText(ParsedSuci(mcc, mnc, routing, key.scheme, key.keyID, output))))
  }

  method CipherSuci(u: Suites, ephemeral: seq<byte>, msin: string, mcc: string, mnc: string, routing: string, key: HomeKey)
    returns (r: Result<Option<ParsedSuci>, CipherError>)
    requires AreSuites(u)
    ensures r == CipheredSuci(u, ephemeral, msin, mcc, mnc, routing, key)
  {
    hide Concealed, HexEncode, ParseSuci, SuciText;
    if |msin| + |mcc| + |mnc| < 14 { return Err(TooShort); }
    var schemeOutput := msin;
    if key.scheme == "1" || key.scheme == "2" {
      if key.public.None? { return Err(NilKey); }
      if msin == [] { return Err(OutOfRange); }
      var output := ProfileEncrypt(if key.scheme == "1" then u.a else u.b, ephemeral, key.public.value, msin);
      if output.None? { return Err(NotConcealed); }
      schemeOutput := output.value;
    } else if key.scheme != "0" {
      return Err(UnsupportedScheme);
    }
    return Ok(ParseSuci(SuciText(ParsedSuci(mcc, mnc, routing, key.scheme, key.keyID, schemeOutput))));
  }

  /** Under the null scheme the text carries the MSIN itself. */
  lemma NullCipherExactly(u: Suites, ephemeral: seq<byte>, msin: string, mcc: string, mnc: string, ri: string, key: HomeKey)
    requires AreSuites(u) && key.scheme == "0" && |msin| + |mcc| + |mnc| >= 14
    ensures var x := ParsedSuci(mcc, mnc, ri, "0", key.keyID, msin);
            CipheredSuci(u, ephemeral, msin, mcc, mnc, ri, key) == Ok(if IsParsed(x) then Some(x) else None)
  {
    hide ParseSuci, SuciText;
    TextRoundTrip(ParsedSuci(mcc, mnc, ri, "0", key.keyID, msin));
  }

  // ---- SUCI octets -----------------------------------------------------------------------------

  /** NilSuci and IndexOutOfRange are no errors that the code returns: it dereferences the nil of
      CipherSuci, and it indexes an empty MSIN, an MCC of fewer than three digits or an MNC of fewer than two. */
  datatype SuciError = BadScheme | BadKeyID | BadOutput | BadCipher(error: CipherError) | NilSuci | BadPLMN
    | BadRoutingIndicator | IndexOutOfRange

  /** strconv.ParseUint for one octet, in base ten. */
  function ParseOctet(s: string): Option<byte> {
    if s == [] || !IsDigits(s) || Decimal(s) > 255 then None else Some(Decimal(s))
  }

  function Decimal(s: string): nat
    requires IsDigits(s)
  {
    if s == [] then 0 else 10 * Decimal(s[..|s| - 1]) + (s[|s| - 1] as int - '0' as int)
  }

  function Reversed(s: string): (r: string)
    ensures |r| == |s| && forall i | 0 <= i < |s| :: r[i] == s[|s| - 1 - i]
  {
    if s == [] then [] else Reversed(s[1..]) + [s[0]]
  }

  /** getMccAndMncInOctets; the code indexes three digits of the MCC and two or three of the MNC. */
  function PLMNOctets(mcc: string, mnc: string): Option<seq<byte>>
    requires |mcc| >= 3 && |mnc| >= 2
  {
    var c, n := Reversed(mcc), Reversed(mnc);
    HexDecode(if |n| == 2 then [c[1], c[2], 'f', c[0], n[0], n[1]] else [c[1], c[2], n[0], c[0], n[1], n[2]])
  }

  /** getRoutingIndicatorInOctets: the empty indicator is "0", and filler completes four semi-octets. */
  function RoutingOctets(routing: string): Option<seq<byte>> {
    var ri := if routing == [] then "0" else routing;
    if |ri| > 4 then None else HexDecode(Swapped(ri + seq(4 - |ri|, _ => 'F')))
  }

  ghost function SchemeOutput(u: Suites, ephemeral: seq<byte>, msin: string, mcc: string, mnc: string, routing: string,
                              key: HomeKey, scheme: byte): Result<seq<byte>, SuciError>
    requires AreSuites(u)
  {
    if scheme == 0 then
      if msin == [] then Err(IndexOutOfRange)
      else (match HexDecode(TbcdOf(msin)) case None => Err(BadOutput) case Some(out) => Ok(out))
    else
      match CipheredSuci(u, ephemeral, msin, mcc, mnc, routing, key)
      case Err(e) => Err(BadCipher(e))
      case Ok(None) => Err(NilSuci)
      case Ok(Some(x)) => (match HexDecode(x.output) case None => Err(BadOutput) case Some(out) => Ok(out))
  }

  ghost function SuciOctets(u: Suites, ephemeral: seq<byte>, msin: string, mcc: string, mnc: string, routing: string,
                            key: HomeKey): Result<seq<byte>, SuciError>
    requires AreSuites(u)
  {
    var s, id := ParseOctet(key.scheme), ParseOctet(key.keyID);
    if s.None? then Err(BadScheme)
    else if id.None? then Err(BadKeyID)
    else
      var output := SchemeOutput(u, ephemeral, msin, mcc, mnc, routing, key, s.value);
      if output.Err? then Err(output.error)
      else if |mcc| < 3 || |mnc| < 2 then Err(IndexOutOfRange)
      else if PLMNOctets(mcc, mnc).None? then Err(BadPLMN)
      else if RoutingOctets(routing).None? then Err(BadRoutingIndicator)
      else Ok([1] + PLMNOctets(mcc, mnc).value + RoutingOctets(routing).value + [s.value, id.value] + output.value)
  }

  method GetRoutingIndicatorInOctets(routing: string) returns (r: Option<seq<byte>>)
    ensures r == RoutingOctets(routing)
  {
    var ri := if |routing| == 0 then "0" else routing;
    if |ri| > 4 { return None; }
    ghost var full := ri + seq(4 - |ri|, _ => 'F');
    while |ri| < 4
      invariant |ri| <= 4 && ri == full[..|ri|] && |full| == 4
      invariant forall i | |ri| <= i < 4 :: full[i] == 'F'
    {
      ri := ri + ['F'];
    }
    assert ri == full;
    var a := new char[|ri|](i requires 0 <= i < |ri| => ri[i]);
    assert a[..] == ri;
    SwapPairs(a);
    return HexDecode(a[..]);
  }

  method EncodeSuci(u: Suites, ephemeral: seq<byte>, msin: string, mcc: string, mnc: string, routing: string, key: HomeKey)
    returns (r: Result<seq<byte>, SuciError>)
    requires AreSuites(u)
    ensures r == SuciOctets(u, ephemeral, msin, mcc, mnc, routing, key)
  {
    hide HexDecode, TbcdOf, PLMNOctets, RoutingOctets, CipheredSuci, ParseOctet, AreSuites;
    var protScheme := ParseOctet(key.scheme);
    if protScheme.None? { return Err(BadScheme); }
    var hnPubKeyId := ParseOctet(key.keyID);
    if hnPubKeyId.None? { return Err(BadKeyID); }
    var text;
    if protScheme.value == 0 {
      if msin == [] { return Err(IndexOutOfRange); }
      text := Tbcd(msin);
    } else {
      var suci := CipherSuci(u, ephemeral, msin, mcc, mnc, routing, key);
      if suci.Err? { return Err(BadCipher(suci.error)); }
      if suci.value.None? { return Err(NilSuci); }
      text := suci.value.value.output;
    }
    var output := HexDecode(text);
    if output.None? { return Err(BadOutput); }
    assert SchemeOutput(u, ephemeral, msin, mcc, mnc, routing, key, protScheme.value) == Ok(output.value);
    if |mcc| < 3 || |mnc| < 2 { return Err(IndexOutOfRange); }
    r := FillSuci(mcc, mnc, routing, protScheme.value, hnPubKeyId.value, output.value);
  }

  /** The buffer, once the scheme output is known. */
  method FillSuci(mcc: string, mnc: string, routing: string, protScheme: byte, hnPubKeyId: byte, schemeOutput: seq<byte>)
    returns (r: Result<seq<byte>, SuciError>)
    requires |mcc| >= 3 && |mnc| >= 2
    ensures r == if PLMNOctets(mcc, mnc).None? then Err(BadPLMN)
                 else if RoutingOctets(routing).None? then Err(BadRoutingIndicator)
                 else Ok([1] + PLMNOctets(mcc, mnc).value + RoutingOctets(routing).value + [protScheme, hnPubKeyId] + schemeOutput)
  {
    hide HexDecode, Swapped, PLMNOctets, RoutingOctets;
    var buffer := new byte[8 + |schemeOutput|](_ => 0);
    buffer[0] := 1;
    var plmnID := PLMNOctets(mcc, mnc);
    if plmnID.None? { return Err(BadPLMN); }
    PLMNLength(mcc, mnc);
    Copy(buffer, 1, plmnID.value);
    var routingInd := GetRoutingIndicatorInOctets(routing);
    if routingInd.None? { return Err(BadRoutingIndicator); }
    RoutingLength(routing);
    ghost var plmn := buffer[1..4];
    Copy(buffer, 4, routingInd.value);
    assert buffer[1..4] == plmn == plmnID.value && buffer[4..6] == routingInd.value && buffer[0] == 1;
    buffer[6] := protScheme;
    buffer[7] := hnPubKeyId;
    ghost var routingOctets := buffer[4..6];
    assert buffer[1..4] == plmn && routingOctets == routingInd.value;
    Copy(buffer, 8, schemeOutput);
    assert buffer[1..4] == plmn && buffer[4..6] == routingOctets && buffer[8..] == schemeOutput;
    SuciPieces(buffer[..]);
    assert buffer[..][1..4] == plmn && buffer[..][4..6] == routingOctets && buffer[..][8..] == schemeOutput;
    return Ok(buffer[..]);
  }

  lemma SuciPieces(b: seq<byte>)
    requires |b| >= 8
    ensures b == [b[0]] + b[1..4] + b[4..6] + [b[6], b[7]] + b[8..]
  {
  }

  lemma PLMNLength(mcc: string, mnc: string)
    requires |mcc| >= 3 && |mnc| >= 2
    ensures PLMNOctets(mcc, mnc).Some? ==> |PLMNOctets(mcc, mnc).value| == 3
  {
  }

  lemma RoutingLength(routing: string)
    ensures RoutingOctets(routing).Some? ==> |RoutingOctets(routing).value| == 2
  {
  }

  // ---- Reading a SUCI --------------------------------------------------------------------------

  datatype SuciFields = SuciFields(mcc: string, mnc: string, routing: string, scheme: byte, keyID: byte, output: seq<byte>)

  /** The digits of a field of semi-octets up to the filler. */
  function Field(octets: seq<byte>): string {
    if octets == [] || octets[0] % 16 > 9 then []
    else if octets[0] / 16 > 9 then [HexDigit(octets[0] % 16)]
    else [HexDigit(octets[0] % 16), HexDigit(octets[0] / 16)] + Field(octets[1..])
  }

  /** MCC and MNC of three octets; a filler in the third nibble leaves an MNC of two digits. */
  function PLMNDigits(b: seq<byte>): (string, string)
    requires |b| == 3
  {
    ([HexDigit(b[0] % 16), HexDigit(b[0] / 16), HexDigit(b[1] % 16)],
     [HexDigit(b[2] % 16), HexDigit(b[2] / 16)] + if b[1] / 16 == 15 then [] else [HexDigit(b[1] / 16)])
  }

  /** Figure 9.11.3.4.3 of TS 24.501, for a SUPI that is an IMSI. */
  function ReadSuci(b: seq<byte>): Option<SuciFields> {
    if |b| < 8 || b[0] != 1 then None
    else
      var (mcc, mnc) := PLMNDigits(b[1..4]);
      Some(SuciFields(mcc, mnc, Field(b[4..6]), b[6], b[7], b[8..]))
  }

  lemma PLMNOfDigits(mcc: string, mnc: string)
    requires |mcc| == 3 && 2 <= |mnc| <= 3 && IsDigits(mcc) && IsDigits(mnc)
    ensures PLMNOctets(mcc, mnc) ==
              Some([16 * DigitValue(mcc[1]) + DigitValue(mcc[0]),
                    16 * (if |mnc| == 2 then 15 else DigitValue(mnc[2])) + DigitValue(mcc[2]),
                    16 * DigitValue(mnc[1]) + DigitValue(mnc[0])])
  {
    hide HexDecode;
    var third := if |mnc| == 2 then 'f' else mnc[2];
    var c, n := Reversed(mcc), Reversed(mnc);
    var s := [mcc[1], mcc[0], third, mcc[2], mnc[1], mnc[0]];
    assert PLMNOctets(mcc, mnc) == HexDecode(s) by {
      if |n| == 2 {
        assert [c[1], c[2], 'f', c[0], n[0], n[1]] == s;
      } else {
        assert [c[1], c[2], n[0], c[0], n[1], n[2]] == s;
      }
    }
    assert HexValue(third) == Some(if |mnc| == 2 then 15 else DigitValue(mnc[2]));
    DigitFacts(mcc[0]);
    DigitFacts(mcc[1]);
    DigitFacts(mcc[2]);
    DigitFacts(mnc[0]);
    DigitFacts(mnc[1]);
    assert PairValue(mcc[1], mcc[0]) == 16 * DigitValue(mcc[1]) + DigitValue(mcc[0]);
    assert PairValue(mnc[1], mnc[0]) == 16 * DigitValue(mnc[1]) + DigitValue(mnc[0]);
    hide PLMNOctets, HexValue, DigitValue, Reversed;
    ThreePairs(mcc[1], mcc[0], third, mcc[2], mnc[1], mnc[0]);
  }

  lemma TwoPairs(a: char, b: char, c: char, d: char)
    requires HexValue(a).Some? && HexValue(b).Some? && HexValue(c).Some? && HexValue(d).Some?
    ensures HexDecode([a, b, c, d]) == Some([PairValue(a, b), PairValue(c, d)])
  {
    EmptyDecodes();
    hide HexDecode, HexValue, PairValue;
    HexPair(c, d, [], []);
    assert [c, d] + [] == [c, d] && [PairValue(c, d)] + [] == [PairValue(c, d)];
    HexPair(a, b, [c, d], [PairValue(c, d)]);
    assert [a, b] + [c, d] == [a, b, c, d];
    assert [PairValue(a, b)] + [PairValue(c, d)] == [PairValue(a, b), PairValue(c, d)];
  }

  lemma ThreePairs(a: char, b: char, c: char, d: char, e: char, f: char)
    requires HexValue(a).Some? && HexValue(b).Some? && HexValue(c).Some? && HexValue(d).Some?
    requires HexValue(e).Some? && HexValue(f).Some?
    ensures HexDecode([a, b, c, d, e, f]) == Some([PairValue(a, b), PairValue(c, d), PairValue(e, f)])
  {
    hide HexDecode, HexValue, PairValue;
    TwoPairs(c, d, e, f);
    HexPair(a, b, [c, d, e, f], [PairValue(c, d), PairValue(e, f)]);
    assert [a, b] + [c, d, e, f] == [a, b, c, d, e, f];
    assert [PairValue(a, b)] + [PairValue(c, d), PairValue(e, f)] ==
           [PairValue(a, b), PairValue(c, d), PairValue(e, f)];
  }

  lemma EmptyDecodes()
    ensures HexDecode([]) == Some([])
  {
  }

  /** The value of a character of a routing indicator: a digit, or the filler. */
  function Nibble(ri: string, i: nat): (v: byte)
    requires IsDigits(ri)
    ensures v < 16 && (v > 9 <==> i >= |ri|)
    ensures i < |ri| ==> HexDigit(v) == ri[i]
  {
    if i < |ri| then DigitValue(ri[i]) else 15
  }

  lemma RoutingOfDigits(ri: string)
    requires 1 <= |ri| <= 4 && IsDigits(ri)
    ensures RoutingOctets(ri) == Some([16 * Nibble(ri, 1) + Nibble(ri, 0), 16 * Nibble(ri, 3) + Nibble(ri, 2)])
  {
    var p := ri + seq(4 - |ri|, _ => 'F');
    assert Swapped(p) == [p[1], p[0], p[3], p[2]];
    assert RoutingOctets(ri) == HexDecode(Swapped(p));
    forall i | 0 <= i < 4 ensures HexValue(p[i]) == Some(Nibble(ri, i)) {
      if i < |ri| { DigitFacts(ri[i]); } else { assert p[i] == 'F'; }
    }
    assert PairValue(p[1], p[0]) == 16 * Nibble(ri, 1) + Nibble(ri, 0);
    assert PairValue(p[3], p[2]) == 16 * Nibble(ri, 3) + Nibble(ri, 2);
    hide HexDecode, HexValue, Swapped, Nibble, RoutingOctets, PairValue;
    TwoPairs(p[1], p[0], p[3], p[2]);
  }

  lemma RoutingFieldOfDigits(ri: string)
    requires 1 <= |ri| <= 4 && IsDigits(ri)
    ensures Field([16 * Nibble(ri, 1) + Nibble(ri, 0), 16 * Nibble(ri, 3) + Nibble(ri, 2)]) == ri
  {
    hide Nibble, HexDigit;
    var o: seq<byte> := [16 * Nibble(ri, 1) + Nibble(ri, 0), 16 * Nibble(ri, 3) + Nibble(ri, 2)];
    var second := Field(o[1..]);
    assert o[1..][1..] == [];
    assert Field(o[1..][1..]) == [];
    assert o[0] % 16 == Nibble(ri, 0) && o[0] / 16 == Nibble(ri, 1);
    assert o[1..][0] % 16 == Nibble(ri, 2) && o[1..][0] / 16 == Nibble(ri, 3);
    assert second == if |ri| <= 2 then [] else if |ri| == 3 then [ri[2]] else [ri[2], ri[3]];
    assert Field(o) == if |ri| == 1 then [ri[0]] else [ri[0], ri[1]] + second;
  }

  /** Whatever the scheme, the octets of a SUCI give back MCC, MNC of two or three digits, routing
      indicator, scheme, key identifier and scheme output. */
  lemma SuciReadsBack(mcc: string, mnc: string, ri: string, scheme: byte, keyID: byte, output: seq<byte>)
    requires IsDigits(mcc) && IsDigits(mnc) && IsDigits(ri)
    requires |mcc| == 3 && 2 <= |mnc| <= 3 && 1 <= |ri| <= 4
    ensures PLMNOctets(mcc, mnc).Some? && RoutingOctets(ri).Some?
    ensures ReadSuci([1] + PLMNOctets(mcc, mnc).value + RoutingOctets(ri).value + [scheme, keyID] + output) ==
              Some(SuciFields(mcc, mnc, ri, scheme, keyID, output))
  {
    hide PLMNOctets, RoutingOctets, Field, Nibble, PLMNDigits;
    PLMNOfDigits(mcc, mnc);
    RoutingOfDigits(ri);
    RoutingFieldOfDigits(ri);
    var plmn, routing := PLMNOctets(mcc, mnc).value, RoutingOctets(ri).value;
    PLMNReadsBack(mcc, mnc);
    hide DigitValue;
    SuciPositions(plmn, routing, scheme, keyID, output);
  }

  lemma SuciPositions(plmn: seq<byte>, routing: seq<byte>, scheme: byte, keyID: byte, output: seq<byte>)
    requires |plmn| == 3 && |routing| == 2
    ensures var b := [1] + plmn + routing + [scheme, keyID] + output;
            && |b| >= 8 && b[0] == 1 && b[6] == scheme && b[7] == keyID
            && b[1..4] == plmn && b[4..6] == routing && b[8..] == output
  {
  }

  lemma PLMNReadsBack(mcc: string, mnc: string)
    requires Digits(mcc, 3, 3) && Digits(mnc, 2, 3)
    ensures PLMNDigits([16 * DigitValue(mcc[1]) + DigitValue(mcc[0]),
                        16 * (if |mnc| == 2 then 15 else DigitValue(mnc[2])) + DigitValue(mcc[2]),
                        16 * DigitValue(mnc[1]) + DigitValue(mnc[0])]) == (mcc, mnc)
  {
    hide HexDigit, DigitValue;
    forall i | 0 <= i < 3 ensures HexDigit(DigitValue(mcc[i])) == mcc[i] { DigitFacts(mcc[i]); }
    forall i | 0 <= i < |mnc| ensures HexDigit(DigitValue(mnc[i])) == mnc[i] { DigitFacts(mnc[i]); }
    assert mcc == [mcc[0], mcc[1], mcc[2]];
    assert mnc == [mnc[0], mnc[1]] + if |mnc| == 2 then [] else [mnc[2]];
  }

  /** With the null scheme every subscriber's SUCI is built, and it gives back MCC, MNC, routing
      indicator, key identifier and, through its semi-octets, the MSIN. */
  lemma NullSuciRoundTrip(u: Suites, ephemeral: seq<byte>, msin: string, mcc: string, mnc: string, ri: string, key: HomeKey)
    requires AreSuites(u) && msin != [] && IsDigits(msin)
    requires Digits(mcc, 3, 3) && Digits(mnc, 2, 3) && Digits(ri, 1, 4)
    requires ParseOctet(key.scheme) == Some(0) && ParseOctet(key.keyID).Some?
    ensures var r := SuciOctets(u, ephemeral, msin, mcc, mnc, ri, key);
            && r.Ok?
            && ReadSuci(r.value) == Some(SuciFields(mcc, mnc, ri, 0, ParseOctet(key.keyID).value, DigitOctets(msin)))
            && ReadDigits(DigitOctets(msin)) == msin
  {
    hide HexDecode, TbcdOf, ParseOctet, PLMNOctets, RoutingOctets, DigitOctets, ReadDigits, ReadSuci, CipheredSuci, AreSuites;
    TbcdRoundTrip(msin);
    SuciReadsBack(mcc, mnc, ri, 0, ParseOctet(key.keyID).value, DigitOctets(msin));
  }

  lemma HexEncodeIsHex(b: seq<byte>)
    requires b != []
    ensures IsHex(HexEncode(b))
  {
    HexCharacters(b);
    hide HexEncode, HexValue;
    assert |HexEncode(b)| > 0;
  }

  lemma {:induction false} HexCharacters(b: seq<byte>)
    ensures forall c | c in HexEncode(b) :: HexValue(c).Some?
  {
    if b != [] {
      HexCharacters(b[1..]);
      HexDigitValue(b[0] / 16);
      HexDigitValue(b[0] % 16);
    }
  }

  /** Of the key identifiers that are read as an octet, the text refuses exactly those that are written
      with more than three characters or with three and a leading zero. */
  lemma KeyIDsInText(k: string)
    ensures IsKeyID(k) <==> ParseOctet(k).Some? && (|k| <= 2 || (|k| == 3 && k[0] != '0'))
  {
    if Digits(k, 1, 3) { ShortDecimal(k); }
  }

  lemma ShortDecimal(k: string)
    requires Digits(k, 1, 3)
    ensures Decimal(k) == if |k| == 1 then DigitValue(k[0])
                          else if |k| == 2 then 10 * DigitValue(k[0]) + DigitValue(k[1])
                          else 100 * DigitValue(k[0]) + 10 * DigitValue(k[1]) + DigitValue(k[2])
  {
    assert Decimal([]) == 0;
    assert k[..1][..0] == [] && Decimal(k[..1]) == DigitValue(k[0]);
    if |k| >= 2 {
      assert k[..2][..1] == k[..1] && Decimal(k[..2]) == 10 * Decimal(k[..1]) + DigitValue(k[1]);
    }
    assert k[..|k|] == k;
  }

  lemma {:induction false} LeadingZeros(n: nat, t: string)
    requires IsDigits(t)
    ensures IsDigits(seq(n, _ => '0') + t) && Decimal(seq(n, _ => '0') + t) == Decimal(t)
    decreases |t|, n
  {
    var s := seq(n, _ => '0') + t;
    if t != [] {
      LeadingZeros(n, t[..|t| - 1]);
      assert s[..|s| - 1] == seq(n, _ => '0') + t[..|t| - 1];
    } else if n > 0 {
      LeadingZeros(n - 1, t);
      assert s[..|s| - 1] == seq(n - 1, _ => '0') + t;
    }
  }

  lemma {:induction false} LongDecimal(t: string)
    requires IsDigits(t) && |t| > 3 && t[0] != '0'
    ensures Decimal(t) >= 1000
  {
    var u := t[..|t| - 1];
    if |t| > 4 { LongDecimal(u); } else { ShortDecimal(u); }
  }

  /** Which numbers are read as an octet, with any number of zeros in front: those of at most three digits
      that are worth at most 255. */
  lemma ParseOctetExactly(n: nat, t: string)
    requires IsDigits(t) && t != [] && (t[0] != '0' || |t| == 1)
    ensures ParseOctet(seq(n, _ => '0') + t) ==
              if |t| == 1 then Some(DigitValue(t[0]))
              else if |t| == 2 then Some(10 * DigitValue(t[0]) + DigitValue(t[1]))
              else
                var v := if |t| > 3 then 256 else 100 * (DigitValue(t[0]) as int) + 10 * (DigitValue(t[1]) as int) + DigitValue(t[2]) as int;
                if v <= 255 then Some(v) else None
  {
    LeadingZeros(n, t);
    if |t| <= 3 { ShortDecimal(t); } else { LongDecimal(t); }
  }

  /** The routing indicator: an empty one is "0", one of up to four digits is encoded, a longer one is refused. */
  lemma RoutingExactly(ri: string)
    requires IsDigits(ri)
    ensures RoutingOctets(ri).Some? <==> |ri| <= 4
    ensures RoutingOctets([]) == Some([0xf0, 0xff])
  {
    if 1 <= |ri| <= 4 { RoutingOfDigits(ri); }
    RoutingOfDigits("0");
    assert RoutingOctets([]) == RoutingOctets("0");
  }

  /** The first failure of the code's order is the one reported. */
  lemma FirstFailureIsReported(u: Suites, ephemeral: seq<byte>, msin: string, mcc: string, mnc: string, ri: string, key: HomeKey)
    requires AreSuites(u)
    ensures var r := SuciOctets(u, ephemeral, msin, mcc, mnc, ri, key);
            if ParseOctet(key.scheme).None? then r == Err(BadScheme)
            else if ParseOctet(key.keyID).None? then r == Err(BadKeyID)
            else if ParseOctet(key.scheme).value == 0 && msin == [] then r == Err(IndexOutOfRange)
            else if ParseOctet(key.scheme).value == 0 && HexDecode(TbcdOf(msin)).None? then r == Err(BadOutput)
            else if ParseOctet(key.scheme).value == 0 then
              if |mcc| < 3 || |mnc| < 2 then r == Err(IndexOutOfRange)
              else if PLMNOctets(mcc, mnc).None? then r == Err(BadPLMN)
              else if RoutingOctets(ri).None? then r == Err(BadRoutingIndicator)
              else r.Ok?
            else r.Err? ==> r.error in {IndexOutOfRange, BadOutput, NilSuci, BadPLMN, BadRoutingIndicator} || r.error.BadCipher?
  {
    hide HexDecode, TbcdOf, PLMNOctets, RoutingOctets, CipheredSuci, ParseOctet;
  }

  /** The form of the fields that the text of a SUCI can carry. */
  predicate FitsText(mcc: string, mnc: string, ri: string, keyID: string) {
    && Digits(mcc, 3, 3) && Digits(mnc, 2, 3) && Digits(ri, 1, 4)
    && (|keyID| <= 2 || (|keyID| == 3 && keyID[0] != '0'))
  }

  /** With any other scheme, for every MSIN of decimal digits and every home network key pair: an error
      for fewer than fourteen digits and for a scheme other than "1" and "2"; the dereference of a missing
      public key and the index into an empty MSIN; otherwise octets if and only if the text can carry the fields, and without that the
      dereference of the nil SUCI. From the octets the home network reads the fields and recovers the MSIN. */
  lemma ConcealedSuciExactly(u: Suites, ephemeral: seq<byte>, hnPrivate: seq<byte>, msin: string, mcc: string,
                             mnc: string, ri: string, key: HomeKey)
    requires AreSuites(u) && IsDigits(msin)
    requires ParseOctet(key.scheme).Some? && ParseOctet(key.scheme).value != 0 && ParseOctet(key.keyID).Some?
    requires var s := if key.scheme == "1" then u.a else u.b; key.public.Some? ==> key.public.value == s.public(hnPrivate)
    ensures var r := SuciOctets(u, ephemeral, msin, mcc, mnc, ri, key);
            var s := if key.scheme == "1" then u.a else u.b;
            if |msin| + |mcc| + |mnc| < 14 then r == Err(BadCipher(TooShort))
            else if key.scheme != "1" && key.scheme != "2" then r == Err(BadCipher(UnsupportedScheme))
            else if key.public.None? then r == Err(BadCipher(NilKey))
            else if msin == [] then r == Err(BadCipher(OutOfRange))
            else if !FitsText(mcc, mnc, ri, key.keyID) then r == Err(NilSuci)
            else
              && r.Ok? && ReadSuci(r.value).Some?
              && var f := ReadSuci(r.value).value;
                 && f == SuciFields(mcc, mnc, ri, ParseOctet(key.scheme).value, ParseOctet(key.keyID).value, f.output)
                 && Deconcealed(s, hnPrivate, f.output) == Some(msin)
  {
    var s := if key.scheme == "1" then u.a else u.b;
    var public := s.public(hnPrivate);
    hide HexEncode, HexDecode, PLMNOctets, RoutingOctets, ReadSuci, Concealed, Deconcealed, CipheredSuci, ParseSuci;
    assert key.scheme != "0" by { ShortDecimal("0"); }
    hide ParseOctet, FitsText;
    assert IsSuite(s);
    hide AreSuites, IsSuite;
    if msin != [] { ConcealRoundTrip(s, ephemeral, hnPrivate, msin); }
    CipheredExactly(u, ephemeral, public, msin, mcc, mnc, ri, key);
    if msin != [] && |msin| + |mcc| + |mnc| >= 14 && (key.scheme == "1" || key.scheme == "2") && key.public.Some?
       && FitsText(mcc, mnc, ri, key.keyID) {
      var out := Concealed(s, ephemeral, public, msin).value;
      HexRoundTrip(out);
      assert Digits(mcc, 3, 3) && Digits(mnc, 2, 3) && Digits(ri, 1, 4) by { FittingDigits(mcc, mnc, ri, key.keyID); }
      SuciReadsBack(mcc, mnc, ri, ParseOctet(key.scheme).value, ParseOctet(key.keyID).value, out);
    }
  }

  lemma FittingDigits(mcc: string, mnc: string, ri: string, keyID: string)
    requires FitsText(mcc, mnc, ri, keyID)
    ensures Digits(mcc, 3, 3) && Digits(mnc, 2, 3) && Digits(ri, 1, 4)
  {
  }

  /** What CipherSuci makes of a protection profile. */
  lemma CipheredExactly(u: Suites, ephemeral: seq<byte>, public: seq<byte>, msin: string, mcc: string, mnc: string, ri: string,
                        key: HomeKey)
    requires AreSuites(u) && key.scheme != "0" && ParseOctet(key.keyID).Some?
    requires msin != [] ==> Concealed(if key.scheme == "1" then u.a else u.b, ephemeral, public, msin).Some?
    requires key.public.Some? ==> key.public.value == public
    ensures CipheredSuci(u, ephemeral, msin, mcc, mnc, ri, key) ==
              if |msin| + |mcc| + |mnc| < 14 then Err(TooShort)
              else if key.scheme != "1" && key.scheme != "2" then Err(UnsupportedScheme)
              else if key.public.None? then Err(NilKey)
              else if msin == [] then Err(OutOfRange)
              else var out := Concealed(if key.scheme == "1" then u.a else u.b, ephemeral, public, msin).value;
                   Ok(if FitsText(mcc, mnc, ri, key.keyID)
                      then Some(ParsedSuci(mcc, mnc, ri, key.scheme, key.keyID, HexEncode(out))) else None)
  {
    if msin != [] {
      var s := if key.scheme == "1" then u.a else u.b;
      var out := Concealed(s, ephemeral, public, msin).value;
      assert out != [] by { ConcealedHasTag(s, ephemeral, public, msin); }
      var x := ParsedSuci(mcc, mnc, ri, key.scheme, key.keyID, HexEncode(out));
      hide Concealed, ParseSuci, SuciText, AreSuites;
      KeyIDsInText(key.keyID);
      HexEncodeIsHex(out);
      hide HexEncode, IsHex, IsKeyID, ParseOctet;
      assert key.scheme == "1" || key.scheme == "2" ==> (IsParsed(x) <==> FitsText(mcc, mnc, ri, key.keyID));
      TextRoundTrip(x);
    }
  }

  /** The nil dereference does happen: for every subscriber whose home network key has the identifier
      "007", which is read as the octet 7. */
  lemma KeyIDIsRefused(u: Suites, ephemeral: seq<byte>, hnPrivate: seq<byte>, msin: string, mcc: string, mnc: string, ri: string)
    requires AreSuites(u) && msin != [] && IsDigits(msin) && |msin| + |mcc| + |mnc| >= 14
    ensures ParseOctet("007") == Some(7)
    ensures var key := HomeKey("1", Some(u.a.public(hnPrivate)), "007");
            SuciOctets(u, ephemeral, msin, mcc, mnc, ri, key) == Err(NilSuci)
  {
    SevenIsRead();
    assert !FitsText(mcc, mnc, ri, "007");
    hide AreSuites, SuciOctets, ReadSuci, Deconcealed, ParseOctet, FitsText, IsDigits;
    ConcealedSuciExactly(u, ephemeral, hnPrivate, msin, mcc, mnc, ri, HomeKey("1", Some(u.a.public(hnPrivate)), "007"));
  }

  lemma SevenIsRead()
    ensures ParseOctet("007") == Some(7) && ParseOctet("1") == Some(1)
  {
    ShortDecimal("007");
    ShortDecimal("1");
    hide Decimal;
  }

  lemma ConcealedHasTag(s: Suite, ephemeral: seq<byte>, hnPublic: seq<byte>, msin: string)
    requires IsSuite(s) && msin != []
    ensures var c := Concealed(s, ephemeral, hnPublic, msin); c.Some? ==> |c.value| >= MAC_LEN
  {
  }
}
