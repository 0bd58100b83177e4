/** The security context of a 5G UE and the two functions every NAS message passes through
    (internal/api/gnb_security.go, internal/store/gnb_ue_context.go). */
module UEContexts {
  import opened Words
  import opened Bits
  import opened NasSecurity
  import opened NasCount

  /** The value of a UE's security fields. */
  datatype Security = Security(kamf: seq<byte>, keys: Keys, ulCount: uint32, dlCount: uint32,
                               active: bool, lastUplink: seq<byte>)

  /** The overrides of a negative test. */
  datatype Overrides = Overrides(count: Option<uint32>, corruptMAC: bool)

  /** What a downlink message yields: nothing, or octets handed to the content decoder together with
      the outcome of the integrity check when there was one. */
  datatype Downlink = Dropped | Read(nas: seq<byte>, verified: Option<bool>)

  // ---- Specification ---------------------------------------------------------------------------

  ghost predicate HasContext(s: Security) {
    s.active || s.kamf != []
  }

  ghost function Reset(s: Security, sht: byte): Security {
    if IsNewContext(sht) then s.(ulCount := 0, dlCount := 0) else s
  }

  /** The COUNT an uplink message consumes. */
  ghost function Allocated(s: Security, sht: byte): uint32 {
    Reset(s, sht).ulCount
  }

  ghost function UsedCount(s: Security, sht: byte, req: Overrides): uint32 {
    if req.count.Some? then req.count.value else Allocated(s, sht)
  }

  ghost function UplinkOctets(p: Primitives, s: Security, plain: seq<byte>, sht: byte, req: Overrides): Option<seq<byte>>
    requires Sized(p)
  {
    if !HasContext(s) || p.canonical(plain).None? then None
    else
      match Wrap(p, p.canonical(plain).value, sht, UsedCount(s, sht, req), s.keys, NasSecurity.Uplink)
      case None => None
      case Some(w) => Some(if req.corruptMAC then w[2 := Xor(w[2], 0xff)] else w)
  }

  ghost function AfterUplink(p: Primitives, s: Security, plain: seq<byte>, sht: byte, req: Overrides): Security
    requires Sized(p)
  {
    if !HasContext(s) then s
    else
      var s1 := Reset(s, sht);
      var s2 := s1.(ulCount := (s1.ulCount + 1) % 0x1_0000_0000);
      var sent := UplinkOctets(p, s, plain, sht, req);
      if sent.Some? then s2.(lastUplink := sent.value) else s2
  }

  ghost function AfterCommand(p: Primitives, s: Security, command: Option<(byte, byte)>): Security {
    match command
    case None => s
    case Some((ciphering, integrity)) =>
      var keys := s.keys.(cipheringAlg := ciphering, integrityAlg := integrity);
      match p.deriveKeys(s.kamf, ciphering, integrity)
      case None => s.(keys := keys)
      case Some((enc, intg)) =>
        s.(keys := keys.(knasEnc := enc, knasInt := intg), dlCount := 0, active := true)
  }

  ghost predicate IsSecured(message: seq<byte>) {
    |message| >= 7 && message[1] % 16 != PLAIN
  }

  /** The command a message carries to the context, before any check of its MAC. */
  ghost function CommandIn(p: Primitives, message: seq<byte>): Option<(byte, byte)> {
    if IsSecured(message) && IsNewContext(message[1] % 16) then p.command(message[7..]) else None
  }

  ghost function AfterDownlink(p: Primitives, s: Security, message: seq<byte>): Security {
    if !IsSecured(message) then s
    else AfterCommand(p, s.(dlCount := Estimate(s.dlCount, message[6])), CommandIn(p, message))
  }

  ghost function DownlinkResult(p: Primitives, s: Security, message: seq<byte>): Downlink
    requires Sized(p)
  {
    if |message| < 2 then Dropped
    else if message[1] % 16 == PLAIN then Read(message, None)
    else if |message| < 7 then Dropped
    else
      var s' := AfterDownlink(p, s, message);
      if !s'.active then Read(message[7..], None)
      else
        match Unwrap(p, message, Estimate(s.dlCount, message[6]), s'.keys, NasSecurity.Downlink)
        case Failed => Dropped
        case Mismatch(plain) => Read(plain, Some(false))
        case Verified(plain) => Read(plain, Some(true))
  }

  method InvertOctet(message: seq<byte>, i: nat) returns (r: seq<byte>)
    requires i < |message|
    ensures r == message[i := Xor(message[i], 0xff)]
  {
    var buffer := new byte[|message|](j requires 0 <= j < |message| => message[j]);
    buffer[i] := Xor(buffer[i], 0xff);
    r := buffer[..];
  }

  // ---- The context as the code keeps it --------------------------------------------------------

  class UEContext {
    var kamf: seq<byte>
    var cipheringAlg: byte
    var integrityAlg: byte
    var knasEnc: seq<byte>
    var knasInt: seq<byte>
    var ulCount: uint32
    var dlCount: uint32
    var securityActive: bool
    var lastUplinkNAS: seq<byte>

    ghost function Value(): Security
      reads this
    {
      Security(kamf, Keys(cipheringAlg, integrityAlg, knasEnc, knasInt), ulCount, dlCount, securityActive, lastUplinkNAS)
    }

    constructor ()
      ensures Value() == Security([], Keys(0, 0, Zeros(16), Zeros(16)), 0, 0, false, [])
    {
      kamf, cipheringAlg, integrityAlg, knasEnc, knasInt := [], 0, 0, Zeros(16), Zeros(16);
      ulCount, dlCount, securityActive, lastUplinkNAS := 0, 0, false, [];
    }

    method NextUL() returns (c: uint32)
      modifies this`ulCount
      ensures c == old(ulCount) && ulCount == (old(ulCount) + 1) % 0x1_0000_0000
    {
      c := ulCount;
      ulCount := (ulCount + 1) % 0x1_0000_0000;
    }

    method NextDL(sequenceNumber: byte) returns (c: uint32)
      modifies this`dlCount
      ensures c == dlCount == Estimate(old(dlCount), sequenceNumber)
    {
      if dlCount % 256 > sequenceNumber {
        dlCount := (dlCount - dlCount % 256 + 0x100 + sequenceNumber) % 0x1_0000_0000;
      } else {
        dlCount := dlCount - dlCount % 256 + sequenceNumber;
      }
      c := dlCount;
    }

    /** encodeGNBUplinkNAS; without a request there are no overrides. */
    method EncodeUplink(p: Primitives, plain: seq<byte>, sht: byte, req: Option<Overrides>) returns (r: Option<seq<byte>>)
      requires Sized(p)
      modifies this
      ensures var o := if req.Some? then req.value else Overrides(None, false);
              && r == old(UplinkOctets(p, Value(), plain, sht, o))
              && Value() == old(AfterUplink(p, Value(), plain, sht, o))
    {
      hide Wrap, Xor;
      if !securityActive && |kamf| == 0 { return None; }
      if sht == INTEGRITY_NEW || sht == CIPHERED_NEW {
        ulCount, dlCount := 0, 0;
      }
      var count := NextUL();
      if req.Some? && req.value.count.Some? {
        count := req.value.count.value;
      }
      var wrapped := Protect(p, plain, sht, count, Keys(cipheringAlg, integrityAlg, knasEnc, knasInt));
      if wrapped.None? { return None; }
      var sent := wrapped.value;
      if req.Some? && req.value.corruptMAC && |sent| >= 7 {
        sent := InvertOctet(sent, 2);
      }
      lastUplinkNAS := sent;
      return Some(sent);
    }

    /** establishGNBSecurityContext. */
    method EstablishContext(p: Primitives, command: Option<(byte, byte)>)
      modifies this
      ensures Value() == old(AfterCommand(p, Value(), command))
    {
      if command.None? { return; }
      cipheringAlg := command.value.0;
      integrityAlg := command.value.1;
      var derived := p.deriveKeys(kamf, cipheringAlg, integrityAlg);
      if derived.None? { return; }
      knasEnc := derived.value.0;
      knasInt := derived.value.1;
      dlCount := 0;
      securityActive := true;
    }

    /** decodeGNBDownlinkNAS. */
    method DecodeDownlink(p: Primitives, message: seq<byte>) returns (r: Downlink)
      requires Sized(p)
      modifies this
      ensures r == old(DownlinkResult(p, Value(), message))
      ensures Value() == old(AfterDownlink(p, Value(), message))
    {
      var header := SecurityHeader(message);
      if header.None? { return Dropped; }
      var sht := header.value;
      if sht == PLAIN { return Read(message, None); }
      if |message| < 7 { return Dropped; }
      var count := NextDL(message[6]);
      if sht == INTEGRITY_NEW || sht == CIPHERED_NEW {
        EstablishContext(p, p.command(message[7..]));
      }
      if !securityActive { return Read(message[7..], None); }
      var plain := Unprotect(p, message, count, Keys(cipheringAlg, integrityAlg, knasEnc, knasInt));
      match plain
      case Failed => return Dropped;
      case Mismatch(nas) => return Read(nas, Some(false));
      case Verified(nas) => return Read(nas, Some(true));
    }
  }
}
