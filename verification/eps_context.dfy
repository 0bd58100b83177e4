/** The 4G twin of the security context (internal/api/enb_security.go, internal/store/enb_ue_context.go).
    The wrapper octets come from a library that is not part of this model. */
module EPSContexts {
  import opened Words
  import opened Bits
  import opened NasSecurity
  import opened NasCount
  import opened UEContexts
  import opened KeyRuns

  datatype EPSPrimitives = EPSPrimitives(
    protect: (seq<byte>, byte, uint32, Keys) -> Option<seq<byte>>,
    unprotect: (seq<byte>, uint32, Keys) -> Unwrapped,
    peek: seq<byte> -> Option<seq<byte>>,
    deriveKeys: (seq<byte>, byte, byte) -> Option<(seq<byte>, seq<byte>)>,
    command: seq<byte> -> Option<(byte, byte)>)

  datatype EPSSecurity = EPSSecurity(kasme: seq<byte>, keys: Keys, ulCount: uint32, dlCount: uint32, active: bool)

  const PD_EMM: byte := 7

  /** internal/naseps/security.go knows EIA0 to EIA2 and EEA0 to EEA2. */
  predicate Supported(keys: Keys) {
    keys.cipheringAlg <= 2 && keys.integrityAlg <= 2
  }

  ghost predicate HasEPSContext(s: EPSSecurity) {
    s.active || s.kasme != []
  }

  ghost function EPSUplinkOctets(p: EPSPrimitives, s: EPSSecurity, plain: seq<byte>, sht: byte, req: Overrides): Option<seq<byte>> {
    if !HasEPSContext(s) || !Supported(s.keys) then None
    else
      match p.protect(plain, sht, if req.count.Some? then req.count.value else s.ulCount, s.keys)
      case None => None
      case Some(w) => Some(if req.corruptMAC && |w| >= 6 then w[1 := Xor(w[1], 0xff)] else w)
  }

  ghost function AfterEPSUplink(s: EPSSecurity): EPSSecurity {
    if HasEPSContext(s) then s.(ulCount := (s.ulCount + 1) % 0x1_0000_0000) else s
  }

  ghost function AfterEPSCommand(p: EPSPrimitives, s: EPSSecurity, command: Option<(byte, byte)>): EPSSecurity {
    match command
    case None => s
    case Some((ciphering, integrity)) =>
      var keys := s.keys.(cipheringAlg := ciphering, integrityAlg := integrity);
      match p.deriveKeys(s.kasme, ciphering, integrity)
      case None => s.(keys := keys)
      case Some((enc, intg)) =>
        s.(keys := keys.(knasEnc := enc, knasInt := intg), ulCount := 0, dlCount := 0, active := true)
  }

  ghost predicate IsEPSSecured(message: seq<byte>) {
    |message| >= 6 && message[0] % 16 == PD_EMM && message[0] / 16 != PLAIN
  }

  ghost function EPSCommandIn(p: EPSPrimitives, message: seq<byte>): Option<(byte, byte)> {
    if IsEPSSecured(message) && IsNewContext(message[0] / 16) && p.peek(message).Some?
    then p.command(p.peek(message).value) else None
  }

  ghost function AfterEPSDownlink(p: EPSPrimitives, s: EPSSecurity, message: seq<byte>): EPSSecurity {
    if !IsEPSSecured(message) then s
    else AfterEPSCommand(p, s.(dlCount := Estimate(s.dlCount, message[5])), EPSCommandIn(p, message))
  }

  ghost function EPSDownlinkResult(p: EPSPrimitives, s: EPSSecurity, message: seq<byte>): Downlink {
    if |message| == 0 || message[0] % 16 != PD_EMM then Dropped
    else if message[0] / 16 == PLAIN then Read(message, None)
    else if |message| < 6 then Dropped
    else
      var s' := AfterEPSDownlink(p, s, message);
      if !s'.active then
        (match p.peek(message) case None => Dropped case Some(inner) => Read(inner, None))
      else if !Supported(s'.keys) then Dropped
      else
        match p.unprotect(message, Estimate(s.dlCount, message[5]), s'.keys)
        case Failed => Dropped
        case Mismatch(plain) => Read(plain, Some(false))
        case Verified(plain) => Read(plain, Some(true))
  }

  class UEEPSContext {
    var kasme: seq<byte>
    var cipheringAlg: byte
    var integrityAlg: byte
    var knasEnc: seq<byte>
    var knasInt: seq<byte>
    var ulCount: uint32
    var dlCount: uint32
    var securityActive: bool

    ghost function Value(): EPSSecurity
      reads this
    {
      EPSSecurity(kasme, Keys(cipheringAlg, integrityAlg, knasEnc, knasInt), ulCount, dlCount, securityActive)
    }

    constructor ()
      ensures Value() == EPSSecurity([], Keys(0, 0, Zeros(16), Zeros(16)), 0, 0, false)
    {
      kasme, cipheringAlg, integrityAlg, knasEnc, knasInt := [], 0, 0, Zeros(16), Zeros(16);
      ulCount, dlCount, securityActive := 0, 0, false;
    }

    method NextUL() returns (c: uint32)
      modifies this`ulCount
      ensures c == old(ulCount) && ulCount == (old(ulCount) + 1) % 0x1_0000_0000
    {
      c := ulCount;
      ulCount := (ulCount + 1) % 0x1_0000_0000;
    }

    method NextDL(sequenceNumber: byte) returns (c: uint32)
      modifies this`dlCount
      ensures c == dlCount == Estimate(old(dlCount), sequenceNumber)
    {
      if dlCount % 256 > sequenceNumber {
        dlCount := (dlCount - dlCount % 256 + 0x100 + sequenceNumber) % 0x1_0000_0000;
      } else {
        dlCount := dlCount - dlCount % 256 + sequenceNumber;
      }
      c := dlCount;
    }

    /** encodeENBUplinkNAS. */
    method EncodeUplink(p: EPSPrimitives, plain: seq<byte>, sht: byte, req: Option<Overrides>) returns (r: Option<seq<byte>>)
      modifies this
      ensures var o := if req.Some? then req.value else Overrides(None, false);
              r == old(EPSUplinkOctets(p, Value(), plain, sht, o))
      ensures Value() == old(AfterEPSUplink(Value()))
    {
      if !securityActive && |kasme| == 0 { return None; }
      var count := NextUL();
      if req.Some? && req.value.count.Some? {
        count := req.value.count.value;
      }
      if cipheringAlg > 2 || integrityAlg > 2 { return None; }
      r := p.protect(plain, sht, count, Keys(cipheringAlg, integrityAlg, knasEnc, knasInt));
      if r.Some? && req.Some? && req.value.corruptMAC && |r.value| >= 6 {
        var sent := InvertOctet(r.value, 1);
        r := Some(sent);
      }
    }

    /** establishENBSecurityContext, which unlike its 5G twin resets the uplink COUNT too. */
    method EstablishContext(p: EPSPrimitives, command: Option<(byte, byte)>)
      modifies this
      ensures Value() == old(AfterEPSCommand(p, Value(), command))
    {
      if command.None? { return; }
      cipheringAlg := command.value.0;
      integrityAlg := command.value.1;
      var derived := p.deriveKeys(kasme, cipheringAlg, integrityAlg);
      if derived.None? { return; }
      knasEnc := derived.value.0;
      knasInt := derived.value.1;
      ulCount, dlCount := 0, 0;
      securityActive := true;
    }

    /** decodeENBDownlinkNAS. */
    method DecodeDownlink(p: EPSPrimitives, message: seq<byte>) returns (r: Downlink)
      modifies this
      ensures r == old(EPSDownlinkResult(p, Value(), message))
      ensures Value() == old(AfterEPSDownlink(p, Value(), message))
    {
      if |message| == 0 || message[0] % 16 != PD_EMM { return Dropped; }
      var sht := message[0] / 16;
      if sht == PLAIN { return Read(message, None); }
      if |message| < 6 { return Dropped; }
      var count := NextDL(message[5]);
      var inner := p.peek(message);
      if (sht == INTEGRITY_NEW || sht == CIPHERED_NEW) && inner.Some? {
        EstablishContext(p, p.command(inner.value));
      }
      if !securityActive {
        return if inner.None? then Dropped else Read(inner.value, None);
      }
      if cipheringAlg > 2 || integrityAlg > 2 { return Dropped; }
      match p.unprotect(message, count, Keys(cipheringAlg, integrityAlg, knasEnc, knasInt))
      case Failed => return Dropped;
      case Mismatch(nas) => return Read(nas, Some(false));
      case Verified(nas) => return Read(nas, Some(true));
    }
  }

  // ---- Whole runs ------------------------------------------------------------------------------

  datatype EPSEvent =
    | Authenticate(kasme: seq<byte>)
    | SendUplink(plain: seq<byte>, sht: byte, req: Overrides)
    | ReceiveDownlink(message: seq<byte>)

  ghost function EPSStep(p: EPSPrimitives, s: EPSSecurity, e: EPSEvent): EPSSecurity {
    match e
    case Authenticate(kasme) => s.(kasme := kasme)
    case SendUplink(_, _, _) => AfterEPSUplink(s)
    case ReceiveDownlink(message) => AfterEPSDownlink(p, s, message)
  }

  ghost function EPSAfter(p: EPSPrimitives, s: EPSSecurity, es: seq<EPSEvent>): EPSSecurity {
    if es == [] then s else EPSStep(p, EPSAfter(p, s, es[..|es| - 1]), es[|es| - 1])
  }

  ghost function EPSKeyPart(s: EPSSecurity): KeyState {
    KeyState(s.kasme, s.keys, s.active)
  }

  ghost function EPSKeyEventOf(p: EPSPrimitives, e: EPSEvent): KeyEvent {
    match e
    case Authenticate(kasme) => NewRoot(kasme)
    case SendUplink(_, _, _) => Other
    case ReceiveDownlink(message) =>
      match EPSCommandIn(p, message) case None => Other case Some((c, i)) => Command(c, i)
  }

  ghost function EPSTrace(p: EPSPrimitives, es: seq<EPSEvent>): (r: seq<KeyEvent>)
    ensures |r| == |es| && forall j | 0 <= j < |es| :: r[j] == EPSKeyEventOf(p, es[j])
  {
    seq(|es|, j requires 0 <= j < |es| => EPSKeyEventOf(p, es[j]))
  }

  lemma EPSStepProjects(p: EPSPrimitives, s: EPSSecurity, e: EPSEvent)
    ensures EPSKeyPart(EPSStep(p, s, e)) == KeyStep(p.deriveKeys, EPSKeyPart(s), EPSKeyEventOf(p, e))
  {
    hide Estimate;
  }

  /** The keys of a 4G run are those of the same history of authentications and commands in 5G. */
  lemma {:induction false} EPSRunProjects(p: EPSPrimitives, s: EPSSecurity, es: seq<EPSEvent>)
    ensures EPSKeyPart(EPSAfter(p, s, es)) == KeysAfter(p.deriveKeys, EPSKeyPart(s), EPSTrace(p, es))
  {
    if es != [] {
      hide EPSStep, KeyStep, EPSKeyEventOf;
      var before := es[..|es| - 1];
      EPSRunProjects(p, s, before);
      EPSStepProjects(p, EPSAfter(p, s, before), es[|es| - 1]);
      assert EPSTrace(p, es)[..|es| - 1] == EPSTrace(p, before);
    }
  }

  /** Key coherence of the 4G context over whole runs, unless an active context is switched in vain. */
  lemma EPSKeysAreCoherent(p: EPSPrimitives, s: EPSSecurity, es: seq<EPSEvent>)
    requires !s.active
    requires forall j | 0 <= j < |es| ::
               !SwitchesInVain(p.deriveKeys, EPSKeyPart(EPSAfter(p, s, es[..j])), EPSKeyEventOf(p, es[j]))
    ensures EPSAfter(p, s, es).active ==>
              Coherent(p.deriveKeys, EPSKeyPart(s), EPSTrace(p, es), EPSAfter(p, s, es).keys)
  {
    hide EPSAfter, SwitchesInVain, Coherent, EPSKeyEventOf, KeysAfter;
    EPSRunProjects(p, s, es);
    forall j: nat | j < |es|
      ensures !SwitchesInVain(p.deriveKeys, KeysAfter(p.deriveKeys, EPSKeyPart(s), EPSTrace(p, es)[..j]), EPSTrace(p, es)[j])
    {
      EPSRunProjects(p, s, es[..j]);
      assert EPSTrace(p, es[..j]) == EPSTrace(p, es)[..j];
    }
    KeyRuns.KeysAreCoherent(p.deriveKeys, EPSKeyPart(s), EPSTrace(p, es));
  }

  /** Exactly when an active 4G context is coherent in any run, if derivations may fail. */
  lemma EPSCoherenceExactly(p: EPSPrimitives, s: EPSSecurity, es: seq<EPSEvent>)
    requires !s.active && EPSAfter(p, s, es).active
    requires TellsApart(p.deriveKeys, EPSKeyPart(s), EPSTrace(p, es))
    ensures var tr := EPSTrace(p, es); var c, l := LastCommand(tr), LastFollowed(p.deriveKeys, EPSKeyPart(s), tr);
            && c.Some? && l.Some?
            && (Coherent(p.deriveKeys, EPSKeyPart(s), tr, EPSAfter(p, s, es).keys) <==> tr[c.value] == tr[l.value])
  {
    hide EPSAfter, TellsApart, Coherent, LastCommand, LastFollowed;
    EPSRunProjects(p, s, es);
    KeyRuns.CoherenceExactly(p.deriveKeys, EPSKeyPart(s), EPSTrace(p, es));
  }

  /** The uplink messages accepted since the last command that established a context. */
  ghost function EPSAllocations(p: EPSPrimitives, s: EPSSecurity, es: seq<EPSEvent>): nat {
    if es == [] then 0
    else
      var before := es[..|es| - 1];
      var n := EPSAllocations(p, s, before);
      var s1 := EPSAfter(p, s, before);
      match es[|es| - 1]
      case Authenticate(_) => n
      case SendUplink(_, _, _) => if HasEPSContext(s1) then n + 1 else n
      case ReceiveDownlink(m) =>
        if EPSCommandIn(p, m).Some? && (var (c, i) := EPSCommandIn(p, m).value; p.deriveKeys(s1.kasme, c, i).Some?)
        then 0 else n
  }

  /** The uplink COUNT of the 4G context: the number of messages since the last established context,
      modulo 2^32, whatever overrides were requested. */
  lemma {:induction false} EPSUplinkCountsAllocations(p: EPSPrimitives, s: EPSSecurity, es: seq<EPSEvent>)
    requires s.ulCount == 0
    ensures EPSAfter(p, s, es).ulCount == EPSAllocations(p, s, es) % 0x1_0000_0000
  {
    if es != [] {
      var before := es[..|es| - 1];
      EPSUplinkCountsAllocations(p, s, before);
      EPSStepCounts(p, EPSAfter(p, s, before), es[|es| - 1]);
    }
  }

  lemma EPSStepCounts(p: EPSPrimitives, s: EPSSecurity, e: EPSEvent)
    ensures EPSStep(p, s, e).ulCount ==
              match e
              case Authenticate(_) => s.ulCount
              case SendUplink(_, _, _) => if HasEPSContext(s) then (s.ulCount + 1) % 0x1_0000_0000 else s.ulCount
              case ReceiveDownlink(m) =>
                if EPSCommandIn(p, m).Some? && (var (c, i) := EPSCommandIn(p, m).value; p.deriveKeys(s.kasme, c, i).Some?)
                then 0 else s.ulCount
  {
  }

  /** A corrupted uplink differs from the honest one in its first MAC octet, at index 1, and only there. */
  lemma EPSCorruptionIsOneOctet(p: EPSPrimitives, s: EPSSecurity, plain: seq<byte>, sht: byte, req: Overrides)
    requires EPSUplinkOctets(p, s, plain, sht, req).Some? && req.corruptMAC
    requires |EPSUplinkOctets(p, s, plain, sht, req).value| >= 6
    ensures var honest := EPSUplinkOctets(p, s, plain, sht, req.(corruptMAC := false)).value;
            var sent := EPSUplinkOctets(p, s, plain, sht, req).value;
            |sent| == |honest| && sent[1] != honest[1] && sent == honest[1 := sent[1]]
  {
    XorFacts(EPSUplinkOctets(p, s, plain, sht, req.(corruptMAC := false)).value[1], 0);
  }
}
