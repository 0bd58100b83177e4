/** Whole runs of a 5G UE's security context: where its keys come from, which uplink COUNTs it uses,
    and when its downlink COUNT stays with the network's. */
module NasRuns {
  import opened Words
  import opened Bits
  import opened NasSecurity
  import opened NasCount
  import opened UEContexts
  import opened KeyRuns

  /** Authentication replaces K_AMF (internal/api/gnb_nas_handlers.go:226-232); messages in either
      direction are arbitrary octets. */
  datatype Event =
    | Authenticate(kamf: seq<byte>)
    | SendUplink(plain: seq<byte>, sht: byte, req: Overrides)
    | ReceiveDownlink(message: seq<byte>)

  ghost function Step(p: Primitives, s: Security, e: Event): Security
    requires Sized(p)
  {
    match e
    case Authenticate(kamf) => s.(kamf := kamf)
    case SendUplink(plain, sht, req) => AfterUplink(p, s, plain, sht, req)
    case ReceiveDownlink(message) => AfterDownlink(p, s, message)
  }

  ghost function After(p: Primitives, s: Security, es: seq<Event>): Security
    requires Sized(p)
  {
    if es == [] then s else Step(p, After(p, s, es[..|es| - 1]), es[|es| - 1])
  }

  // ---- Key coherence ---------------------------------------------------------------------------

  /** What the keys of a run depend on. */
  ghost function KeyPart(s: Security): KeyState {
    KeyState(s.kamf, s.keys, s.active)
  }

  ghost function KeyEventOf(p: Primitives, e: Event): KeyEvent {
    match e
    case Authenticate(kamf) => NewRoot(kamf)
    case SendUplink(_, _, _) => Other
    case ReceiveDownlink(message) =>
      match CommandIn(p, message) case None => Other case Some((c, i)) => Command(c, i)
  }

  ghost function Trace(p: Primitives, es: seq<Event>): (r: seq<KeyEvent>)
    ensures |r| == |es| && forall j | 0 <= j < |es| :: r[j] == KeyEventOf(p, es[j])
  {
    seq(|es|, j requires 0 <= j < |es| => KeyEventOf(p, es[j]))
  }

  lemma StepProjects(p: Primitives, s: Security, e: Event)
    requires Sized(p)
    ensures KeyPart(Step(p, s, e)) == KeyStep(p.deriveKeys, KeyPart(s), KeyEventOf(p, e))
  {
    hide UplinkOctets, CommandIn, Estimate;
    assert e.ReceiveDownlink? && !IsSecured(e.message) ==> CommandIn(p, e.message) == None by { PlainHasNoCommand(p, e); }
  }

  lemma PlainHasNoCommand(p: Primitives, e: Event)
    ensures e.ReceiveDownlink? && !IsSecured(e.message) ==> CommandIn(p, e.message) == None
  {
  }

  /** Uplink messages, COUNTs, refused messages and forged MACs do not touch the keys. */
  lemma {:induction false} RunProjects(p: Primitives, s: Security, es: seq<Event>)
    requires Sized(p)
    ensures KeyPart(After(p, s, es)) == KeysAfter(p.deriveKeys, KeyPart(s), Trace(p, es))
  {
    if es != [] {
      hide Step, KeyStep, KeyEventOf;
      var before := es[..|es| - 1];
      RunProjects(p, s, before);
      StepProjects(p, After(p, s, before), es[|es| - 1]);
      assert Trace(p, es)[..|es| - 1] == Trace(p, before);
    }
  }

  /** Key coherence: whenever the context is active its keys are coherent, whatever authentications,
      messages and forgeries the run contains, unless an active context is switched in vain. */
  lemma KeysAreCoherent(p: Primitives, s: Security, es: seq<Event>)
    requires Sized(p) && !s.active
    requires forall j | 0 <= j < |es| :: !SwitchesInVain(p.deriveKeys, KeyPart(After(p, s, es[..j])), KeyEventOf(p, es[j]))
    ensures After(p, s, es).active ==> Coherent(p.deriveKeys, KeyPart(s), Trace(p, es), After(p, s, es).keys)
  {
    hide After, SwitchesInVain, Coherent, KeyEventOf, KeysAfter;
    RunProjects(p, s, es);
    forall j: nat | j < |es|
      ensures !SwitchesInVain(p.deriveKeys, KeysAfter(p.deriveKeys, KeyPart(s), Trace(p, es)[..j]), Trace(p, es)[j])
    {
      RunProjects(p, s, es[..j]);
      assert Trace(p, es[..j]) == Trace(p, es)[..j];
    }
    KeyRuns.KeysAreCoherent(p.deriveKeys, KeyPart(s), Trace(p, es));
  }

  /** Exactly when an active context is coherent in any run, if derivations may fail. */
  lemma CoherenceExactly(p: Primitives, s: Security, es: seq<Event>)
    requires Sized(p) && !s.active && After(p, s, es).active
    requires TellsApart(p.deriveKeys, KeyPart(s), Trace(p, es))
    ensures var tr := Trace(p, es); var c, l := LastCommand(tr), LastFollowed(p.deriveKeys, KeyPart(s), tr);
            && c.Some? && l.Some?
            && (Coherent(p.deriveKeys, KeyPart(s), tr, After(p, s, es).keys) <==> tr[c.value] == tr[l.value])
  {
    hide After, TellsApart, Coherent, LastCommand, LastFollowed;
    RunProjects(p, s, es);
    KeyRuns.CoherenceExactly(p.deriveKeys, KeyPart(s), Trace(p, es));
  }

  /** A key derivation that knows one pair of algorithms, and a decoder that reads two octets. */
  ghost function OnePair(): Primitives {
    Primitives((_, _, _, _, _) => None, (_, _, _, _, _) => None,
               (_, c, i) => if c == 2 && i == 2 then Some(([], [])) else None,
               _ => None, m => if |m| == 2 then Some((m[0], m[1])) else None)
  }

  ghost function CommandMessage(alg: byte): seq<byte> {
    [EPD_5GMM, INTEGRITY_NEW, 0, 0, 0, 0, 0, alg, alg]
  }

  /** A run that loses coherence: the second command cannot be followed, and leaves the first one's keys
      under its own algorithms. */
  lemma FailedDerivationLosesCoherence(s: Security)
    requires !s.active
    ensures var p := OnePair(); var es := [ReceiveDownlink(CommandMessage(2)), ReceiveDownlink(CommandMessage(1))];
            && Sized(p) && After(p, s, es).active
            && !Coherent(p.deriveKeys, KeyPart(s), Trace(p, es), After(p, s, es).keys)
  {
    var p, e2, e1 := OnePair(), ReceiveDownlink(CommandMessage(2)), ReceiveDownlink(CommandMessage(1));
    var es := [e2, e1];
    CommandsAreRead();
    RunProjects(p, s, es);
    assert Trace(p, es) == [Command(2, 2), Command(1, 1)];
    hide After, Trace, Coherent;
    VainSwitchLosesCoherence(p.deriveKeys, KeyPart(s), Command(2, 2), Command(1, 1));
  }

  lemma CommandsAreRead()
    ensures CommandIn(OnePair(), CommandMessage(1)) == Some((1, 1))
    ensures CommandIn(OnePair(), CommandMessage(2)) == Some((2, 2))
  {
    assert CommandMessage(1)[7..] == [1, 1] && CommandMessage(2)[7..] == [2, 2];
  }

  // ---- Uplink COUNT ----------------------------------------------------------------------------

  /** How many uplink COUNTs were allocated since the last reset, the resetting message included.
      A refused message allocates none, a message that fails later keeps its COUNT. */
  ghost function Allocations(p: Primitives, s: Security, es: seq<Event>): nat
    requires Sized(p)
  {
    if es == [] then 0
    else
      var before := es[..|es| - 1];
      var last := es[|es| - 1];
      var n := Allocations(p, s, before);
      if !last.SendUplink? || !HasContext(After(p, s, before)) then n
      else if IsNewContext(last.sht) then 1
      else n + 1
  }

  lemma StepAllocates(p: Primitives, s: Security, e: Event)
    requires Sized(p)
    ensures Step(p, s, e).ulCount ==
              if !e.SendUplink? || !HasContext(s) then s.ulCount
              else (Allocated(s, e.sht) + 1) % 0x1_0000_0000
  {
  }

  /** The stored uplink COUNT is the number of allocations modulo 2^32, whatever COUNT overrides,
      corrupted MACs, authentications and downlink messages the run contains. */
  lemma {:induction false} UplinkCountsAllocations(p: Primitives, s: Security, es: seq<Event>)
    requires Sized(p) && s.ulCount == 0
    ensures After(p, s, es).ulCount == Allocations(p, s, es) % 0x1_0000_0000
  {
    if es != [] {
      var before := es[..|es| - 1];
      UplinkCountsAllocations(p, s, before);
      hide Step, HasContext;
      WrappedSuccessor(Allocations(p, s, before));
      StepAllocates(p, After(p, s, before), es[|es| - 1]);
    }
  }

  /** The COUNT of an uplink message: the one the request names; otherwise 0 for a message that takes a new
      context into use, with header type 3 or 4, and the stored one for all others. */
  ghost function CountOf(u: Security, sht: byte, req: Overrides): uint32 {
    match req.count
    case Some(c) => c
    case None => if sht == 3 || sht == 4 then 0 else u.ulCount
  }

  /** An uplink message uses that COUNT in full for its MAC and with its low octet on the wire. A network with
      the same keys verifies it and reads the message, and refuses it exactly when its MAC was to be
      corrupted, which inverts the first MAC octet and nothing else. */
  lemma UplinkIsReadable(p: Primitives, u: Security, plain: seq<byte>, sht: byte, req: Overrides)
    requires Sized(p) && sht < 16 && UplinkOctets(p, u, plain, sht, req).Some?
    ensures var honest := UplinkOctets(p, u, plain, sht, req.(corruptMAC := false)).value;
            var sent := UplinkOctets(p, u, plain, sht, req).value;
            var count := CountOf(u, sht, req);
            && |sent| >= 7 && sent[6] == count % 256
            && Unwrap(p, honest, count, u.keys, NasSecurity.Uplink) == Verified(p.canonical(plain).value)
            && (!req.corruptMAC ==> sent == honest)
            && (req.corruptMAC ==>
                  && sent[2] as int == 255 - honest[2] as int && sent == honest[2 := sent[2]]
                  && Unwrap(p, sent, count, u.keys, NasSecurity.Uplink) == Mismatch(p.canonical(plain).value))
  {
    var count := UsedCount(u, sht, req);
    assert count == CountOf(u, sht, req);
    var body := p.canonical(plain).value;
    var honest := Wrap(p, body, sht, count, u.keys, NasSecurity.Uplink).value;
    hide Wrap, Unwrap;
    WrapLayout(p, body, sht, count, u.keys, NasSecurity.Uplink);
    UnwrapInvertsWrap(p, body, sht, count, u.keys, NasSecurity.Uplink);
    InvertedMACIsRefused(p, body, sht, count, u.keys, NasSecurity.Uplink);
    XorByBits(honest[2], 0, 0);
  }

  /** Exactly when an uplink message is sent, with algorithms that are available: when there is a context or
      a root key, and the message is one the library can encode. */
  lemma UplinkIsSentExactly(p: Primitives, u: Security, plain: seq<byte>, sht: byte, req: Overrides)
    requires Sized(p)
    requires forall c, d, m :: p.mac(u.keys.integrityAlg, u.keys.knasInt, c, d, m).Some?
    requires forall c, d, n :: p.keystream(u.keys.cipheringAlg, u.keys.knasEnc, c, d, n).Some?
    ensures UplinkOctets(p, u, plain, sht, req).Some? <==> (u.active || |u.kamf| > 0) && p.canonical(plain).Some?
  {
    hide XorAll, Xor;
  }

  /** The record of the last uplink message: over every run, the octets of the last message that was sent,
      with its corrupted MAC, whatever is refused, received or authenticated later. */
  lemma {:induction false} LastUplinkIsKept(p: Primitives, s: Security, es: seq<Event>, j: nat)
    requires Sized(p) && j < |es| && es[j].SendUplink?
    requires UplinkOctets(p, After(p, s, es[..j]), es[j].plain, es[j].sht, es[j].req).Some?
    requires forall i | j < i < |es| && es[i].SendUplink? ::
               UplinkOctets(p, After(p, s, es[..i]), es[i].plain, es[i].sht, es[i].req).None?
    ensures Some(After(p, s, es).lastUplink) == UplinkOctets(p, After(p, s, es[..j]), es[j].plain, es[j].sht, es[j].req)
  {
    hide UplinkOctets;
    var n := |es| - 1;
    var before := es[..n];
    RecordChanges(p, After(p, s, before), es[n]);
    if j < n {
      assert before[..j] == es[..j];
      forall i | j < i < n && before[i].SendUplink?
        ensures UplinkOctets(p, After(p, s, before[..i]), before[i].plain, before[i].sht, before[i].req).None?
      {
        assert before[..i] == es[..i];
      }
      LastUplinkIsKept(p, s, before, j);
      assert before[j] == es[j];
    }
  }

  lemma RecordChanges(p: Primitives, s: Security, e: Event)
    requires Sized(p)
    ensures if e.SendUplink? && UplinkOctets(p, s, e.plain, e.sht, e.req).Some?
            then Some(Step(p, s, e).lastUplink) == UplinkOctets(p, s, e.plain, e.sht, e.req)
            else Step(p, s, e).lastUplink == s.lastUplink
  {
    hide Wrap, Xor, Estimate;
  }

  lemma AllocationsAppend(p: Primitives, s: Security, es: seq<Event>, e: Event)
    requires Sized(p) && e.SendUplink? && HasContext(After(p, s, es))
    ensures Allocations(p, s, es + [e]) == 1 + if IsNewContext(e.sht) then 0 else Allocations(p, s, es)
  {
    assert (es + [e])[..|es|] == es;
  }

  lemma WrappedSuccessor(k: nat)
    ensures (k % 0x1_0000_0000 + 1) % 0x1_0000_0000 == (k + 1) % 0x1_0000_0000
  {
  }

  lemma LowOctetOfCount(k: nat)
    ensures (k % 0x1_0000_0000) % 256 == k % 256
  {
    var q, r := k / 0x1_0000_0000, k % 0x1_0000_0000;
    assert k == 256 * (0x100_0000 * q) + r;
    assert (256 * (0x100_0000 * q) + r) % 256 == r % 256;
  }

  lemma UplinkSequence(p: Primitives, u: Security, plain: seq<byte>, sht: byte, req: Overrides)
    requires Sized(p) && sht < 16 && UplinkOctets(p, u, plain, sht, req).Some?
    ensures var sent := UplinkOctets(p, u, plain, sht, req).value;
            |sent| >= 7 && sent[6] == CountOf(u, sht, req) % 256
  {
    hide UplinkOctets, Unwrap;
    UplinkIsReadable(p, u, plain, sht, req);
  }

  /** The k-th message since a reset, counted from 0, consumes COUNT k modulo 2^32; without an override
      it is sent with that COUNT and the sequence octet k modulo 256. */
  lemma UplinksAreNumbered(p: Primitives, s: Security, es: seq<Event>, plain: seq<byte>, sht: byte, req: Overrides)
    requires Sized(p) && s.ulCount == 0 && sht < 16
    requires UplinkOctets(p, After(p, s, es), plain, sht, req).Some?
    ensures var k := if sht == 3 || sht == 4 then 0 else Allocations(p, s, es);
            var sent := UplinkOctets(p, After(p, s, es), plain, sht, req).value;
            && CountOf(After(p, s, es), sht, req.(count := None)) == k % 0x1_0000_0000
            && |sent| >= 7
            && (req.count.None? ==> sent[6] == k % 256)
            && Allocations(p, s, es + [SendUplink(plain, sht, req)]) == k + 1
  {
    var u := After(p, s, es);
    assert HasContext(u);
    hide After, Allocations, UplinkOctets, HasContext;
    UplinkCountsAllocations(p, s, es);
    UplinkSequence(p, u, plain, sht, req);
    AllocationsAppend(p, s, es, SendUplink(plain, sht, req));
    LowOctetOfCount(Allocations(p, s, es));
  }

  // ---- Downlink synchronisation ----------------------------------------------------------------

  datatype Outgoing = Outgoing(plain: seq<byte>, sht: byte)

  /** The network's side of one security mode procedure: message k is protected with COUNT k under
      keys derived from the UE's K_AMF; commands carry the algorithms and are not ciphered. */
  datatype Network = Network(kamf: seq<byte>, keys: Keys, script: seq<Outgoing>)

  ghost predicate IsCommand(n: Network, k: nat)
    requires k < |n.script|
  {
    n.script[k].sht == INTEGRITY_NEW
  }

  ghost function OnAir(p: Primitives, n: Network, k: nat): Option<seq<byte>>
    requires Sized(p) && k < |n.script| <= 0x1_0000_0000
  {
    Wrap(p, n.script[k].plain, n.script[k].sht, k, n.keys, NasSecurity.Downlink)
  }

  ghost predicate IsNetwork(p: Primitives, n: Network)
    requires Sized(p)
  {
    && n.kamf != [] && |n.script| <= 0x1_0000_0000
    && p.deriveKeys(n.kamf, n.keys.cipheringAlg, n.keys.integrityAlg) == Some((n.keys.knasEnc, n.keys.knasInt))
    && forall k | 0 <= k < |n.script| ::
         && OnAir(p, n, k).Some?
         && n.script[k].sht in {INTEGRITY, CIPHERED, INTEGRITY_NEW}
         && (IsCommand(n, k) ==> p.command(n.script[k].plain) == Some((n.keys.cipheringAlg, n.keys.integrityAlg)))
  }

  /** A UE that shares K_AMF and, once active, the keys. */
  ghost predicate Shares(s: Security, n: Network) {
    s.kamf == n.kamf && (s.active ==> s.keys == n.keys)
  }

  /** A plain message, as every registration begins with, is read as sent and without a verdict in every
      state, and changes none. */
  lemma PlainIsReadAsSent(p: Primitives, s: Security, m: seq<byte>)
    requires Sized(p) && |m| >= 2 && m[1] % 16 == 0
    ensures DownlinkResult(p, s, m) == Read(m, None) && AfterDownlink(p, s, m) == s
  {
  }

  /** A message too short for its header is dropped and changes nothing. */
  lemma ShortIsDropped(p: Primitives, s: Security, m: seq<byte>)
    requires Sized(p) && (|m| < 2 || (|m| < 7 && m[1] % 16 != 0))
    ensures DownlinkResult(p, s, m) == Dropped && AfterDownlink(p, s, m) == s
  {
  }

  /** A protected message that reaches a UE without an active context, and brings no command that could be
      followed, is read from its eighth octet on, without a verdict; the UE remembers its sequence number. */
  lemma UnkeyedIsReadUnverified(p: Primitives, s: Security, m: seq<byte>)
    requires Sized(p) && |m| >= 7 && m[1] % 16 != 0 && !s.active
    requires m[1] % 16 == 3 || m[1] % 16 == 4 ==>
               p.command(m[7..]).None? || (var (c, i) := p.command(m[7..]).value; p.deriveKeys(s.kamf, c, i).None?)
    ensures DownlinkResult(p, s, m) == Read(m[7..], None)
    ensures var s' := AfterDownlink(p, s, m);
            && !s'.active && s'.dlCount == Estimate(s.dlCount, m[6])
            && s'.kamf == s.kamf && s'.ulCount == s.ulCount && s'.lastUplink == s.lastUplink
            && s'.keys.knasEnc == s.keys.knasEnc && s'.keys.knasInt == s.keys.knasInt
  {
    hide Estimate;
  }

  /** A command that can be followed, with header type 3 or 4 and read before any check of its MAC, replaces
      algorithms and keys, activates the context and sets the downlink COUNT to 0; one that cannot replaces
      the algorithms only. */
  lemma CommandIsFollowed(p: Primitives, s: Security, m: seq<byte>)
    requires |m| >= 7 && (m[1] % 16 == 3 || m[1] % 16 == 4) && p.command(m[7..]).Some?
    ensures var (c, i) := p.command(m[7..]).value; var d := p.deriveKeys(s.kamf, c, i);
            AfterDownlink(p, s, m) ==
              if d.Some? then
                Security(s.kamf, Keys(c, i, d.value.0, d.value.1), s.ulCount, 0, true, s.lastUplink)
              else
                Security(s.kamf, Keys(c, i, s.keys.knasEnc, s.keys.knasInt), s.ulCount, Estimate(s.dlCount, m[6]), s.active,
                         s.lastUplink)
  {
    hide Estimate;
  }

  /** A forged message in an active context, whatever its MAC, is deciphered and handed over with the verdict
      false; the UE takes over its COUNT. */
  lemma ForgedIsReadAsFalse(p: Primitives, s: Security, plain: seq<byte>, sht: byte, count: uint32, forged: seq<byte>)
    requires Sized(p) && s.active && 0 < sht < 16
    requires (count - s.dlCount) % 0x1_0000_0000 < 256
    requires Wrap(p, plain, sht, count, s.keys, NasSecurity.Downlink).Some?
    requires sht == 3 || sht == 4 ==> p.command(Wrap(p, plain, sht, count, s.keys, NasSecurity.Downlink).value[7..]).None?
    requires |forged| == 4 && forged != Wrap(p, plain, sht, count, s.keys, NasSecurity.Downlink).value[2..6]
    ensures var w := Wrap(p, plain, sht, count, s.keys, NasSecurity.Downlink).value;
            var m := w[..2] + forged + w[6..];
            DownlinkResult(p, s, m) == Read(plain, Some(false)) && AfterDownlink(p, s, m) == s.(dlCount := count)
  {
    EstimateIsRight(s.dlCount, count);
    WrapLayout(p, plain, sht, count, s.keys, NasSecurity.Downlink);
    ForgedMACIsRefused(p, plain, sht, count, s.keys, NasSecurity.Downlink, forged);
    hide Wrap, Unwrap, Estimate, Ciphered;
    var w := Wrap(p, plain, sht, count, s.keys, NasSecurity.Downlink).value;
    var m := w[..2] + forged + w[6..];
    assert m[1] == w[1] && m[6] == w[6] && |m| == |w| && m[7..] == w[7..];
    assert CommandIn(p, m) == None;
  }

  /** A message whose MAC or key stream the library cannot compute is dropped, and counted. */
  lemma UncomputableIsDropped(p: Primitives, s: Security, m: seq<byte>)
    requires Sized(p) && s.active && |m| >= 7 && m[1] % 16 != 0 && m[1] % 16 != 3 && m[1] % 16 != 4
    requires var c := Estimate(s.dlCount, m[6]);
             || p.mac(s.keys.integrityAlg, s.keys.knasInt, c, NasSecurity.Downlink, m[6..]).None?
             || (m[1] % 16 == 2
                 && p.keystream(s.keys.cipheringAlg, s.keys.knasEnc, c, NasSecurity.Downlink, |m| - 7).None?)
    ensures DownlinkResult(p, s, m) == Dropped
    ensures AfterDownlink(p, s, m) == s.(dlCount := Estimate(s.dlCount, m[6]))
  {
    hide Estimate, XorAll;
  }

  /** Message k of the network, when the UE holds the keys or is given them by this message, is read
      as sent if the UE estimates COUNT k, and conversely if no other COUNT yields the same MAC. */
  lemma ReceiptIsExact(p: Primitives, n: Network, s: Security, k: nat)
    requires Sized(p) && IsNetwork(p, n) && Shares(s, n) && k < |n.script|
    requires s.active || IsCommand(n, k)
    ensures var m := OnAir(p, n, k).value; var c := Estimate(s.dlCount, k % 256);
            && (c == k ==> DownlinkResult(p, s, m) == Read(n.script[k].plain, Some(true)))
            && (p.mac(n.keys.integrityAlg, n.keys.knasInt, c, NasSecurity.Downlink, m[6..])
                  != p.mac(n.keys.integrityAlg, n.keys.knasInt, k, NasSecurity.Downlink, m[6..]) ==>
                DownlinkResult(p, s, m) != Read(n.script[k].plain, Some(true)))
            && (c == k <==> (k - s.dlCount) % 0x1_0000_0000 < 256)
    ensures var s' := AfterDownlink(p, s, OnAir(p, n, k).value);
            && Shares(s', n) && s'.active
            && s'.dlCount == if IsCommand(n, k) then 0 else Estimate(s.dlCount, k % 256)
  {
    var m := OnAir(p, n, k).value;
    var out := n.script[k];
    WrapLayout(p, out.plain, out.sht, k, n.keys, NasSecurity.Downlink);
    UnwrapInvertsWrap(p, out.plain, out.sht, k, n.keys, NasSecurity.Downlink);
    EstimateIsRight(s.dlCount, k);
    assert m[1] % 16 == out.sht;
    if IsCommand(n, k) {
      assert m[7..] == out.plain;
      assert CommandIn(p, m) == Some((n.keys.cipheringAlg, n.keys.integrityAlg));
    } else {
      assert CommandIn(p, m) == None;
    }
    assert AfterDownlink(p, s, m).keys == n.keys;
  }

  /** A protected message of the network, one it sends without protection, and an uplink message. */
  datatype Exchange = Receive(k: nat) | ReceivePlain(message: seq<byte>) | Send(plain: seq<byte>, sht: byte, req: Overrides)

  predicate IsPlain(message: seq<byte>) {
    |message| >= 2 && message[1] % 16 == 0
  }

  /** Every delivery finds the UE in possession of the keys or brings them, and its COUNT lies in the
      window of 256 from the floor, modulo 2^32: from the COUNT received last, or from 0 after a command
      and after an uplink message that takes a new context into use. */
  ghost predicate InStep(n: Network, floor: nat, keyed: bool, xs: seq<Exchange>)
    decreases |xs|
  {
    xs == [] ||
    match xs[0]
    case Receive(k) =>
      && k < |n.script| && (keyed || IsCommand(n, k))
      && (k - floor) % 0x1_0000_0000 < 256
      && InStep(n, if IsCommand(n, k) then 0 else k, true, xs[1..])
    case ReceivePlain(m) => IsPlain(m) && InStep(n, floor, keyed, xs[1..])
    case Send(_, sht, _) => InStep(n, if sht == 3 || sht == 4 then 0 else floor, keyed, xs[1..])
  }

  ghost predicate AllRead(p: Primitives, n: Network, s: Security, xs: seq<Exchange>)
    requires Sized(p) && |n.script| <= 0x1_0000_0000
    decreases |xs|
  {
    xs == [] ||
    match xs[0]
    case Receive(k) =>
      && k < |n.script| && OnAir(p, n, k).Some?
      && var m := OnAir(p, n, k).value;
         && DownlinkResult(p, s, m) == Read(n.script[k].plain, Some(true))
         && AllRead(p, n, AfterDownlink(p, s, m), xs[1..])
    case ReceivePlain(m) =>
      IsPlain(m) && DownlinkResult(p, s, m) == Read(m, None) && AllRead(p, n, AfterDownlink(p, s, m), xs[1..])
    case Send(plain, sht, req) => AllRead(p, n, AfterUplink(p, s, plain, sht, req), xs[1..])
  }

  /** End-to-end synchronisation: over a whole run with losses, retransmitted commands and uplink
      traffic, every delivered message is verified and read exactly as sent, the command that
      creates the keys included, as long as the deliveries stay in step. */
  lemma {:induction false} InStepIsRead(p: Primitives, n: Network, s: Security, xs: seq<Exchange>)
    requires Sized(p) && IsNetwork(p, n) && Shares(s, n)
    requires InStep(n, s.dlCount, s.active, xs)
    ensures AllRead(p, n, s, xs)
    decreases |xs|
  {
    if xs != [] {
      hide DownlinkResult, AfterDownlink, UplinkOctets, Wrap;
      match xs[0]
      case Receive(k) =>
        ReceiptIsExact(p, n, s, k);
        InStepIsRead(p, n, AfterDownlink(p, s, OnAir(p, n, k).value), xs[1..]);
      case ReceivePlain(m) =>
        PlainIsReadAsSent(p, s, m);
        InStepIsRead(p, n, s, xs[1..]);
      case Send(plain, sht, req) =>
        InStepIsRead(p, n, AfterUplink(p, s, plain, sht, req), xs[1..]);
    }
  }

  /** Along the run, up to its first misread message: a wrong COUNT estimated for a message does not happen
      to give it the same MAC. */
  ghost predicate MACsDiffer(p: Primitives, n: Network, s: Security, xs: seq<Exchange>)
    requires Sized(p) && IsNetwork(p, n)
    decreases |xs|
  {
    xs == [] ||
    match xs[0]
    case Receive(k) =>
      k < |n.script| && (s.active || IsCommand(n, k)) ==>
        var m := OnAir(p, n, k).value; var c := Estimate(s.dlCount, k % 256);
        if c == k then MACsDiffer(p, n, AfterDownlink(p, s, m), xs[1..])
        else p.mac(n.keys.integrityAlg, n.keys.knasInt, c, NasSecurity.Downlink, m[6..])
             != p.mac(n.keys.integrityAlg, n.keys.knasInt, k, NasSecurity.Downlink, m[6..])
    case ReceivePlain(_) => MACsDiffer(p, n, s, xs[1..])
    case Send(plain, sht, req) => MACsDiffer(p, n, AfterUplink(p, s, plain, sht, req), xs[1..])
  }

  lemma UnkeyedIsUnverified(p: Primitives, n: Network, s: Security, k: nat)
    requires Sized(p) && IsNetwork(p, n) && k < |n.script| && !s.active && !IsCommand(n, k)
    ensures DownlinkResult(p, s, OnAir(p, n, k).value) != Read(n.script[k].plain, Some(true))
  {
    var m := OnAir(p, n, k).value;
    var out := n.script[k];
    WrapLayout(p, out.plain, out.sht, k, n.keys, NasSecurity.Downlink);
    hide Wrap, Unwrap, Estimate;
    assert m[1] % 16 == out.sht;
    assert CommandIn(p, m) == None;
  }

  /** Exactly when a whole run is read as sent: when its deliveries stay in step. The first one that does
      not is not verified, so that nothing later makes up for it. */
  lemma {:induction false} ReadExactlyInStep(p: Primitives, n: Network, s: Security, xs: seq<Exchange>)
    requires Sized(p) && IsNetwork(p, n) && Shares(s, n) && MACsDiffer(p, n, s, xs)
    ensures AllRead(p, n, s, xs) <==> InStep(n, s.dlCount, s.active, xs)
    decreases |xs|
  {
    if xs != [] {
      hide DownlinkResult, AfterDownlink, UplinkOctets, Wrap;
      match xs[0]
      case Receive(k) =>
        if k < |n.script| {
          if s.active || IsCommand(n, k) {
            ReceiptIsExact(p, n, s, k);
            if Estimate(s.dlCount, k % 256) == k {
              ReadExactlyInStep(p, n, AfterDownlink(p, s, OnAir(p, n, k).value), xs[1..]);
            }
          } else {
            UnkeyedIsUnverified(p, n, s, k);
          }
        }
      case ReceivePlain(m) =>
        if IsPlain(m) { PlainIsReadAsSent(p, s, m); }
        ReadExactlyInStep(p, n, s, xs[1..]);
      case Send(plain, sht, req) =>
        ReadExactlyInStep(p, n, AfterUplink(p, s, plain, sht, req), xs[1..]);
    }
  }

  /** What follows the command of one procedure: deliveries in order, with fewer than 255 messages lost
      between two of them, among uplink messages. One that takes a new context into use, as the answer
      to the command does, is sent before any further delivery. */
  ghost predicate FewLost(n: Network, last: nat, xs: seq<Exchange>)
    decreases |xs|
  {
    xs == [] ||
    match xs[0]
    case Receive(k) => k < |n.script| && !IsCommand(n, k) && last < k <= last + 255 && FewLost(n, k, xs[1..])
    case ReceivePlain(m) => IsPlain(m) && FewLost(n, last, xs[1..])
    case Send(_, sht, _) => (sht == 3 || sht == 4 ==> last == 0) && FewLost(n, last, xs[1..])
  }

  lemma {:induction false} FewLostIsInStep(n: Network, last: nat, xs: seq<Exchange>)
    requires FewLost(n, last, xs)
    ensures InStep(n, last, true, xs)
    decreases |xs|
  {
    if xs != [] {
      FewLostIsInStep(n, if xs[0].Receive? then xs[0].k else last, xs[1..]);
    }
  }

  /** What precedes the command: uplink messages and unprotected ones, as in authentication. */
  predicate BeforeCommand(x: Exchange) {
    x.Send? || (x.ReceivePlain? && IsPlain(x.message))
  }

  lemma {:induction false} SendsStayInStep(n: Network, sends: seq<Exchange>, xs: seq<Exchange>)
    requires (forall x | x in sends :: BeforeCommand(x)) && InStep(n, 0, false, xs)
    ensures InStep(n, 0, false, sends + xs)
    decreases |sends|
  {
    if sends == [] {
      assert sends + xs == xs;
    } else {
      SendsStayInStep(n, sends[1..], xs);
      assert sends[0] in sends && BeforeCommand(sends[0]);
      assert (sends + xs)[0] == sends[0] && (sends + xs)[1..] == sends[1..] + xs;
    }
  }

  /** The promise for one procedure from COUNT 0, in the terms of the losses: messages of both
      directions without protection, the command that creates the keys, its answer, and traffic in both directions. */
  lemma ProcedureIsRead(p: Primitives, n: Network, s: Security, sends: seq<Exchange>, xs: seq<Exchange>)
    requires Sized(p) && IsNetwork(p, n)
    requires s.kamf == n.kamf && !s.active && s.dlCount == 0
    requires forall x | x in sends :: BeforeCommand(x)
    requires |n.script| > 0 && IsCommand(n, 0) && FewLost(n, 0, xs)
    ensures AllRead(p, n, s, sends + ([Receive(0)] + xs))
  {
    FewLostIsInStep(n, 0, xs);
    assert ([Receive(0)] + xs)[1..] == xs;
    SendsStayInStep(n, sends, [Receive(0)] + xs);
    InStepIsRead(p, n, s, sends + ([Receive(0)] + xs));
  }

  /** Fewer than 255 losses are not enough when the command delivered first is a retransmission: the
      code resets the COUNT to 0, not to the command's, and after 254 losses message 256 is taken
      for COUNT 0. */
  lemma RetransmittedCommandLosesStep(p: Primitives, n: Network, s: Security)
    requires Sized(p) && IsNetwork(p, n) && Shares(s, n) && s.dlCount == 0
    requires |n.script| > 256 && IsCommand(n, 1) && !IsCommand(n, 256)
    requires var m := OnAir(p, n, 256).value;
             p.mac(n.keys.integrityAlg, n.keys.knasInt, 0, NasSecurity.Downlink, m[6..])
               != p.mac(n.keys.integrityAlg, n.keys.knasInt, 256, NasSecurity.Downlink, m[6..])
    ensures DownlinkResult(p, s, OnAir(p, n, 1).value) == Read(n.script[1].plain, Some(true))
    ensures DownlinkResult(p, AfterDownlink(p, s, OnAir(p, n, 1).value), OnAir(p, n, 256).value)
              != Read(n.script[256].plain, Some(true))
  {
    ReceiptIsExact(p, n, s, 1);
    ReceiptIsExact(p, n, AfterDownlink(p, s, OnAir(p, n, 1).value), 256);
  }

  /** A later procedure starts again from COUNT 0. The code estimates the command's COUNT before it
      resets its own, so it takes the command for COUNT 0 exactly when the stored COUNT is 0 or
      within 255 of the 32-bit wrap. */
  lemma LaterProcedure(p: Primitives, s: Security, n: Network)
    requires Sized(p) && IsNetwork(p, n) && s.kamf == n.kamf && s.active
    requires |n.script| > 0 && IsCommand(n, 0)
    ensures var m := OnAir(p, n, 0).value; var c := Estimate(s.dlCount, 0);
            && (c == 0 <==> s.dlCount == 0 || s.dlCount > 0xffff_ff00)
            && (c == 0 ==> DownlinkResult(p, s, m) == Read(n.script[0].plain, Some(true)))
            && (p.mac(n.keys.integrityAlg, n.keys.knasInt, c, NasSecurity.Downlink, m[6..])
                  != p.mac(n.keys.integrityAlg, n.keys.knasInt, 0, NasSecurity.Downlink, m[6..]) ==>
                DownlinkResult(p, s, m) != Read(n.script[0].plain, Some(true)))
  {
    var m := OnAir(p, n, 0).value;
    var out := n.script[0];
    WrapLayout(p, out.plain, out.sht, 0, n.keys, NasSecurity.Downlink);
    UnwrapInvertsWrap(p, out.plain, out.sht, 0, n.keys, NasSecurity.Downlink);
    assert m[7..] == out.plain && m[1] % 16 == INTEGRITY_NEW;
    assert AfterDownlink(p, s, m).keys == n.keys;
  }
}
