/** The 4G context over whole two-party runs, in both directions (internal/api/enb_security.go). Of the wrapper,
    which a library writes, only this is used: what one side protects with a COUNT the other verifies at it. */
module EPSRuns {
  import opened Words
  import opened Bits
  import opened NasSecurity
  import opened NasCount
  import opened UEContexts
  import opened EPSContexts

  // ---- Uplink ----------------------------------------------------------------------------------

  /** The network's side of the library: it verifies a message at the COUNT and with the keys it was protected
      with, and refuses it when the first octet of its MAC is inverted. */
  ghost predicate Reads(p: EPSPrimitives, core: (seq<byte>, uint32, Keys) -> Unwrapped) {
    forall plain, sht, count, keys | p.protect(plain, sht, count, keys).Some? ::
      var w := p.protect(plain, sht, count, keys).value;
      && |w| >= 6
      && core(w, count, keys) == Verified(plain)
      && core(w[1 := 255 - w[1]], count, keys) == Mismatch(plain)
  }

  ghost function CountOf(s: EPSSecurity, req: Overrides): uint32 {
    match req.count case Some(c) => c case None => s.ulCount
  }

  /** Exactly when an uplink message is sent: with a context or a root key, algorithms 0 to 2 and a message
      that the library can protect. */
  lemma EPSUplinkIsSentExactly(p: EPSPrimitives, s: EPSSecurity, plain: seq<byte>, sht: byte, req: Overrides)
    ensures EPSUplinkOctets(p, s, plain, sht, req).Some? <==>
              && (s.active || |s.kasme| > 0)
              && s.keys.cipheringAlg in {0, 1, 2} && s.keys.integrityAlg in {0, 1, 2}
              && p.protect(plain, sht, CountOf(s, req), s.keys).Some?
  {
  }

  /** Every uplink message is read by the network at the COUNT the request names, or else at the stored one,
      and refused there if its MAC was to be corrupted, which inverts octet 1 and nothing else. */
  lemma EPSUplinkIsReadable(p: EPSPrimitives, core: (seq<byte>, uint32, Keys) -> Unwrapped, s: EPSSecurity, plain: seq<byte>,
                            sht: byte, req: Overrides)
    requires Reads(p, core) && EPSUplinkOctets(p, s, plain, sht, req).Some?
    ensures EPSUplinkOctets(p, s, plain, sht, req.(corruptMAC := false)).Some?
    ensures var honest := EPSUplinkOctets(p, s, plain, sht, req.(corruptMAC := false)).value;
            var sent := EPSUplinkOctets(p, s, plain, sht, req).value;
            && |honest| >= 6 && core(honest, CountOf(s, req), s.keys) == Verified(plain)
            && sent == (if req.corruptMAC then honest[1 := 255 - honest[1]] else honest)
            && (req.corruptMAC ==> core(sent, CountOf(s, req), s.keys) == Mismatch(plain))
  {
    var w := p.protect(plain, sht, CountOf(s, req), s.keys).value;
    assert p.protect(plain, sht, CountOf(s, req), s.keys).Some?;
    XorByBits(w[1], 0, 0);
    hide Xor;
  }

  /** The k-th uplink message since the last established context, counted from 0, after any run: without an
      override the network verifies it at COUNT k modulo 2^32, with one at the COUNT that was named. */
  lemma EPSUplinksAreNumbered(p: EPSPrimitives, core: (seq<byte>, uint32, Keys) -> Unwrapped, s: EPSSecurity, es: seq<EPSEvent>,
                              plain: seq<byte>, sht: byte, req: Overrides)
    requires Reads(p, core) && s.ulCount == 0 && !req.corruptMAC
    requires EPSUplinkOctets(p, EPSAfter(p, s, es), plain, sht, req).Some?
    ensures var u := EPSAfter(p, s, es);
            var k := EPSAllocations(p, s, es);
            var sent := EPSUplinkOctets(p, u, plain, sht, req).value;
            && core(sent, if req.count.Some? then req.count.value else k % 0x1_0000_0000, u.keys) == Verified(plain)
            && EPSAllocations(p, s, es + [SendUplink(plain, sht, req)]) == k + 1
  {
    var u := EPSAfter(p, s, es);
    EPSUplinkIsSentExactly(p, u, plain, sht, req);
    EPSUplinkIsReadable(p, core, u, plain, sht, req);
    EPSUplinkCountsAllocations(p, s, es);
    assert (es + [SendUplink(plain, sht, req)])[..|es|] == es;
    hide EPSUplinkOctets, EPSAfter;
    assert req.(corruptMAC := false) == req;
  }

  // ---- Downlink, message by message ------------------------------------------------------------

  /** A plain message is read as sent and without a verdict in every state, and changes none. */
  lemma EPSPlainIsReadAsSent(p: EPSPrimitives, s: EPSSecurity, m: seq<byte>)
    requires |m| >= 1 && m[0] == 7
    ensures EPSDownlinkResult(p, s, m) == Read(m, None) && AfterEPSDownlink(p, s, m) == s
  {
  }

  /** An empty message, one of another protocol, and a protected one too short for its header are dropped and
      change nothing. */
  lemma EPSMalformedIsDropped(p: EPSPrimitives, s: EPSSecurity, m: seq<byte>)
    requires m == [] || m[0] % 16 != 7 || (m[0] != 7 && |m| < 6)
    ensures EPSDownlinkResult(p, s, m) == Dropped && AfterEPSDownlink(p, s, m) == s
  {
  }

  /** The command a protected message brings: with header type 3 or 4, if the library can look into it. */
  ghost function Brought(p: EPSPrimitives, m: seq<byte>): Option<(byte, byte)>
    requires |m| > 0
  {
    if m[0] / 16 != 3 && m[0] / 16 != 4 then None
    else match p.peek(m) case None => None case Some(inner) => p.command(inner)
  }

  /** A protected message that reaches a UE without an active context, and brings no command that could be
      followed, is read as far as the library can look into it, without a verdict. */
  lemma EPSUnkeyedIsReadUnverified(p: EPSPrimitives, s: EPSSecurity, m: seq<byte>)
    requires |m| >= 6 && m[0] % 16 == 7 && m[0] != 7 && !s.active
    requires Brought(p, m).None? || (var (c, i) := Brought(p, m).value; p.deriveKeys(s.kasme, c, i).None?)
    ensures EPSDownlinkResult(p, s, m) == match p.peek(m) case None => Dropped case Some(inner) => Read(inner, None)
    ensures var s' := AfterEPSDownlink(p, s, m);
            && !s'.active && s'.dlCount == Estimate(s.dlCount, m[5])
            && s'.kasme == s.kasme && s'.ulCount == s.ulCount
            && s'.keys.knasEnc == s.keys.knasEnc && s'.keys.knasInt == s.keys.knasInt
  {
    hide Estimate;
  }

  /** A command that can be followed replaces algorithms and keys, activates the context and sets both COUNTs
      to 0; one that cannot replaces the algorithms only. */
  lemma EPSCommandIsFollowed(p: EPSPrimitives, s: EPSSecurity, m: seq<byte>)
    requires |m| >= 6 && m[0] % 16 == 7 && Brought(p, m).Some?
    ensures var (c, i) := Brought(p, m).value; var d := p.deriveKeys(s.kasme, c, i);
            AfterEPSDownlink(p, s, m) ==
              if d.Some? then EPSSecurity(s.kasme, Keys(c, i, d.value.0, d.value.1), 0, 0, true)
              else EPSSecurity(s.kasme, Keys(c, i, s.keys.knasEnc, s.keys.knasInt), s.ulCount, Estimate(s.dlCount, m[5]), s.active)
  {
    hide Estimate;
  }

  /** In an active context a protected message without command is handed over with the library's verdict at
      the estimated COUNT; it is dropped when the library fails and for algorithms above 2. */
  lemma EPSVerdict(p: EPSPrimitives, s: EPSSecurity, m: seq<byte>)
    requires |m| >= 6 && m[0] % 16 == 7 && m[0] != 7 && s.active && Brought(p, m).None?
    ensures var c := Estimate(s.dlCount, m[5]);
            && AfterEPSDownlink(p, s, m) == s.(dlCount := c)
            && EPSDownlinkResult(p, s, m) ==
                 if s.keys.cipheringAlg > 2 || s.keys.integrityAlg > 2 then Dropped
                 else match p.unprotect(m, c, s.keys)
                      case Failed => Dropped
                      case Mismatch(plain) => Read(plain, Some(false))
                      case Verified(plain) => Read(plain, Some(true))
  {
    hide Estimate;
  }

  // ---- Downlink, whole runs --------------------------------------------------------------------

  datatype Outgoing = Outgoing(message: seq<byte>, plain: seq<byte>)

  /** The network's side: message k is protected with COUNT k under keys derived from the UE's K_ASME. */
  datatype Network = Network(kasme: seq<byte>, keys: Keys, script: seq<Outgoing>)

  ghost predicate IsCommand(n: Network, k: nat)
    requires k < |n.script|
  {
    IsEPSSecured(n.script[k].message) && IsNewContext(n.script[k].message[0] / 16)
  }

  ghost predicate IsNetwork(p: EPSPrimitives, n: Network) {
    && n.kasme != [] && Supported(n.keys) && |n.script| <= 0x1_0000_0000
    && p.deriveKeys(n.kasme, n.keys.cipheringAlg, n.keys.integrityAlg) == Some((n.keys.knasEnc, n.keys.knasInt))
    && forall k | 0 <= k < |n.script| ::
         var m := n.script[k].message;
         && IsEPSSecured(m) && m[5] == k % 256
         && p.unprotect(m, k, n.keys) == Verified(n.script[k].plain)
         && (IsCommand(n, k) ==> EPSCommandIn(p, m) == Some((n.keys.cipheringAlg, n.keys.integrityAlg)))
  }

  /** A UE that shares K_ASME and, once active, the keys. */
  ghost predicate Shares(s: EPSSecurity, n: Network) {
    s.kasme == n.kasme && (s.active ==> s.keys == n.keys)
  }

  /** Message k, when the UE holds the keys or is given them by it, is read as sent exactly when it verifies
      at the COUNT the UE estimates, which is k exactly in the window of 256, modulo 2^32. */
  lemma EPSReceiptIsExact(p: EPSPrimitives, n: Network, s: EPSSecurity, k: nat)
    requires IsNetwork(p, n) && Shares(s, n) && k < |n.script| && (s.active || IsCommand(n, k))
    ensures var out := n.script[k]; var c := Estimate(s.dlCount, k % 256);
            && (EPSDownlinkResult(p, s, out.message) == Read(out.plain, Some(true))
                <==> p.unprotect(out.message, c, n.keys) == Verified(out.plain))
            && (c == k <==> (k - s.dlCount) % 0x1_0000_0000 < 256)
    ensures var s' := AfterEPSDownlink(p, s, n.script[k].message);
            && Shares(s', n) && s'.active
            && s'.dlCount == if IsCommand(n, k) then 0 else Estimate(s.dlCount, k % 256)
  {
    EstimateIsRight(s.dlCount, k);
    hide Estimate;
    assert !IsCommand(n, k) ==> EPSCommandIn(p, n.script[k].message) == None;
    assert AfterEPSDownlink(p, s, n.script[k].message).keys == n.keys;
  }

  lemma EPSUnkeyedIsUnverified(p: EPSPrimitives, n: Network, s: EPSSecurity, k: nat)
    requires IsNetwork(p, n) && k < |n.script| && !s.active && !IsCommand(n, k)
    ensures EPSDownlinkResult(p, s, n.script[k].message) != Read(n.script[k].plain, Some(true))
  {
    assert EPSCommandIn(p, n.script[k].message) == None;
  }

  /** A protected message of the network, one it sends without protection, and an uplink message. */
  datatype Exchange = Receive(k: nat) | ReceivePlain(message: seq<byte>) | Send(plain: seq<byte>, sht: byte, req: Overrides)

  predicate IsPlain(message: seq<byte>) {
    |message| >= 1 && message[0] == 7
  }

  /** Every delivery finds the UE in possession of the keys or brings them, and its COUNT lies in the window
      of 256 from the floor, modulo 2^32: from the COUNT received last, or from 0 after a command. Uplink
      messages leave the downlink COUNT of the 4G context alone. */
  ghost predicate InStep(n: Network, floor: nat, keyed: bool, xs: seq<Exchange>)
    decreases |xs|
  {
    xs == [] ||
    match xs[0]
    case Receive(k) =>
      && k < |n.script| && (keyed || IsCommand(n, k))
      && (k - floor) % 0x1_0000_0000 < 256
      && InStep(n, if IsCommand(n, k) then 0 else k, true, xs[1..])
    case ReceivePlain(m) => IsPlain(m) && InStep(n, floor, keyed, xs[1..])
    case Send(_, _, _) => InStep(n, floor, keyed, xs[1..])
  }

  ghost predicate AllRead(p: EPSPrimitives, n: Network, s: EPSSecurity, xs: seq<Exchange>)
    decreases |xs|
  {
    xs == [] ||
    match xs[0]
    case Receive(k) =>
      && k < |n.script|
      && EPSDownlinkResult(p, s, n.script[k].message) == Read(n.script[k].plain, Some(true))
      && AllRead(p, n, AfterEPSDownlink(p, s, n.script[k].message), xs[1..])
    case ReceivePlain(m) =>
      IsPlain(m) && EPSDownlinkResult(p, s, m) == Read(m, None) && AllRead(p, n, AfterEPSDownlink(p, s, m), xs[1..])
    case Send(_, _, _) => AllRead(p, n, AfterEPSUplink(s), xs[1..])
  }

  /** Along the run, up to its first misread message: at a wrong COUNT a message does not happen to verify
      with the right contents. */
  ghost predicate VerifiesOnce(p: EPSPrimitives, n: Network, s: EPSSecurity, xs: seq<Exchange>)
    decreases |xs|
  {
    xs == [] ||
    match xs[0]
    case Receive(k) =>
      k < |n.script| && (s.active || IsCommand(n, k)) ==>
        var m := n.script[k].message; var c := Estimate(s.dlCount, k % 256);
        if c == k then VerifiesOnce(p, n, AfterEPSDownlink(p, s, m), xs[1..])
        else p.unprotect(m, c, n.keys) != Verified(n.script[k].plain)
    case ReceivePlain(_) => VerifiesOnce(p, n, s, xs[1..])
    case Send(_, _, _) => VerifiesOnce(p, n, AfterEPSUplink(s), xs[1..])
  }

  /** End-to-end synchronisation in 4G: while the deliveries stay in step, every one is verified and read
      exactly as sent, the command that creates the keys included. */
  lemma {:induction false} EPSInStepIsRead(p: EPSPrimitives, n: Network, s: EPSSecurity, xs: seq<Exchange>)
    requires IsNetwork(p, n) && Shares(s, n) && InStep(n, s.dlCount, s.active, xs)
    ensures AllRead(p, n, s, xs)
    decreases |xs|
  {
    if xs != [] {
      hide EPSDownlinkResult, AfterEPSDownlink;
      match xs[0]
      case Receive(k) =>
        EPSReceiptIsExact(p, n, s, k);
        EPSInStepIsRead(p, n, AfterEPSDownlink(p, s, n.script[k].message), xs[1..]);
      case ReceivePlain(m) =>
        EPSPlainIsReadAsSent(p, s, m);
        EPSInStepIsRead(p, n, s, xs[1..]);
      case Send(_, _, _) => EPSInStepIsRead(p, n, AfterEPSUplink(s), xs[1..]);
    }
  }

  /** Exactly when a whole 4G run is read as sent: when its deliveries stay in step. */
  lemma {:induction false} EPSReadExactlyInStep(p: EPSPrimitives, n: Network, s: EPSSecurity, xs: seq<Exchange>)
    requires IsNetwork(p, n) && Shares(s, n) && VerifiesOnce(p, n, s, xs)
    ensures AllRead(p, n, s, xs) <==> InStep(n, s.dlCount, s.active, xs)
    decreases |xs|
  {
    if xs != [] {
      hide EPSDownlinkResult, AfterEPSDownlink;
      match xs[0]
      case Receive(k) =>
        if k < |n.script| {
          if s.active || IsCommand(n, k) {
            EPSReceiptIsExact(p, n, s, k);
            if Estimate(s.dlCount, k % 256) == k {
              EPSReadExactlyInStep(p, n, AfterEPSDownlink(p, s, n.script[k].message), xs[1..]);
            }
          } else {
            EPSUnkeyedIsUnverified(p, n, s, k);
          }
        }
      case ReceivePlain(m) =>
        if IsPlain(m) { EPSPlainIsReadAsSent(p, s, m); }
        EPSReadExactlyInStep(p, n, s, xs[1..]);
      case Send(_, _, _) => EPSReadExactlyInStep(p, n, AfterEPSUplink(s), xs[1..]);
    }
  }
}
