/** The UE matcher of the await handlers (internal/api/gnb_await_handlers.go:18-36) and what it
    isolates: several UEs waiting on the one N2 association of their gNB. */
module NgapMatcher {
  import opened Words
  import opened Mailbox
  import opened MailboxProtocol
  import opened MailboxIsolation

  datatype Ngap = Ngap(messageType: string, ran: Option<int>, amf: Option<int>, body: seq<byte>)

  /** A UE as the matcher knows it; an AMF ID of 0 has not been assigned yet. */
  datatype UE = UE(ran: int, amf: int)

  predicate Matches(ue: UE, m: Ngap) {
    || (m.ran == None && m.amf == None)
    || m.ran == Some(ue.ran)
    || (m.amf.Some? && ue.amf != 0 && m.amf == Some(ue.amf))
  }

  /** The identifiers of two UEs served by one gNB at one time. */
  predicate Distinct(u: UE, v: UE) {
    u.ran != v.ran && (u.amf == 0 || u.amf != v.amf)
  }

  predicate NonUE(m: Ngap) {
    m.ran == None && m.amf == None
  }

  /** A message that carries the RAN ID of one UE and the AMF ID of the other. */
  predicate CrossLabelled(m: Ngap, u: UE, v: UE) {
    || (m.ran == Some(u.ran) && v.amf != 0 && m.amf == Some(v.amf))
    || (m.ran == Some(v.ran) && u.amf != 0 && m.amf == Some(u.amf))
  }

  /** Distinct identifiers are not enough for disjoint matchers: both UEs accept a message exactly
      when it is not UE-associated or mixes their identifiers. */
  lemma OverlapExactly(u: UE, v: UE, m: Ngap)
    requires Distinct(u, v)
    ensures Matches(u, m) && Matches(v, m) <==> NonUE(m) || CrossLabelled(m, u, v)
  {
    assert m.ran.Some? && m.amf.Some? ==> m.ran == Some(m.ran.value) && m.amf == Some(m.amf.value);
  }

  lemma MatchersMayOverlap()
    ensures var u, v := UE(1, 10), UE(2, 20);
            var m := Ngap("DownlinkNASTransport", Some(1), Some(20), []);
            Distinct(u, v) && !NonUE(m) && Matches(u, m) && Matches(v, m)
  {
  }

  /** Which messages are a UE's, over the fields of the message: one with the UE's RAN ID whatever its AMF
      ID, one with the AMF ID the UE has been assigned whatever its RAN ID, and one without identifiers. A
      message that names other identifiers only is not. */
  lemma AcceptsExactly(ue: UE, m: Ngap)
    ensures m.ran.Some? && m.ran.value == ue.ran ==> Matches(ue, m)
    ensures m.amf.Some? && m.amf.value == ue.amf && ue.amf != 0 ==> Matches(ue, m)
    ensures m.ran.None? && m.amf.None? ==> Matches(ue, m)
    ensures (m.ran.Some? && m.ran.value != ue.ran) && (m.amf.None? || ue.amf == 0 || m.amf.value != ue.amf) ==> !Matches(ue, m)
    ensures m.ran.None? && m.amf.Some? && (ue.amf == 0 || m.amf.value != ue.amf) ==> !Matches(ue, m)
  {
  }

  /** A message that carries the UE's RAN ID or its assigned AMF ID, or no identifier. */
  ghost predicate IsOwn(ue: UE, m: Ngap) {
    || (m.ran.Some? && m.ran.value == ue.ran)
    || (m.amf.Some? && m.amf.value == ue.amf && ue.amf != 0)
    || (m.ran.None? && m.amf.None?)
  }

  /** A UE waits with its matcher while an own message of a requested type is buffered. */
  ghost predicate IsDue(s: State<string, Ngap>, id: nat, ue: UE, t: string, m: Ngap) {
    && id < |s.waiters| && Pending(s.waiters[id])
    && (forall f :: s.waiters[id].accepts(f) <==> Matches(ue, f))
    && t in s.waiters[id].types && m in Buffered(s.frames, t) && IsOwn(ue, m)
  }

  /** A UE whose own message is buffered is served: in every interleaving its wait does not time out, even
      if its context has expired, and it is not left waiting when nothing is left to run. */
  lemma OwnMessageIsServed(s0: State<string, Ngap>, es: seq<Event<string, Ngap>>, id: nat, ue: UE, t: string, m: Ngap)
    requires Starting(s0) && Admissible(s0, es) && IsDue(After(s0, es), id, ue, t, m)
    ensures var s := After(s0, es);
            forall e | Enabled(s, e) :: Apply(s, e).outcomes != s.outcomes + [(id, TimedOut)]
    ensures !AtRest(After(s0, es))
  {
    var s := After(s0, es);
    var w := s.waiters[id];
    AcceptsExactly(ue, m);
    var j :| 0 <= j < |Buffered(s.frames, t)| && Buffered(s.frames, t)[j] == m;
    assert !NothingFor(s.frames, w.types, w.accepts);
    if AtRest(s) { RestIsFair(s0, es, id); }
    forall e | Enabled(s, e) ensures Apply(s, e).outcomes != s.outcomes + [(id, TimedOut)] {
      NoUnjustifiedTimeout(s0, es, e, id);
    }
  }

  lemma NoUnjustifiedTimeout(s0: State<string, Ngap>, es: seq<Event<string, Ngap>>, e: Event<string, Ngap>, id: nat)
    requires Starting(s0) && Admissible(s0, es) && Enabled(After(s0, es), e) && id < |After(s0, es).waiters|
    ensures var s := After(s0, es); var w := s.waiters[id];
            Apply(s, e).outcomes == s.outcomes + [(id, TimedOut)] ==> NothingFor(s.frames, w.types, w.accepts)
  {
    OutcomesAreRight(s0, es, e);
    var s := After(s0, es);
    hide Apply, NothingFor, IsChoice, Without;
    if Apply(s, e).outcomes == s.outcomes + [(id, TimedOut)] {
      var o := Apply(s, e).outcomes;
      assert o[|s.outcomes|] == (id, TimedOut) && |o| == |s.outcomes| + 1;
      var n: nat :| n < |s.waiters| &&
        var w := s.waiters[n];
        || (o == s.outcomes + [(n, TimedOut)] && NothingFor(s.frames, w.types, w.accepts))
        || (exists p :: IsChoice(s.frames, w.types, w.accepts, p) && o == s.outcomes + [(n, Received(s.frames[p.key][p.index]))]);
      assert n == id;
    }
  }

  /** A message that is associated with a UE, and mixes none of these identifiers. */
  ghost predicate Addressed(us: set<UE>, vs: set<UE>, m: Ngap) {
    !NonUE(m) && forall u, v | u in us && v in vs :: !CrossLabelled(m, u, v)
  }

  /** A wait as the handlers make it: with the matcher of one of the identifiers the UE has in the course
      of the run. RAN IDs are reallocated and AMF IDs assigned between waits. */
  ghost predicate WaitsAs(b: Event<string, Ngap>, us: set<UE>)
    requires b.Begin?
  {
    forall m | b.accepts(m) :: exists u | u in us :: Matches(u, m)
  }

  /** What may be delivered: if a message is of a type that this UE and another client both ask for, that
      client is a UE and the message is addressed. Any other message may be delivered at any time. */
  ghost predicate Deliverable(es: seq<Event<string, Ngap>>, key: Ngap -> string, ids: seq<set<UE>>, id: nat, m: Ngap)
    requires id < |ids|
  {
    forall a, b | a in es && b in es && a.Begin? && b.Begin? && a.id == id && b.id != id && key(m) in a.types && key(m) in b.types ::
      b.id < |ids| && Addressed(ids[id], ids[b.id], m)
  }

  /** UEs that wait concurrently on one association, each with its own identifiers of the time: a UE whose
      identifiers are distinct from those of the others is served as by a mailbox of its own. Clients
      from |ids| on are no UEs and may ask for anything. */
  lemma UEsAreIsolated(ids: seq<set<UE>>, s0: State<string, Ngap>, es: seq<Event<string, Ngap>>, id: nat)
    requires id < |ids| && Starting(s0) && Admissible(s0, es)
    requires forall n, u, v | 0 <= n < |ids| && n != id && u in ids[id] && v in ids[n] :: Distinct(u, v)
    requires forall b | b in es && b.Begin? && b.id < |ids| :: WaitsAs(b, ids[b.id])
    requires forall d | d in es && d.Deliver? :: Deliverable(es, s0.key, ids, id, d.frame)
    ensures ServedAlone(s0, es, id, Wanted(es, s0.key, id))
  {
    forall d, a, b | d in es && a in es && b in es && d.Deliver? && a.Begin? && b.Begin? && a.id == id && b.id != id
      ensures !(CanTake(a, s0.key, d.frame) && CanTake(b, s0.key, d.frame))
    {
      if CanTake(a, s0.key, d.frame) && CanTake(b, s0.key, d.frame) {
        assert Deliverable(es, s0.key, ids, id, d.frame);
        assert WaitsAs(a, ids[id]) && WaitsAs(b, ids[b.id]);
        var u :| u in ids[id] && Matches(u, d.frame);
        var v :| v in ids[b.id] && Matches(v, d.frame);
        OverlapExactly(u, v, d.frame);
      }
    }
    ClientsAreIsolated(s0, es, id);
  }
}
