/** The UEs of one gNB, their RAN IDs and the TEIDs their sessions receive downlink traffic on
    (internal/store/gnb_context.go, internal/api/gnb_pdu_session_handlers.go:53-171,
    internal/api/gnb_nas_handlers.go:644-647). A UE is known by the number its text ID is made of. */
module DownlinkIsolation {
  import opened Words
  import opened GtpuMessages
  import opened Endpoints
  import opened Mailbox
  import opened MailboxProtocol
  import opened MailboxIsolation
  import opened MailboxOrder

  /** A UE's current RAN ID, its default session ID, and the downlink TEID of each stored session. */
  datatype UE = UE(ran: nat, defaultSession: byte, teids: map<byte, uint32>)

  type UEs = map<nat, UE>

  /** The TEID of a session: the RAN ID in the upper three octets, as far as they hold it, and the
      session ID in the lowest. */
  function TEID(ran: nat, session: byte): uint32 {
    (ran % 0x1_0000_0000 * 0x100) % 0x1_0000_0000 + session
  }

  /** The session an establishment request is for. */
  function SessionFor(ue: UE, override: Option<byte>): byte {
    var id := if override.Some? then override.value else ue.defaultSession;
    if id == 0 then 1 else id
  }

  class GNBContext {
    var ues: UEs
    var nextRanUeID: nat

    constructor ()
      ensures ues == map[] && nextRanUeID == 0
    {
      ues, nextRanUeID := map[], 0;
    }

    method AllocateRANUENGAPID() returns (id: nat)
      modifies this`nextRanUeID
      ensures id == nextRanUeID == old(nextRanUeID) + 1
    {
      nextRanUeID := nextRanUeID + 1;
      id := nextRanUeID;
    }

    /** A UE is named after the RAN ID it is created with. */
    method CreateUE(defaultSession: byte) returns (ueID: nat)
      modifies this
      ensures Stored() == old(Registered(Stored(), Create(defaultSession)))
      ensures ueID == nextRanUeID == old(nextRanUeID) + 1
      ensures ues == old(ues)[ueID := UE(ueID, defaultSession, map[])]
    {
      ueID := AllocateRANUENGAPID();
      ues := ues[ueID := UE(ueID, defaultSession, map[])];
    }

    method DeleteUE(ueID: nat) returns (found: bool)
      modifies this`ues
      ensures Stored() == old(Registered(Stored(), Delete(ueID))) && found == old(ueID in ues)
      ensures ueID !in ues && ues.Keys == old(ues.Keys) - {ueID} && forall id | id in ues :: ues[id] == old(ues)[id]
    {
      if ueID !in ues {
        assert ues - {ueID} == ues;
        return false;
      }
      ues := ues - {ueID};
      return true;
    }

    /** A service request over a new connection gets a new RAN ID. */
    method ServiceRequest(ueID: nat, existingConnection: bool)
      requires ueID in ues
      modifies this
      ensures Stored() == old(Registered(Stored(), Service(ueID, existingConnection)))
      ensures existingConnection ==> ues == old(ues) && nextRanUeID == old(nextRanUeID)
      ensures !existingConnection ==>
                && nextRanUeID == old(nextRanUeID) + 1
                && ues == old(ues)[ueID := UE(nextRanUeID, old(ues)[ueID].defaultSession, old(ues)[ueID].teids)]
    {
      if !existingConnection {
        var ran := AllocateRANUENGAPID();
        ues := ues[ueID := ues[ueID].(ran := ran)];
      }
    }

    /** The network has set up a session: its TEID is computed and stored. */
    method EstablishSession(ueID: nat, override: Option<byte>) returns (dlTeid: uint32)
      requires ueID in ues
      modifies this`ues
      ensures Stored() == old(Registered(Stored(), Establish(ueID, override)))
      ensures var ue := old(ues)[ueID];
              var session: byte := if override.Some? && override.value != 0 then override.value
                                   else if override.None? && ue.defaultSession != 0 then ue.defaultSession else 1;
              && dlTeid == 0x100 * (ue.ran % 0x100_0000) + session as int
              && ues == old(ues)[ueID := UE(ue.ran, if ue.defaultSession == 0 then session else ue.defaultSession,
                                            ue.teids[session := dlTeid])]
    {
      hide TEID;
      var ue := ues[ueID];
      var session := if override.Some? then override.value else ue.defaultSession;
      if session == 0 { session := 1; }
      if ue.defaultSession == 0 { ue := ue.(defaultSession := session); }
      dlTeid := TEID(ue.ran, session);
      TEIDValue(ue.ran, session);
      ues := ues[ueID := ue.(teids := ue.teids[session := dlTeid])];
    }

    ghost function Stored(): (nat, UEs)
      reads this
    {
      (nextRanUeID, ues)
    }
  }

  // ---- Runs ------------------------------------------------------------------------------------

  /** A RAN ID is also taken, for no stored UE, by a creation that is refused for its subscriber data and
      by a second connection that is only announced (internal/api/gnb_nas_handlers.go:160-174). */
  datatype Change =
    | TakeRANID
    | Create(defaultSession: byte)
    | Delete(ueID: nat)
    | Service(ueID: nat, existingConnection: bool)
    | Establish(ueID: nat, override: Option<byte>)

  /** Requests for unknown UEs are answered with an error and change nothing. */
  ghost function Registered(s: (nat, UEs), e: Change): (nat, UEs) {
    var (next, ues) := s;
    match e
    case TakeRANID => (next + 1, ues)
    case Create(session) => (next + 1, ues[next + 1 := UE(next + 1, session, map[])])
    case Delete(id) => (next, ues - {id})
    case Service(id, existing) =>
      if id !in ues || existing then s else (next + 1, ues[id := ues[id].(ran := next + 1)])
    case Establish(id, override) =>
      if id !in ues then s
      else
        var ue := ues[id];
        var session := SessionFor(ue, override);
        (next, ues[id := UE(ue.ran, if ue.defaultSession == 0 then session else ue.defaultSession,
                            ue.teids[session := TEID(ue.ran, session)])])
  }

  ghost function RegisteredAll(s: (nat, UEs), es: seq<Change>): (nat, UEs) {
    if es == [] then s else Registered(RegisteredAll(s, es[..|es| - 1]), es[|es| - 1])
  }

  ghost predicate HasSession(s: (nat, UEs), id: nat, session: byte) {
    id in s.1 && session in s.1[id].teids
  }

  /** The RAN ID under which a session was established last. */
  ghost function EstablishedUnder(es: seq<Change>, id: nat, session: byte): Option<nat> {
    if es == [] then None
    else
      var before, last := es[..|es| - 1], es[|es| - 1];
      var s := RegisteredAll((0, map[]), before);
      if last.Create? && id == s.0 + 1 then None
      else if last.Establish? && last.ueID == id && id in s.1 && SessionFor(s.1[id], last.override) == session
      then Some(s.1[id].ran)
      else EstablishedUnder(before, id, session)
  }

  /** A RAN ID was issued, to this UE. */
  ghost predicate IssuedTo(r: nat, id: nat, s: (nat, UEs), issued: map<nat, nat>) {
    1 <= r <= s.0 && r in issued && issued[r] == id
  }

  /** Every UE's RAN ID, and the RAN ID every session was established under, was issued to it. */
  ghost predicate Explained(s: (nat, UEs), es: seq<Change>, issued: map<nat, nat>) {
    && (forall r | r in issued :: r <= s.0)
    && (forall id | id in s.1 :: IssuedTo(s.1[id].ran, id, s, issued))
    && forall id, session | HasSession(s, id, session) :: SessionExplained(s, es, id, session, issued)
  }

  ghost predicate SessionExplained(s: (nat, UEs), es: seq<Change>, id: nat, session: byte, issued: map<nat, nat>)
    requires HasSession(s, id, session)
  {
    var r := EstablishedUnder(es, id, session);
    r.Some? && IssuedTo(r.value, id, s, issued) && s.1[id].teids[session] == TEID(r.value, session)
  }

  /** The issued RAN IDs after one more change. */
  ghost function Issued(s: (nat, UEs), e: Change, issued: map<nat, nat>): map<nat, nat> {
    match e
    case Create(_) => issued[s.0 + 1 := s.0 + 1]
    case Service(id, existing) => if id !in s.1 || existing then issued else issued[s.0 + 1 := id]
    case _ => issued
  }

  lemma StepIssues(s: (nat, UEs), e: Change, issued: map<nat, nat>)
    requires (forall r | r in issued :: r <= s.0) && forall id | id in s.1 :: IssuedTo(s.1[id].ran, id, s, issued)
    ensures var s', issued' := Registered(s, e), Issued(s, e, issued);
            && (forall r | r in issued' :: r <= s'.0)
            && (forall id | id in s'.1 :: IssuedTo(s'.1[id].ran, id, s', issued'))
            && (forall r, id | IssuedTo(r, id, s, issued) :: IssuedTo(r, id, s', issued'))
  {
    hide TEID;
  }

  lemma SessionStaysExplained(es: seq<Change>, id: nat, session: byte, issued: map<nat, nat>)
    requires es != []
    requires var s := RegisteredAll((0, map[]), es[..|es| - 1]);
             && Explained(s, es[..|es| - 1], issued)
             && HasSession(Registered(s, es[|es| - 1]), id, session)
    ensures var s := RegisteredAll((0, map[]), es[..|es| - 1]);
            SessionExplained(Registered(s, es[|es| - 1]), es, id, session, Issued(s, es[|es| - 1], issued))
  {
    var before, last := es[..|es| - 1], es[|es| - 1];
    var s := RegisteredAll((0, map[]), before);
    StepIssues(s, last, issued);
    hide TEID, Issued, RegisteredAll, IssuedTo;
    if id in s.1 { assert IssuedTo(s.1[id].ran, id, s, issued); }
    if HasSession(s, id, session) { assert SessionExplained(s, before, id, session, issued); }
  }

  lemma {:induction false} RunExplained(es: seq<Change>) returns (issued: map<nat, nat>)
    ensures Explained(RegisteredAll((0, map[]), es), es, issued)
  {
    if es == [] { return map[]; }
    var before, last := es[..|es| - 1], es[|es| - 1];
    var s := RegisteredAll((0, map[]), before);
    assert RegisteredAll((0, map[]), es) == Registered(s, last);
    hide RegisteredAll, Registered, Issued, SessionExplained, IssuedTo;
    var earlier := RunExplained(before);
    issued := Issued(s, last, earlier);
    StepIssues(s, last, earlier);
    forall id, session | HasSession(Registered(s, last), id, session)
      ensures SessionExplained(Registered(s, last), es, id, session, issued)
    {
      SessionStaysExplained(es, id, session, earlier);
    }
  }

  /** Two TEIDs are equal exactly for one session ID and RAN IDs that agree modulo 2^24. */
  lemma TEIDsCollide(r: nat, a: byte, q: nat, b: byte)
    ensures TEID(r, a) == TEID(q, b) <==> a == b && r % 0x100_0000 == q % 0x100_0000
  {
    TEIDValue(r, a);
    TEIDValue(q, b);
  }

  lemma TEIDValue(r: nat, a: byte)
    ensures TEID(r, a) == 0x100 * (r % 0x100_0000) + a
  {
    var w := r % 0x1_0000_0000;
    var h, l := w / 0x100_0000, w % 0x100_0000;
    assert w * 0x100 == 0x1_0000_0000 * h + 0x100 * l;
    var q := r / 0x1_0000_0000;
    assert r == 0x100_0000 * (0x100 * q + h) + l;
    assert r % 0x100_0000 == l;
  }

  /** Exactly when two sessions of a reachable state share their TEID: for equal session IDs
      established under RAN IDs that agree modulo 2^24. */
  lemma StoredTEIDsCollide(es: seq<Change>, u: nat, a: byte, v: nat, b: byte)
    requires var s := RegisteredAll((0, map[]), es); HasSession(s, u, a) && HasSession(s, v, b)
    ensures var r, q := EstablishedUnder(es, u, a), EstablishedUnder(es, v, b);
            var s := RegisteredAll((0, map[]), es);
            && r.Some? && q.Some?
            && (s.1[u].teids[a] == s.1[v].teids[b] <==> a == b && r.value % 0x100_0000 == q.value % 0x100_0000)
  {
    hide TEID, RegisteredAll, EstablishedUnder;
    var s := RegisteredAll((0, map[]), es);
    var issued := RunExplained(es);
    assert SessionExplained(s, es, u, a, issued) && SessionExplained(s, es, v, b, issued);
    TEIDsCollide(EstablishedUnder(es, u, a).value, a, EstablishedUnder(es, v, b).value, b);
  }

  /** Downlink isolation: on one gNB, in every reachable state and whatever RAN IDs service requests
      have reallocated, distinct sessions have distinct downlink TEIDs as long as no more than 2^24 RAN
      IDs have been allocated. */
  lemma TEIDsAreDistinct(es: seq<Change>, u: nat, a: byte, v: nat, b: byte)
    requires var s := RegisteredAll((0, map[]), es); s.0 <= 0x100_0000 && HasSession(s, u, a) && HasSession(s, v, b)
    ensures var s := RegisteredAll((0, map[]), es);
            s.1[u].teids[a] == s.1[v].teids[b] <==> u == v && a == b
  {
    hide TEID, RegisteredAll, EstablishedUnder;
    var s := RegisteredAll((0, map[]), es);
    var issued := RunExplained(es);
    assert SessionExplained(s, es, u, a, issued) && SessionExplained(s, es, v, b, issued);
    var r, q := EstablishedUnder(es, u, a).value, EstablishedUnder(es, v, b).value;
    TEIDsCollide(r, a, q, b);
    DistinctBelowWrap(r, q);
  }

  lemma DistinctBelowWrap(r: nat, q: nat)
    requires 1 <= r <= 0x100_0000 && 1 <= q <= 0x100_0000
    ensures r % 0x100_0000 == q % 0x100_0000 <==> r == q
  {
  }

  /** A first UE, 2^24 - 1 more RAN IDs, and a UE with RAN ID 2^24 + 1. */
  ghost function WrappingRun(session: byte): seq<Change> {
    [Create(0), Establish(1, Some(session))] + seq(0xff_ffff, _ => TakeRANID)
    + [Create(0), Establish(0x100_0001, Some(session))]
  }

  lemma {:induction false} TakingIDs(es: seq<Change>, n: nat)
    ensures var s := RegisteredAll((0, map[]), es);
            RegisteredAll((0, map[]), es + seq(n, _ => TakeRANID)) == (s.0 + n, s.1)
  {
    var more := es + seq(n, _ => TakeRANID);
    if n == 0 {
      assert more == es;
    } else {
      assert more[..|more| - 1] == es + seq(n - 1, _ => TakeRANID);
      TakingIDs(es, n - 1);
    }
  }

  lemma RegisteredAppends(es: seq<Change>, e: Change)
    ensures RegisteredAll((0, map[]), es + [e]) == Registered(RegisteredAll((0, map[]), es), e)
  {
    assert (es + [e])[..|es|] == es;
  }

  /** The bound is sharp. */
  lemma TEIDsWrap(session: byte)
    requires session != 0
    ensures var s := RegisteredAll((0, map[]), WrappingRun(session));
            && s.0 == 0x100_0001
            && HasSession(s, 1, session) && HasSession(s, 0x100_0001, session)
            && s.1[1].teids[session] == s.1[0x100_0001].teids[session]
  {
    hide RegisteredAll, TEID;
    var e1, e2, e3 := Create(0), Establish(1, Some(session)), Establish(0x100_0001, Some(session));
    RegisteredAppends([], e1);
    RegisteredAppends([e1], e2);
    assert RegisteredAll((0, map[]), []) == (0, map[]) by { NothingRegistered(); }
    assert [] + [e1] == [e1] && [e1] + [e2] == [e1, e2];
    var taken := [e1, e2] + seq(0xff_ffff, _ => TakeRANID);
    TakingIDs([e1, e2], 0xff_ffff);
    RegisteredAppends(taken, e1);
    RegisteredAppends(taken + [e1], e3);
    assert taken + [e1] + [e3] == WrappingRun(session);
    TEIDsCollide(1, session, 0x100_0001, session);
  }

  lemma NothingRegistered()
    ensures RegisteredAll((0, map[]), []) == (0, map[])
  {
  }

  // ---- Delivery --------------------------------------------------------------------------------

  type EndpointEvent = MailboxProtocol.Event<Channel, Msg>

  ghost function PacketsFor(teid: uint32): Msg -> bool {
    (m: Msg) => m.t == MSG_GPDU && m.teid == teid
  }

  /** A wait as WaitForDownlink makes it: for the queue of one TEID, without a matcher. */
  ghost predicate WaitsForDownlink(e: EndpointEvent, teid: uint32) {
    e.Begin? && AsksFor(Request(e.types, e.accepts), Downlink(teid))
  }

  /** A session that is alone in waiting for its TEID is served as by an endpoint of its own and in order:
      the packets handed to it, followed by those buffered for it, are the packets that arrived for its
      TEID. Others may wait for other TEIDs and for control messages as they like. */
  lemma SessionsAreServedApart(teid: uint32, s0: State<Channel, Msg>, es: seq<EndpointEvent>, i: nat)
    requires Starting(s0) && Admissible(s0, es)
    requires forall m :: s0.key(m) == ChannelOf(m)
    requires forall e | e in es && e.Begin? :: if e.id == i then WaitsForDownlink(e, teid) else Downlink(teid) !in e.types
    ensures ServedAlone(s0, es, i, OfType(s0.key, Downlink(teid)))
    ensures var s := MailboxProtocol.After(s0, es);
            ReceivedIn(OutcomesOf(s.outcomes, i)) + Buffered(s.frames, Downlink(teid))
            == Filter(s.delivered, PacketsFor(teid))
  {
    SoleAskerIsServedInOrder(s0, es, i, Downlink(teid));
    SameFilter(MailboxProtocol.After(s0, es).delivered, OfType(s0.key, Downlink(teid)), PacketsFor(teid));
  }

  lemma {:induction false} SameFilter<T>(q: seq<T>, a: T -> bool, b: T -> bool)
    requires forall f | f in q :: a(f) <==> b(f)
    ensures Filter(q, a) == Filter(q, b)
  {
    if q != [] { SameFilter(q[1..], a, b); }
  }

  /** The TEIDs stored for a list of sessions. */
  ghost function StoredTEIDs(s: (nat, UEs), sessions: seq<(nat, byte)>): (teids: seq<uint32>)
    requires forall i | 0 <= i < |sessions| :: HasSession(s, sessions[i].0, sessions[i].1)
  {
    seq(|sessions|, i requires 0 <= i < |sessions| && HasSession(s, sessions[i].0, sessions[i].1) =>
      s.1[sessions[i].0].teids[sessions[i].1])
  }

  /** The two together: whatever history of creations, deletions, service requests and establishments
      led to the stored sessions, and however the waits for them and any waits of other clients for other
      channels interleave afterwards, each session is served its own packets, all of them and in order. */
  lemma StoredSessionsAreServedApart(changes: seq<Change>, sessions: seq<(nat, byte)>,
                                     s0: State<Channel, Msg>, es: seq<EndpointEvent>, i: nat)
    requires var g := RegisteredAll((0, map[]), changes);
             && g.0 <= 0x100_0000
             && forall k | 0 <= k < |sessions| :: HasSession(g, sessions[k].0, sessions[k].1)
    requires forall a, b | 0 <= a < b < |sessions| :: sessions[a] != sessions[b]
    requires Starting(s0) && Admissible(s0, es) && i < |sessions|
    requires forall m :: s0.key(m) == ChannelOf(m)
    requires var teids := StoredTEIDs(RegisteredAll((0, map[]), changes), sessions);
             forall e | e in es && e.Begin? ::
               if e.id < |teids| then WaitsForDownlink(e, teids[e.id]) else Downlink(teids[i]) !in e.types
    ensures var teid := StoredTEIDs(RegisteredAll((0, map[]), changes), sessions)[i];
            var s := MailboxProtocol.After(s0, es);
            && ServedAlone(s0, es, i, OfType(s0.key, Downlink(teid)))
            && ReceivedIn(OutcomesOf(s.outcomes, i)) + Buffered(s.frames, Downlink(teid))
               == Filter(s.delivered, PacketsFor(teid))
  {
    hide RegisteredAll;
    var teids := StoredTEIDs(RegisteredAll((0, map[]), changes), sessions);
    forall a, b | 0 <= a < |teids| && 0 <= b < |teids| && a != b ensures teids[a] != teids[b] {
      var x, y := sessions[a], sessions[b];
      TEIDsAreDistinct(changes, x.0, x.1, y.0, y.1);
    }
    SessionsAreServedApart(teids[i], s0, es, i);
  }
}
