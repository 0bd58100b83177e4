/** Frames that are waited for by type alone (internal/transport/framed.go:140-142,
    internal/gtpu/transport.go:112-180) are handed out in their order of arrival. */
module MailboxOrder {
  import opened Words
  import opened Mailbox
  import opened MailboxProtocol
  import opened MailboxIsolation

  ghost function OfType<K, T>(key: T -> K, k: K): T -> bool {
    f => key(f) == k
  }

  // ---- All waiters together --------------------------------------------------------------------

  /** In a type's order of arrival, what was handed out comes before what is buffered. */
  ghost predicate InOrder<K, T>(s: State<K, T>, k: K) {
    Filter(Handed(s.outcomes), OfType(s.key, k)) + Buffered(s.frames, k) == Filter(s.delivered, OfType(s.key, k))
  }

  ghost predicate Undemanding<T(!new)>(accepts: T -> bool) {
    forall f :: accepts(f)
  }

  ghost predicate AllUndemanding<K, T(!new)>(s: State<K, T>) {
    forall id: nat | id < |s.waiters| && Pending(s.waiters[id]) :: Undemanding(s.waiters[id].accepts)
  }

  lemma FirstComesFirst<T>(q: seq<T>, accepts: T -> bool)
    requires forall f | f in q :: accepts(f)
    ensures First(q, accepts) == 0
  {
  }

  /** Without a matcher the search stops at the head of a queue. */
  lemma {:induction false} HeadIsFound<K, T(!new)>(frames: Frames<K, T>, types: seq<K>, accepts: T -> bool)
    requires Undemanding(accepts)
    ensures var p := Search(frames, types, accepts); p.At? ==> p.index == 0
  {
    if types != [] {
      FirstComesFirst(Buffered(frames, types[0]), accepts);
      HeadIsFound(frames, types[1..], accepts);
    }
  }

  lemma DeliveryKeepsOrder<K, T>(s: State<K, T>, f: T, k: K)
    requires InOrder(s, k) && s.lock.None?
    ensures InOrder(Apply(s, Deliver(f)), k)
  {
    var mine := OfType(s.key, k);
    FilterConcat(s.delivered, [f], mine);
    assert Filter([f], mine) == if s.key(f) == k then [f] else [];
  }

  lemma HeadIsTaken<K, T>(frames: Frames<K, T>, key: K, k: K)
    requires Buffered(frames, key) != []
    ensures var f := frames[key][0];
            Buffered(frames, k) == (if key == k then [f] else []) + Buffered(Without(frames, key, 0), k)
  {
    assert Remove(frames[key], 0) == frames[key][1..];
  }

  lemma HandingOutKeepsOrder<K, T>(s: State<K, T>, s': State<K, T>, key: K, k: K)
    requires InOrder(s, k) && Buffered(s.frames, key) != [] && s.key(s.frames[key][0]) == key
    requires s'.key == s.key && s'.delivered == s.delivered && s'.frames == Without(s.frames, key, 0)
    requires Handed(s'.outcomes) == Handed(s.outcomes) + [s.frames[key][0]]
    ensures InOrder(s', k)
  {
    hide Handed, Without;
    var f, mine := s.frames[key][0], OfType(s.key, k);
    var taken := if key == k then [f] else [];
    assert Filter([f], mine) == taken by { assert [f][1..] == []; }
    HeadIsTaken(s.frames, key, k);
    hide Filter, Buffered;
    FilterConcat(Handed(s.outcomes), [f], mine);
    Associative(Filter(Handed(s.outcomes), mine), taken, Buffered(s'.frames, k));
  }

  lemma TakingKeepsOrder<K, T(!new)>(s: State<K, T>, id: nat, k: K)
    requires Tidy(s) && AllUndemanding(s) && InOrder(s, k) && InPhase(s, id, Holding)
    requires Search(s.frames, s.waiters[id].types, s.waiters[id].accepts).At?
    ensures InOrder(Apply(s, ScanFrames(id)), k)
  {
    hide Search, Without, Handed, Filter, InOrder;
    var p := Search(s.frames, s.waiters[id].types, s.waiters[id].accepts);
    HeadIsFound(s.frames, s.waiters[id].types, s.waiters[id].accepts);
    var f := s.frames[p.key][0];
    assert f in s.frames[p.key];
    HandedAppends(s.outcomes, id, Received(f));
    HandingOutKeepsOrder(s, Apply(s, ScanFrames(id)), p.key, k);
  }

  lemma ExpiryKeepsOrder<K, T>(s: State<K, T>, id: nat, k: K)
    requires InOrder(s, k) && InPhase(s, id, Missed)
    ensures InOrder(Apply(s, CheckContext(id)), k)
  {
    HandedAppends<T>(s.outcomes, id, TimedOut);
    assert Handed(s.outcomes) + [] == Handed(s.outcomes);
  }

  lemma StepKeepsOrder<K, T(!new)>(s: State<K, T>, e: Event<K, T>, k: K)
    requires Tidy(s) && AllUndemanding(s) && InOrder(s, k) && Enabled(s, e)
    ensures InOrder(Apply(s, e), k)
  {
    hide Search, Without, Filed, Handed, Filter, Buffered;
    match e
    case Deliver(f) => DeliveryKeepsOrder(s, f, k);
    case ScanFrames(id) =>
      if Search(s.frames, s.waiters[id].types, s.waiters[id].accepts).At? { TakingKeepsOrder(s, id, k); }
    case CheckContext(id) => ExpiryKeepsOrder(s, id, k);
    case _ =>
  }

  lemma StepKeepsUndemanding<K, T(!new)>(s: State<K, T>, e: Event<K, T>)
    requires AllUndemanding(s) && Enabled(s, e)
    requires e.Begin? ==> Undemanding(e.accepts)
    ensures AllUndemanding(Apply(s, e))
  {
    hide Search, Without, Filed, Undemanding;
  }

  lemma {:induction false} RunKeepsOrder<K, T(!new)>(s: State<K, T>, es: seq<Event<K, T>>, k: K)
    requires Inv(s) && AllUndemanding(s) && InOrder(s, k) && Admissible(s, es)
    requires forall e | e in es && e.Begin? :: Undemanding(e.accepts)
    ensures InOrder(After(s, es), k)
    decreases |es|
  {
    if es != [] {
      StepKeepsInv(s, es[0]);
      StepKeepsUndemanding(s, es[0]);
      StepKeepsOrder(s, es[0], k);
      RunKeepsOrder(Apply(s, es[0]), es[1..], k);
    }
  }

  /** Order per type, in every interleaving of any number of waiters that ask by type alone: the frames
      of a type that were handed out, followed by those still buffered, are the delivered ones. */
  lemma TypesAreServedInOrder<K, T(!new)>(s0: State<K, T>, es: seq<Event<K, T>>, k: K)
    requires Starting(s0) && Admissible(s0, es)
    requires forall e | e in es && e.Begin? :: Undemanding(e.accepts)
    ensures var s := After(s0, es);
            Filter(Handed(s.outcomes), OfType(s0.key, k)) + Buffered(s.frames, k) == Filter(s.delivered, OfType(s0.key, k))
  {
    InitInv(s0.key, s0.waiters);
    KeyIsConstant(s0, es);
    RunKeepsOrder(s0, es, k);
  }

  // ---- One client ------------------------------------------------------------------------------

  ghost function ReceivedIn<T>(outcomes: seq<Outcome<T>>): seq<T> {
    if outcomes == [] then []
    else
      var last := outcomes[|outcomes| - 1];
      ReceivedIn(outcomes[..|outcomes| - 1]) + if last.Received? then [last.frame] else []
  }

  ghost predicate AsksFor<K, T(!new)>(r: Request<K, T>, k: K) {
    r.types == [k] && Undemanding(r.accepts)
  }

  lemma ReceivedAppends<T>(outcomes: seq<Outcome<T>>, o: Outcome<T>)
    ensures ReceivedIn(outcomes + [o]) == ReceivedIn(outcomes) + if o.Received? then [o.frame] else []
  {
    assert (outcomes + [o])[..|outcomes|] == outcomes;
  }

  lemma OnlyTypeIsFound<K, T(!new)>(frames: Frames<K, T>, k: K, accepts: T -> bool)
    requires Undemanding(accepts)
    ensures Search(frames, [k], accepts) == if Buffered(frames, k) == [] then Nowhere else At(k, 0)
  {
    FirstComesFirst(Buffered(frames, k), accepts);
    assert [k][1..] == [] && Search(frames, [], accepts) == Nowhere;
  }

  /** What a private mailbox has handed out, then what it still holds, of one type. */
  ghost function Line<K, T>(m: Private<K, T>, k: K): seq<T> {
    ReceivedIn(m.outcomes) + Buffered(m.frames, k)
  }

  lemma PerformKeepsOrder<K, T(!new)>(m: Private<K, T>, e: PrivateEvent<K, T>, k: K)
    requires Allowed(m, e)
    requires if e.Arrive? then m.key(e.frame) == k else AsksFor(Request(e.types, e.accepts), k)
    ensures Perform(m, e).key == m.key
    ensures Line(Perform(m, e), k) == Line(m, k) + if e.Arrive? then [e.frame] else []
  {
    hide Search, ReceivedIn, Without;
    match e
    case Serve(types, accepts) => ServingKeepsOrder(m, k, accepts);
    case GiveUp(_, _) => ReceivedAppends<T>(m.outcomes, TimedOut);
    case Arrive(f) => Associative(ReceivedIn(m.outcomes), Buffered(m.frames, k), [f]);
  }

  lemma ServingKeepsOrder<K, T(!new)>(m: Private<K, T>, k: K, accepts: T -> bool)
    requires Undemanding(accepts) && Allowed(m, Serve([k], accepts))
    ensures Line(Perform(m, Serve([k], accepts)), k) == Line(m, k)
  {
    OnlyTypeIsFound(m.frames, k, accepts);
    hide Search, ReceivedIn, Without, Undemanding;
    var f, m' := m.frames[k][0], Perform(m, Serve([k], accepts));
    assert m'.frames == Without(m.frames, k, 0);
    HeadIsTaken(m.frames, k, k);
    ReceivedAppends(m.outcomes, Received(f));
    hide Buffered;
    Associative(ReceivedIn(m.outcomes), [f], Buffered(m'.frames, k));
  }

  /** A private mailbox that holds one type, and is asked for it alone, is a queue. */
  lemma {:induction false} PrivateRunKeepsOrder<K, T(!new)>(m: Private<K, T>, run: seq<PrivateEvent<K, T>>,
                                                             m': Private<K, T>, k: K)
    requires IsPrivateRun(m, run, m')
    requires forall f | f in Arrivals(run) :: m.key(f) == k
    requires forall r | r in Requests(run) :: AsksFor(r, k)
    ensures Line(m', k) == Line(m, k) + Arrivals(run)
    decreases |run|
  {
    if run != [] {
      var e, rest := run[0], run[1..];
      var arrived := if e.Arrive? then [e.frame] else [];
      assert Arrivals(run) == arrived + Arrivals(rest);
      assert Requests(run) == (if e.Arrive? then [] else [Request(e.types, e.accepts)]) + Requests(rest);
      assert Allowed(m, e) && IsPrivateRun(Perform(m, e), rest, m');
      hide Perform, Allowed, Arrivals, Requests, AsksFor, Line, IsPrivateRun;
      assert e.Arrive? ==> e.frame in Arrivals(run);
      assert !e.Arrive? ==> Request(e.types, e.accepts) in Requests(run);
      PerformKeepsOrder(m, e, k);
      PrivateRunKeepsOrder(Perform(m, e), rest, m', k);
      Associative(Line(m, k), arrived, Arrivals(rest));
    }
  }

  lemma {:induction false} BegunByEvents<K, T>(es: seq<Event<K, T>>, id: nat, r: Request<K, T>)
    requires r in Begun(es, id)
    ensures exists e | e in es :: e.Begin? && e.id == id && r == Request(e.types, e.accepts)
  {
    if !(es[0].Begin? && es[0].id == id && r == Request(es[0].types, es[0].accepts)) {
      assert r in Begun(es[1..], id);
      BegunByEvents(es[1..], id, r);
    }
  }

  lemma {:induction false} FilterKeepsOwn<T>(q: seq<T>, mine: T -> bool, f: T)
    requires f in Filter(q, mine)
    ensures mine(f)
  {
    if f in Filter(q[1..], mine) { FilterKeepsOwn(q[1..], mine, f); }
  }

  lemma {:induction false} FilterKeepsAll<T>(q: seq<T>, mine: T -> bool)
    requires forall f | f in q :: mine(f)
    ensures Filter(q, mine) == q
  {
    if q != [] { FilterKeepsAll(q[1..], mine); }
  }

  lemma BufferedAreMine<K, T(!new)>(s0: State<K, T>, es: seq<Event<K, T>>, k: K)
    requires Starting(s0) && Admissible(s0, es)
    ensures var s := After(s0, es); Buffered(View(s.frames, OfType(s0.key, k)), k) == Buffered(s.frames, k)
  {
    InitInv(s0.key, s0.waiters);
    RunKeepsInv(s0, es);
    KeyIsConstant(s0, es);
    var s := After(s0, es);
    ViewBuffers(s.frames, OfType(s0.key, k), k);
    FilterKeepsAll(Buffered(s.frames, k), OfType(s0.key, k));
  }

  /** A client that is alone in asking for a type, and asks for nothing else, is served as by a mailbox of
      its own and in order: the frames handed to it, followed by those buffered, are those delivered.
      Nothing is asked of the other clients' requests for other types. */
  lemma SoleAskerIsServedInOrder<K(!new), T(!new)>(s0: State<K, T>, es: seq<Event<K, T>>, id: nat, k: K)
    requires Starting(s0) && Admissible(s0, es)
    requires forall e | e in es && e.Begin? ::
               if e.id == id then AsksFor(Request(e.types, e.accepts), k) else k !in e.types
    ensures ServedAlone(s0, es, id, OfType(s0.key, k))
    ensures var s := After(s0, es);
            ReceivedIn(OutcomesOf(s.outcomes, id)) + Buffered(s.frames, k) == Filter(s.delivered, OfType(s0.key, k))
  {
    var mine := OfType(s0.key, k);
    ClientIsIsolated(s0, es, id, _ => true, mine);
    var s := After(s0, es);
    var run := SeenAll(s0, es, id, mine);
    forall r | r in Requests(run) ensures AsksFor(r, k) {
      assert r in Begun(es, id);
      BegunByEvents(es, id, r);
    }
    forall f | f in Arrivals(run) ensures s0.key(f) == k { FilterKeepsOwn(s.delivered, mine, f); }
    PrivateRunIsAQueue(s0.key, run, View(s.frames, mine), OutcomesOf(s.outcomes, id), k);
    BufferedAreMine(s0, es, k);
  }

  lemma PrivateRunIsAQueue<K, T(!new)>(key: T -> K, run: seq<PrivateEvent<K, T>>, frames: Frames<K, T>,
                                       outcomes: seq<Outcome<T>>, k: K)
    requires IsPrivateRun(Private(key, map[], []), run, Private(key, frames, outcomes))
    requires forall f | f in Arrivals(run) :: key(f) == k
    requires forall r | r in Requests(run) :: AsksFor(r, k)
    ensures ReceivedIn(outcomes) + Buffered(frames, k) == Arrivals(run)
  {
    PrivateRunKeepsOrder(Private(key, map[], []), run, Private(key, frames, outcomes), k);
  }
}
