/** The receiver, the waiters and their expiry goroutines over one mutex and condition variable
    (internal/transport/framed.go:78-185), as a transition system over their interleavings. */
module MailboxProtocol {
  import opened Words
  import opened Mailbox

  /** Where a waiter stands. Holding, Missed and Parking are inside the critical section: before the
      scan, after a scan that found nothing, and after the context check, about to call cond.Wait. */
  datatype Phase = Idle | Ready | Holding | Missed | Parking | Parked

  /** One wait: what it asks for, whether its context has expired, and whether its expiry goroutine
      has already broadcast. */
  datatype Waiter<K, !T> = Waiter(phase: Phase, types: seq<K>, accepts: T -> bool, expired: bool, announced: bool)

  datatype Outcome<+T> = Received(frame: T) | TimedOut

  datatype State<K(==), !T> = State(
    key: T -> K,
    frames: Frames<K, T>,
    lock: Option<nat>,
    waiters: seq<Waiter<K, T>>,
    delivered: seq<T>,
    outcomes: seq<(nat, Outcome<T>)>)

  datatype Event<K, !T> =
    | Begin(id: nat, types: seq<K>, accepts: T -> bool)
    | Deliver(frame: T)
    | Acquire(id: nat)
    | ScanFrames(id: nat)
    | CheckContext(id: nat)
    | Park(id: nat)
    | Expire(id: nat)
    | Announce(id: nat)
    | StrayBroadcast

  ghost function Init<K, T>(key: T -> K, waiters: seq<Waiter<K, T>>): State<K, T> {
    State(key, map[], None, waiters, [], [])
  }

  ghost predicate InPhase<K, T>(s: State<K, T>, id: nat, phase: Phase) {
    id < |s.waiters| && s.waiters[id].phase == phase
  }

  ghost predicate Pending<K, T>(w: Waiter<K, T>) {
    w.phase != Idle
  }

  /** Expire needs no lock: a context expires at any moment of a wait. A goroutine that outlives its
      wait may still broadcast once more, which is StrayBroadcast. */
  ghost predicate Enabled<K, T>(s: State<K, T>, e: Event<K, T>) {
    match e
    case Begin(id, _, _) => InPhase(s, id, Idle)
    case Deliver(_) => s.lock == None
    case Acquire(id) => InPhase(s, id, Ready) && s.lock == None
    case ScanFrames(id) => InPhase(s, id, Holding)
    case CheckContext(id) => InPhase(s, id, Missed)
    case Park(id) => InPhase(s, id, Parking)
    case Expire(id) => id < |s.waiters| && Pending(s.waiters[id]) && !s.waiters[id].expired
    case Announce(id) =>
      id < |s.waiters| && Pending(s.waiters[id]) && s.waiters[id].expired && !s.waiters[id].announced && s.lock == None
    case StrayBroadcast => s.lock == None
  }

  ghost function Woken<K, T>(w: Waiter<K, T>): Waiter<K, T> {
    if w.phase == Parked then w.(phase := Ready) else w
  }

  /** cond.Broadcast: every parked waiter has to compete for the lock again. */
  ghost function Broadcast<K, T>(ws: seq<Waiter<K, T>>): (r: seq<Waiter<K, T>>)
    ensures |r| == |ws|
    ensures forall i | 0 <= i < |ws| :: r[i] == Woken(ws[i])
  {
    seq(|ws|, i requires 0 <= i < |ws| => Woken(ws[i]))
  }

  ghost function Moved<K, T>(s: State<K, T>, id: nat, phase: Phase): State<K, T>
    requires id < |s.waiters|
  {
    s.(waiters := s.waiters[id := s.waiters[id].(phase := phase)])
  }

  ghost function Returned<K, T>(s: State<K, T>, id: nat, outcome: Outcome<T>): State<K, T>
    requires id < |s.waiters|
  {
    Moved(s, id, Idle).(lock := None, outcomes := s.outcomes + [(id, outcome)])
  }

  ghost function Apply<K, T>(s: State<K, T>, e: Event<K, T>): State<K, T>
    requires Enabled(s, e)
  {
    match e
    case Begin(id, types, accepts) =>
      s.(waiters := s.waiters[id := Waiter(Ready, types, accepts, false, false)])
    case Deliver(f) =>
      s.(frames := Filed(s.frames, s.key(f), f), waiters := Broadcast(s.waiters), delivered := s.delivered + [f])
    case Acquire(id) => Moved(s, id, Holding).(lock := Some(id))
    case ScanFrames(id) =>
      (match Search(s.frames, s.waiters[id].types, s.waiters[id].accepts)
       case Nowhere => Moved(s, id, Missed)
       case At(k, i) => Returned(s, id, Received(s.frames[k][i])).(frames := Without(s.frames, k, i)))
    case CheckContext(id) =>
      if s.waiters[id].expired then Returned(s, id, TimedOut) else Moved(s, id, Parking)
    case Park(id) => Moved(s, id, Parked).(lock := None)
    case Expire(id) => s.(waiters := s.waiters[id := s.waiters[id].(expired := true)])
    case Announce(id) =>
      s.(waiters := Broadcast(s.waiters[id := s.waiters[id].(announced := true)]))
    case StrayBroadcast => s.(waiters := Broadcast(s.waiters))
  }

  ghost predicate Admissible<K, T>(s: State<K, T>, es: seq<Event<K, T>>)
    decreases |es|
  {
    es == [] || (Enabled(s, es[0]) && Admissible(Apply(s, es[0]), es[1..]))
  }

  ghost function After<K, T>(s: State<K, T>, es: seq<Event<K, T>>): State<K, T>
    requires Admissible(s, es)
    decreases |es|
  {
    if es == [] then s else After(Apply(s, es[0]), es[1..])
  }

  /** The frames handed to waiters, in the order they were handed out. */
  ghost function Handed<T>(outcomes: seq<(nat, Outcome<T>)>): seq<T> {
    if outcomes == [] then []
    else
      var last := outcomes[|outcomes| - 1].1;
      Handed(outcomes[..|outcomes| - 1]) + if last.Received? then [last.frame] else []
  }

  // ---- Invariant -------------------------------------------------------------------------------

  ghost predicate Tidy<K, T>(s: State<K, T>) {
    forall k | k in s.frames :: s.frames[k] != [] && forall f | f in s.frames[k] :: s.key(f) == k
  }

  ghost predicate InSection<K, T>(w: Waiter<K, T>) {
    w.phase == Holding || w.phase == Missed || w.phase == Parking
  }

  ghost predicate Looked<K, T>(w: Waiter<K, T>) {
    w.phase == Missed || w.phase == Parking || w.phase == Parked
  }

  ghost predicate LockHeld<K, T>(s: State<K, T>) {
    && (s.lock.Some? ==> s.lock.value < |s.waiters|)
    && forall id: nat | id < |s.waiters| ::
         InSection(s.waiters[id]) <==> s.lock == Some(id)
  }

  /** A waiter that has looked and not been woken since has nothing to find. */
  ghost predicate NothingMissed<K, T>(s: State<K, T>) {
    forall id: nat | id < |s.waiters| && Looked(s.waiters[id]) ::
      NothingFor(s.frames, s.waiters[id].types, s.waiters[id].accepts)
  }

  /** The broadcast that an expired context owes a waiter on its way to sleep is still to come. */
  ghost predicate ExpiryOwed<K, T>(s: State<K, T>) {
    forall id: nat | id < |s.waiters| ::
      && (s.waiters[id].announced ==> s.waiters[id].expired)
      && (s.waiters[id].phase == Parking || s.waiters[id].phase == Parked ==> !s.waiters[id].announced)
  }

  /** The delivered copies of `f` are those handed out together with those buffered under its type. */
  ghost predicate Accounted<K, T>(s: State<K, T>, f: T) {
    multiset(s.delivered)[f] == multiset(Handed(s.outcomes))[f] + multiset(Buffered(s.frames, s.key(f)))[f]
  }

  ghost predicate Conserved<K, T(!new)>(s: State<K, T>) {
    forall f :: Accounted(s, f)
  }

  ghost predicate Inv<K, T(!new)>(s: State<K, T>) {
    Tidy(s) && LockHeld(s) && NothingMissed(s) && ExpiryOwed(s) && Conserved(s)
  }

  lemma NothingAfterRemoval<K, T>(frames: Frames<K, T>, k: K, i: nat, types: seq<K>, accepts: T -> bool)
    requires i < |Buffered(frames, k)|
    requires NothingFor(frames, types, accepts)
    ensures NothingFor(Without(frames, k, i), types, accepts)
  {
    var after := Without(frames, k, i);
    forall t, j | t in types && 0 <= j < |Buffered(after, t)| ensures !accepts(Buffered(after, t)[j]) {
      var j' := if t == k && i <= j then j + 1 else j;
      assert Buffered(after, t)[j] == Buffered(frames, t)[j'];
    }
  }

  lemma HandedAppends<T>(outcomes: seq<(nat, Outcome<T>)>, id: nat, o: Outcome<T>)
    ensures Handed(outcomes + [(id, o)]) == Handed(outcomes) + if o.Received? then [o.frame] else []
  {
    assert (outcomes + [(id, o)])[..|outcomes|] == outcomes;
  }

  lemma RemovalCounts<T>(q: seq<T>, i: nat)
    requires i < |q|
    ensures multiset(q) == multiset(Remove(q, i)) + multiset{q[i]}
  {
    assert q == q[..i] + [q[i]] + q[i + 1..];
  }

  lemma HandingOutConserves<K, T(!new)>(s: State<K, T>, s': State<K, T>, k: K, i: nat)
    requires Conserved(s) && Tidy(s) && i < |Buffered(s.frames, k)|
    requires s'.key == s.key && s'.delivered == s.delivered && s'.frames == Without(s.frames, k, i)
    requires Handed(s'.outcomes) == Handed(s.outcomes) + [s.frames[k][i]]
    ensures Conserved(s')
  {
    var q := s.frames[k];
    RemovalCounts(q, i);
    assert Buffered(s'.frames, k) == Remove(q, i);
    assert s.key(q[i]) == k;
    forall g ensures Accounted(s', g) {
      assert Accounted(s, g);
      assert s.key(g) != k ==> Buffered(s'.frames, s.key(g)) == Buffered(s.frames, s.key(g));
      assert multiset(Handed(s'.outcomes))[g] == multiset(Handed(s.outcomes))[g] + multiset{q[i]}[g];
    }
  }

  lemma StepKeepsWaiters<K, T>(s: State<K, T>, e: Event<K, T>)
    requires LockHeld(s) && ExpiryOwed(s) && Enabled(s, e)
    ensures LockHeld(Apply(s, e)) && ExpiryOwed(Apply(s, e))
  {
    hide Search, Without, Filed;
  }

  lemma StepKeepsSearches<K, T>(s: State<K, T>, e: Event<K, T>)
    requires LockHeld(s) && NothingMissed(s) && Enabled(s, e)
    ensures NothingMissed(Apply(s, e))
  {
    hide Search, Without, NothingFor, Filed;
    var s' := Apply(s, e);
    forall n: nat | n < |s'.waiters| && Looked(s'.waiters[n])
      ensures NothingFor(s'.frames, s'.waiters[n].types, s'.waiters[n].accepts)
    {
      var w := s.waiters[n];
      if e.ScanFrames? {
        var h := s.waiters[e.id];
        var p := Search(s.frames, h.types, h.accepts);
        if p.At? {
          NothingAfterRemoval(s.frames, p.key, p.index, w.types, w.accepts);
        } else {
          SearchIsChoice(s.frames, h.types, h.accepts);
        }
      } else {
        assert Looked(w) && s'.frames == s.frames;
      }
    }
  }

  lemma SameFramesConserve<K, T(!new)>(s: State<K, T>, s': State<K, T>)
    requires Conserved(s)
    requires s'.key == s.key && s'.frames == s.frames && s'.delivered == s.delivered
    requires Handed(s'.outcomes) == Handed(s.outcomes)
    ensures Conserved(s')
  {
    forall g ensures Accounted(s', g) {
      assert Accounted(s, g);
    }
  }

  lemma DeliveryConserves<K, T(!new)>(s: State<K, T>, f: T)
    requires Conserved(s) && s.lock == None
    ensures Conserved(Apply(s, Deliver(f)))
  {
    forall g ensures Accounted(Apply(s, Deliver(f)), g) {
      assert Accounted(s, g);
      assert multiset(s.delivered + [f])[g] == multiset(s.delivered)[g] + multiset([f])[g];
    }
  }

  lemma StepKeepsFrames<K, T(!new)>(s: State<K, T>, e: Event<K, T>)
    requires Tidy(s) && Conserved(s) && Enabled(s, e)
    ensures Tidy(Apply(s, e)) && Conserved(Apply(s, e))
  {
    hide Search, Without, Filed, Handed, Conserved;
    match e
    case Deliver(f) =>
      FilingStaysTidy(s, f);
      DeliveryConserves(s, f);
    case ScanFrames(id) => ScanKeepsFrames(s, id);
    case CheckContext(id) =>
      HandedAppends<T>(s.outcomes, id, TimedOut);
      SameFramesConserve(s, Apply(s, e));
    case _ => SameFramesConserve(s, Apply(s, e));
  }

  lemma FilingStaysTidy<K, T>(s: State<K, T>, f: T)
    requires Tidy(s) && s.lock == None
    ensures Tidy(Apply(s, Deliver(f)))
  {
  }

  lemma ScanKeepsFrames<K, T(!new)>(s: State<K, T>, id: nat)
    requires Tidy(s) && Conserved(s) && InPhase(s, id, Holding)
    ensures Tidy(Apply(s, ScanFrames(id))) && Conserved(Apply(s, ScanFrames(id)))
  {
    hide Search, Handed, Conserved;
    var s' := Apply(s, ScanFrames(id));
    var p := Search(s.frames, s.waiters[id].types, s.waiters[id].accepts);
    if p.At? {
      HandedAppends(s.outcomes, id, Received(s.frames[p.key][p.index]));
      HandingOutConserves(s, s', p.key, p.index);
    } else {
      SameFramesConserve(s, s');
    }
  }

  /** Every step keeps the invariant. */
  lemma StepKeepsInv<K, T(!new)>(s: State<K, T>, e: Event<K, T>)
    requires Inv(s) && Enabled(s, e)
    ensures Inv(Apply(s, e))
  {
    StepKeepsWaiters(s, e);
    StepKeepsSearches(s, e);
    StepKeepsFrames(s, e);
  }

  lemma {:induction false} RunKeepsInv<K, T(!new)>(s: State<K, T>, es: seq<Event<K, T>>)
    requires Inv(s) && Admissible(s, es)
    ensures Inv(After(s, es))
    decreases |es|
  {
    if es != [] {
      StepKeepsInv(s, es[0]);
      RunKeepsInv(Apply(s, es[0]), es[1..]);
    }
  }

  lemma InitInv<K, T(!new)>(key: T -> K, waiters: seq<Waiter<K, T>>)
    requires forall w | w in waiters :: w.phase == Idle && !w.announced
    ensures Inv(Init(key, waiters))
  {
  }

  // ---- Main results ----------------------------------------------------------------------------

  /** The initial states: an empty buffer and no wait under way. */
  ghost predicate Starting<K, T>(s: State<K, T>) {
    && s == Init(s.key, s.waiters)
    && forall w | w in s.waiters :: w.phase == Idle && !w.announced
  }

  /** No lost wake-up, in every interleaving: a parked waiter has nothing to find in the buffer, and
      if its context has expired then its goroutine's broadcast is still to come. */
  lemma NoLostWakeup<K, T(!new)>(s0: State<K, T>, es: seq<Event<K, T>>, id: nat)
    requires Starting(s0) && Admissible(s0, es)
    requires InPhase(After(s0, es), id, Parked)
    ensures var s := After(s0, es); var w := s.waiters[id];
            && NothingFor(s.frames, w.types, w.accepts)
            && (w.expired ==> !w.announced)
  {
    InitInv(s0.key, s0.waiters);
    RunKeepsInv(s0, es);
  }

  /** Exactly-once delivery, in every interleaving: counted with multiplicity, the delivered frames
      are those handed out together with those still buffered under their own type. */
  lemma FramesAreConserved<K, T(!new)>(s0: State<K, T>, es: seq<Event<K, T>>, f: T)
    requires Starting(s0) && Admissible(s0, es)
    ensures var s := After(s0, es);
            multiset(s.delivered)[f] == multiset(Handed(s.outcomes))[f] + multiset(Buffered(s.frames, s.key(f)))[f]
  {
    InitInv(s0.key, s0.waiters);
    RunKeepsInv(s0, es);
    assert Accounted(After(s0, es), f);
  }

  /** The next outcome is the right one, in every interleaving: a returned frame is the earliest
      accepted frame of the first listed type that has one, the other frames keep their places, and
      a timeout is reported only for an expired context with no requested frame buffered. */
  lemma OutcomesAreRight<K, T(!new)>(s0: State<K, T>, es: seq<Event<K, T>>, e: Event<K, T>)
    requires Starting(s0) && Admissible(s0, es) && Enabled(After(s0, es), e)
    ensures var s := After(s0, es);
            var s' := Apply(s, e);
            || s'.outcomes == s.outcomes
            || exists id: nat | id < |s.waiters| ::
                 var w := s.waiters[id];
                 || (&& s'.outcomes == s.outcomes + [(id, TimedOut)]
                     && s'.frames == s.frames
                     && w.expired && NothingFor(s.frames, w.types, w.accepts))
                 || (exists p ::
                       && IsChoice(s.frames, w.types, w.accepts, p)
                       && s'.outcomes == s.outcomes + [(id, Received(s.frames[p.key][p.index]))]
                       && s'.frames == Without(s.frames, p.key, p.index))
  {
    InitInv(s0.key, s0.waiters);
    RunKeepsInv(s0, es);
    var s := After(s0, es);
    match e
    case ScanFrames(id) => SearchIsChoice(s.frames, s.waiters[id].types, s.waiters[id].accepts);
    case _ =>
  }

  /** A client's context has expired since its last request. */
  ghost predicate HasExpired<K, T>(es: seq<Event<K, T>>, id: nat) {
    es != [] &&
    var last := es[|es| - 1];
    if last.Begin? && last.id == id then false
    else if last.Expire? && last.id == id then true
    else HasExpired(es[..|es| - 1], id)
  }

  lemma {:induction false} AfterLast<K, T>(s: State<K, T>, es: seq<Event<K, T>>, e: Event<K, T>)
    requires Admissible(s, es + [e])
    ensures Admissible(s, es) && Enabled(After(s, es), e) && After(s, es + [e]) == Apply(After(s, es), e)
    decreases |es|
  {
    hide Apply, Enabled;
    if es == [] {
      assert (es + [e])[1..] == [];
    } else {
      assert (es + [e])[1..] == es[1..] + [e];
      AfterLast(Apply(s, es[0]), es[1..], e);
    }
  }

  lemma StepExpires<K, T>(s: State<K, T>, e: Event<K, T>, id: nat)
    requires Enabled(s, e) && id < |Apply(s, e).waiters| && Pending(Apply(s, e).waiters[id])
    ensures id < |s.waiters|
    ensures if e.Begin? && e.id == id then !Apply(s, e).waiters[id].expired
            else if e.Expire? && e.id == id then Apply(s, e).waiters[id].expired
            else Pending(s.waiters[id]) && Apply(s, e).waiters[id].expired == s.waiters[id].expired
  {
    hide Search, Without, Filed;
  }

  /** Contexts expire by expiring only: a pending wait is taken for expired exactly if its context has
      expired since the wait began. With OutcomesAreRight, no wait times out before that. */
  lemma {:induction false} ExpiryIsReal<K, T>(s0: State<K, T>, es: seq<Event<K, T>>, id: nat)
    requires Starting(s0) && Admissible(s0, es)
    requires id < |After(s0, es).waiters| && Pending(After(s0, es).waiters[id])
    ensures After(s0, es).waiters[id].expired <==> HasExpired(es, id)
    decreases |es|
  {
    if es != [] {
      var before, e := es[..|es| - 1], es[|es| - 1];
      assert es == before + [e];
      AfterLast(s0, before, e);
      StepExpires(After(s0, before), e, id);
      hide Apply, Enabled;
      if !(e.Begin? && e.id == id) && !(e.Expire? && e.id == id) { ExpiryIsReal(s0, before, id); }
    }
  }

  // ---- Progress --------------------------------------------------------------------------------

  /** The steps the waiters and the expiry goroutines take by themselves. */
  ghost predicate Internal<K, T>(e: Event<K, T>) {
    e.Acquire? || e.ScanFrames? || e.CheckContext? || e.Park? || e.Announce?
  }

  ghost predicate AtRest<K, T>(s: State<K, T>) {
    forall id: nat | id < |s.waiters| ::
      && !Enabled(s, Acquire(id)) && !Enabled(s, ScanFrames(id)) && !Enabled(s, CheckContext(id))
      && !Enabled(s, Park(id)) && !Enabled(s, Announce(id))
  }

  /** When nothing is left to run, nobody who could be served or should be timed out is waiting. */
  lemma RestIsFair<K, T(!new)>(s0: State<K, T>, es: seq<Event<K, T>>, id: nat)
    requires Starting(s0) && Admissible(s0, es) && AtRest(After(s0, es))
    requires id < |After(s0, es).waiters| && Pending(After(s0, es).waiters[id])
    ensures var s := After(s0, es); var w := s.waiters[id];
            w.phase == Parked && !w.expired && NothingFor(s.frames, w.types, w.accepts)
  {
    InitInv(s0.key, s0.waiters);
    RunKeepsInv(s0, es);
    var s := After(s0, es);
    var holder := if s.lock.Some? then s.lock.value else id;
    assert !Enabled(s, ScanFrames(holder)) && !Enabled(s, CheckContext(holder)) && !Enabled(s, Park(holder));
    assert !Enabled(s, Acquire(id)) && !Enabled(s, Announce(id));
  }

  /** The work left for one waiter; an expiry still to be announced may wake all `n` of them. */
  ghost function Work<K, T>(w: Waiter<K, T>, n: nat): nat {
    (match w.phase case Idle => 0 case Ready => 5 case Holding => 4 case Missed => 3 case Parking => 2 case Parked => 1)
    + if Pending(w) && !w.announced then 4 * n + 1 else 0
  }

  ghost function WorkLeft<K, T>(ws: seq<Waiter<K, T>>, n: nat): nat {
    if ws == [] then 0 else Work(ws[0], n) + WorkLeft(ws[1..], n)
  }

  lemma {:induction false} WorkAfterUpdate<K, T>(ws: seq<Waiter<K, T>>, i: nat, w: Waiter<K, T>, n: nat)
    requires i < |ws|
    ensures WorkLeft(ws[i := w], n) == WorkLeft(ws, n) - Work(ws[i], n) + Work(w, n)
  {
    if i == 0 {
      assert ws[0 := w][1..] == ws[1..];
    } else {
      WorkAfterUpdate(ws[1..], i - 1, w, n);
      assert ws[i := w][1..] == ws[1..][i - 1 := w];
    }
  }

  lemma {:induction false} WorkAfterBroadcast<K, T>(ws: seq<Waiter<K, T>>, n: nat)
    ensures WorkLeft(Broadcast(ws), n) <= WorkLeft(ws, n) + 4 * |ws|
  {
    if ws != [] {
      WorkAfterBroadcast(ws[1..], n);
      assert Broadcast(ws)[1..] == Broadcast(ws[1..]);
    }
  }

  lemma InternalStepWorks<K, T>(s: State<K, T>, e: Event<K, T>)
    requires Internal(e) && Enabled(s, e)
    ensures WorkLeft(Apply(s, e).waiters, |s.waiters|) < WorkLeft(s.waiters, |s.waiters|)
    ensures |Apply(s, e).waiters| == |s.waiters|
  {
    hide Search, Without, WorkLeft;
    var n := |s.waiters|;
    var w := s.waiters[e.id];
    if e.Announce? {
      WorkAfterUpdate(s.waiters, e.id, w.(announced := true), n);
      WorkAfterBroadcast(s.waiters[e.id := w.(announced := true)], n);
    } else {
      WorkAfterUpdate(s.waiters, e.id, Apply(s, e).waiters[e.id], n);
    }
  }

  /** Without new frames, waits or expiries the waiters come to rest: with RestIsFair, every wait
      that can be served or has expired is answered within WorkLeft steps, in every scheduling. */
  lemma {:induction false} InternalRunsEnd<K, T>(s: State<K, T>, es: seq<Event<K, T>>)
    requires Admissible(s, es) && forall e | e in es :: Internal(e)
    ensures |es| <= WorkLeft(s.waiters, |s.waiters|)
    decreases |es|
  {
    if es != [] {
      InternalStepWorks(s, es[0]);
      InternalRunsEnd(Apply(s, es[0]), es[1..]);
    }
  }
}
