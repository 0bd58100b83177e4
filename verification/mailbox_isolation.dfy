/** Waiters that share one association but accept disjoint frames do not notice each other: the
    shared mailbox refines, for each of them, a private mailbox that holds only its own frames. */
module MailboxIsolation {
  import opened Words
  import opened Mailbox
  import opened MailboxProtocol

  // ---- The private mailbox: one client, one wait at a time, atomic steps ------------------------

  datatype Private<K(==), !T> = Private(key: T -> K, frames: Frames<K, T>, outcomes: seq<Outcome<T>>)

  datatype PrivateEvent<K, !T> =
    | Arrive(frame: T)
    | Serve(types: seq<K>, accepts: T -> bool)
    | GiveUp(types: seq<K>, accepts: T -> bool)

  ghost predicate Allowed<K, T>(m: Private<K, T>, e: PrivateEvent<K, T>) {
    match e
    case Arrive(_) => true
    case Serve(types, accepts) => Search(m.frames, types, accepts).At?
    case GiveUp(types, accepts) => NothingFor(m.frames, types, accepts)
  }

  ghost function Perform<K, T>(m: Private<K, T>, e: PrivateEvent<K, T>): Private<K, T>
    requires Allowed(m, e)
  {
    match e
    case Arrive(f) => m.(frames := Filed(m.frames, m.key(f), f))
    case Serve(types, accepts) =>
      var p := Search(m.frames, types, accepts);
      m.(frames := Without(m.frames, p.key, p.index), outcomes := m.outcomes + [Received(m.frames[p.key][p.index])])
    case GiveUp(_, _) => m.(outcomes := m.outcomes + [TimedOut])
  }

  ghost predicate IsPrivateRun<K, T>(m: Private<K, T>, es: seq<PrivateEvent<K, T>>, m': Private<K, T>)
    decreases |es|
  {
    if es == [] then m == m' else Allowed(m, es[0]) && IsPrivateRun(Perform(m, es[0]), es[1..], m')
  }

  // ---- One client's view of the shared mailbox --------------------------------------------------

  ghost function Filter<T>(q: seq<T>, mine: T -> bool): seq<T> {
    if q == [] then [] else (if mine(q[0]) then [q[0]] else []) + Filter(q[1..], mine)
  }

  ghost function View<K, T>(frames: Frames<K, T>, mine: T -> bool): Frames<K, T> {
    map k | k in frames && Filter(frames[k], mine) != [] :: Filter(frames[k], mine)
  }

  ghost function OutcomesOf<T>(outcomes: seq<(nat, Outcome<T>)>, id: nat): seq<Outcome<T>> {
    if outcomes == [] then []
    else
      var last := outcomes[|outcomes| - 1];
      OutcomesOf(outcomes[..|outcomes| - 1], id) + if last.0 == id then [last.1] else []
  }

  ghost function ViewOf<K, T>(s: State<K, T>, id: nat, mine: T -> bool): Private<K, T> {
    Private(s.key, View(s.frames, mine), OutcomesOf(s.outcomes, id))
  }

  /** What a step of the shared mailbox is for one client: a step of its private mailbox, or nothing. */
  ghost function Seen<K, T>(s: State<K, T>, e: Event<K, T>, id: nat, mine: T -> bool): seq<PrivateEvent<K, T>>
    requires Enabled(s, e)
  {
    match e
    case Deliver(f) => if mine(f) then [Arrive(f)] else []
    case ScanFrames(n) =>
      var w := s.waiters[n];
      if n == id && Search(s.frames, w.types, w.accepts).At? then [Serve(w.types, w.accepts)] else []
    case CheckContext(n) =>
      var w := s.waiters[n];
      if n == id && w.expired then [GiveUp(w.types, w.accepts)] else []
    case _ => []
  }

  ghost function SeenAll<K, T>(s: State<K, T>, es: seq<Event<K, T>>, id: nat, mine: T -> bool): seq<PrivateEvent<K, T>>
    requires Admissible(s, es)
    decreases |es|
  {
    if es == [] then [] else Seen(s, es[0], id, mine) + SeenAll(Apply(s, es[0]), es[1..], id, mine)
  }

  ghost function Arrivals<K, T>(es: seq<PrivateEvent<K, T>>): seq<T> {
    if es == [] then [] else (if es[0].Arrive? then [es[0].frame] else []) + Arrivals(es[1..])
  }

  // ---- Requests ----------------------------------------------------------------------------------

  /** What a wait asks for. */
  datatype Request<K, !T> = Request(types: seq<K>, accepts: T -> bool)

  /** The requests a client makes in the course of a run, in order. */
  ghost function Begun<K, T>(es: seq<Event<K, T>>, id: nat): seq<Request<K, T>> {
    if es == [] then []
    else (if es[0].Begin? && es[0].id == id then [Request(es[0].types, es[0].accepts)] else []) + Begun(es[1..], id)
  }

  /** The requests a private mailbox answers, in order. */
  ghost function Requests<K, T>(es: seq<PrivateEvent<K, T>>): seq<Request<K, T>> {
    if es == [] then []
    else (if es[0].Arrive? then [] else [Request(es[0].types, es[0].accepts)]) + Requests(es[1..])
  }

  /** The request a client is still waiting on. */
  ghost function Outstanding<K, T>(s: State<K, T>, id: nat): seq<Request<K, T>> {
    if id < |s.waiters| && Pending(s.waiters[id]) then [Request(s.waiters[id].types, s.waiters[id].accepts)] else []
  }

  lemma {:induction false} RequestsConcat<K, T>(a: seq<PrivateEvent<K, T>>, b: seq<PrivateEvent<K, T>>)
    ensures Requests(a + b) == Requests(a) + Requests(b)
  {
    if a == [] {
      assert a + b == b;
    } else {
      var head := if a[0].Arrive? then [] else [Request(a[0].types, a[0].accepts)];
      assert (a + b)[0] == a[0] && (a + b)[1..] == a[1..] + b;
      assert Requests(a + b) == head + Requests(a[1..] + b);
      assert Requests(a) == head + Requests(a[1..]);
      hide Requests;
      RequestsConcat(a[1..], b);
    }
  }

  lemma StepAnswers<K, T>(s: State<K, T>, e: Event<K, T>, id: nat, mine: T -> bool)
    requires Enabled(s, e)
    ensures var begun := if e.Begin? && e.id == id then [Request(e.types, e.accepts)] else [];
            Outstanding(s, id) + begun == Requests(Seen(s, e, id, mine)) + Outstanding(Apply(s, e), id)
  {
    hide Search, Without, Filed, Requests;
    var seen := Seen(s, e, id, mine);
    RequestsOfOne(seen);
  }

  lemma RequestsOfOne<K, T>(seen: seq<PrivateEvent<K, T>>)
    requires |seen| <= 1
    ensures Requests(seen) == if seen == [] || seen[0].Arrive? then [] else [Request(seen[0].types, seen[0].accepts)]
  {
    assert seen != [] ==> seen[1..] == [];
  }

  /** Every request is answered in turn: those a client has made are those its private mailbox has
      answered, followed by the one it still waits on. */
  lemma {:induction false} RequestsAreAnswered<K, T>(s: State<K, T>, es: seq<Event<K, T>>, id: nat, mine: T -> bool)
    requires Admissible(s, es)
    ensures Outstanding(s, id) + Begun(es, id) == Requests(SeenAll(s, es, id, mine)) + Outstanding(After(s, es), id)
    decreases |es|
  {
    if es != [] {
      var s1 := Apply(s, es[0]);
      var seen, rest := Seen(s, es[0], id, mine), SeenAll(s1, es[1..], id, mine);
      var begun := if es[0].Begin? && es[0].id == id then [Request(es[0].types, es[0].accepts)] else [];
      assert Begun(es, id) == begun + Begun(es[1..], id);
      assert SeenAll(s, es, id, mine) == seen + rest && After(s, es) == After(s1, es[1..]);
      hide Begun, Requests, Outstanding, Seen, SeenAll, Apply;
      StepAnswers(s, es[0], id, mine);
      RequestsAreAnswered(s1, es[1..], id, mine);
      RequestsConcat(seen, rest);
      Regrouped(Outstanding(s, id), begun, Begun(es[1..], id), Requests(seen), Outstanding(s1, id));
      Associative(Requests(seen), Requests(rest), Outstanding(After(s, es), id));
    }
  }

  lemma Regrouped<T>(a: seq<T>, b: seq<T>, c: seq<T>, d: seq<T>, e: seq<T>)
    requires a + b == d + e
    ensures a + (b + c) == d + (e + c)
  {
    assert a + (b + c) == (a + b) + c;
  }

  // ---- Filtering commutes with filing, searching and taking ------------------------------------

  lemma {:induction false} FilterConcat<T>(a: seq<T>, b: seq<T>, mine: T -> bool)
    ensures Filter(a + b, mine) == Filter(a, mine) + Filter(b, mine)
  {
    if a == [] {
      assert a + b == b;
    } else {
      FilterConcat(a[1..], b, mine);
      assert (a + b)[1..] == a[1..] + b;
      var head := if mine(a[0]) then [a[0]] else [];
      assert head + (Filter(a[1..], mine) + Filter(b, mine)) == (head + Filter(a[1..], mine)) + Filter(b, mine);
    }
  }

  lemma FilterSkips<T>(q: seq<T>, i: nat, mine: T -> bool)
    requires i < |q| && !mine(q[i])
    ensures Filter(Remove(q, i), mine) == Filter(q, mine)
  {
    var rest := q[i + 1..];
    var tail := [q[i]] + rest;
    assert tail[1..] == rest && Filter(tail, mine) == Filter(rest, mine);
    hide Filter;
    FilterConcat(q[..i], rest, mine);
    FilterConcat(q[..i], tail, mine);
    assert q[..i] + tail == q by { CutAt(q, i); }
  }

  lemma CutAt<T>(q: seq<T>, i: nat)
    requires i < |q|
    ensures q[..i] + ([q[i]] + q[i + 1..]) == q
  {
  }

  lemma {:induction false} FilterSelects<T>(q: seq<T>, mine: T -> bool)
    ensures forall f | f in Filter(q, mine) :: f in q
  {
    if q != [] { FilterSelects(q[1..], mine); }
  }

  /** The first accepted frame of a queue is the first accepted frame of its filtered queue. */
  lemma FirstOfFilter<T>(q: seq<T>, mine: T -> bool, accepts: T -> bool)
    requires forall j | 0 <= j < |q| && accepts(q[j]) :: mine(q[j])
    ensures var i := First(q, accepts); var v := Filter(q, mine); var j := First(v, accepts);
            && (i < |q| <==> j < |v|)
            && (i < |q| ==> v[j] == q[i] && Filter(Remove(q, i), mine) == Remove(v, j))
  {
    var i := First(q, accepts);
    FilterSelects(q[..i], mine);
    if i < |q| {
      FilterAround(q, i, mine);
      FirstPast(Filter(q[..i], mine), q[i], Filter(q[i + 1..], mine), accepts);
    } else {
      assert q[..i] == q;
    }
  }

  lemma FilterAround<T>(q: seq<T>, i: nat, mine: T -> bool)
    requires i < |q| && mine(q[i])
    ensures Filter(q, mine) == Filter(q[..i], mine) + ([q[i]] + Filter(q[i + 1..], mine))
    ensures Filter(Remove(q, i), mine) == Filter(q[..i], mine) + Filter(q[i + 1..], mine)
  {
    var tail := [q[i]] + q[i + 1..];
    assert q == q[..i] + tail && tail[1..] == q[i + 1..];
    FilterConcat(q[..i], tail, mine);
    FilterConcat(q[..i], q[i + 1..], mine);
  }

  lemma FirstPast<T>(a: seq<T>, f: T, b: seq<T>, accepts: T -> bool)
    requires accepts(f) && forall x | x in a :: !accepts(x)
    ensures First(a + ([f] + b), accepts) == |a|
    ensures Remove(a + ([f] + b), |a|) == a + b
  {
    var q := a + ([f] + b);
    forall j | 0 <= j < |a| ensures !accepts(q[j]) { assert q[j] == a[j]; }
    assert q[|a|] == f;
    assert q[..|a|] == a && q[|a| + 1..] == b;
  }

  lemma ViewBuffers<K, T>(frames: Frames<K, T>, mine: T -> bool, k: K)
    ensures Buffered(View(frames, mine), k) == Filter(Buffered(frames, k), mine)
  {
  }

  lemma ViewOfFiled<K(!new), T>(frames: Frames<K, T>, k: K, f: T, mine: T -> bool)
    ensures View(Filed(frames, k, f), mine) == if mine(f) then Filed(View(frames, mine), k, f) else View(frames, mine)
  {
    FilterConcat(Buffered(frames, k), [f], mine);
    var a := View(Filed(frames, k, f), mine);
    var b := if mine(f) then Filed(View(frames, mine), k, f) else View(frames, mine);
    forall t ensures Buffered(a, t) == Buffered(b, t) {
      ViewBuffers(frames, mine, t);
      ViewBuffers(Filed(frames, k, f), mine, t);
    }
    SameBuffers(a, b);
  }

  lemma ViewOfOthersTake<K(!new), T>(frames: Frames<K, T>, k: K, i: nat, mine: T -> bool)
    requires i < |Buffered(frames, k)| && !mine(frames[k][i])
    ensures View(Without(frames, k, i), mine) == View(frames, mine)
  {
    var a, b := View(Without(frames, k, i), mine), View(frames, mine);
    FilterSkips(frames[k], i, mine);
    forall t ensures Buffered(a, t) == Buffered(b, t) {
      ViewBuffers(frames, mine, t);
      ViewBuffers(Without(frames, k, i), mine, t);
    }
    SameBuffers(a, b);
  }

  ghost predicate Holds<K, T>(frames: Frames<K, T>, good: T -> bool) {
    forall k, j | k in frames && 0 <= j < |frames[k]| :: good(frames[k][j])
  }

  lemma FiledHolds<K, T>(frames: Frames<K, T>, k: K, f: T, good: T -> bool)
    requires Holds(frames, good) && good(f)
    ensures Holds(Filed(frames, k, f), good)
  {
  }

  lemma WithoutHolds<K, T>(frames: Frames<K, T>, k: K, i: nat, good: T -> bool)
    requires Holds(frames, good) && i < |Buffered(frames, k)|
    ensures Holds(Without(frames, k, i), good)
  {
  }

  ghost predicate AcceptsOwn<K, T>(frames: Frames<K, T>, mine: T -> bool, types: seq<K>, accepts: T -> bool) {
    forall k, j | k in types && 0 <= j < |Buffered(frames, k)| && accepts(frames[k][j]) :: mine(frames[k][j])
  }

  /** Searching the shared buffer and searching the view stop at the same frame. */
  lemma {:induction false} SearchOfView<K, T>(frames: Frames<K, T>, mine: T -> bool, types: seq<K>, accepts: T -> bool)
    requires AcceptsOwn(frames, mine, types, accepts)
    ensures var p := Search(frames, types, accepts); var v := Search(View(frames, mine), types, accepts);
            && (p.At? <==> v.At?)
            && (p.At? ==>
                  && p.key == v.key && p.key in types
                  && v.index == First(View(frames, mine)[p.key], accepts)
                  && p.index == First(frames[p.key], accepts))
  {
    if types != [] {
      ViewBuffers(frames, mine, types[0]);
      FirstOfFilter(Buffered(frames, types[0]), mine, accepts);
      SearchOfView(frames, mine, types[1..], accepts);
    }
  }

  lemma ViewOfOwnTake<K(!new), T>(frames: Frames<K, T>, mine: T -> bool, types: seq<K>, accepts: T -> bool)
    requires AcceptsOwn(frames, mine, types, accepts) && Search(frames, types, accepts).At?
    ensures var p := Search(frames, types, accepts); var v := Search(View(frames, mine), types, accepts);
            && v.At?
            && View(frames, mine)[v.key][v.index] == frames[p.key][p.index]
            && View(Without(frames, p.key, p.index), mine) == Without(View(frames, mine), v.key, v.index)
  {
    SearchOfView(frames, mine, types, accepts);
    var p := Search(frames, types, accepts);
    var v := Search(View(frames, mine), types, accepts);
    FirstOfFilter(frames[p.key], mine, accepts);
    ViewBuffers(frames, mine, p.key);
    var a, b := View(Without(frames, p.key, p.index), mine), Without(View(frames, mine), v.key, v.index);
    forall t ensures Buffered(a, t) == Buffered(b, t) {
      ViewBuffers(frames, mine, t);
      ViewBuffers(Without(frames, p.key, p.index), mine, t);
    }
    SameBuffers(a, b);
  }

  // ---- Refinement ------------------------------------------------------------------------------

  /** Of the frames of the run, those that can answer a request belong to the client when the request is
      the client's own, and do not otherwise. */
  ghost predicate OnlyOwn<K, T(!new)>(r: Request<K, T>, key: T -> K, own: bool, deliverable: T -> bool, mine: T -> bool) {
    forall f | deliverable(f) && key(f) in r.types && r.accepts(f) :: mine(f) <==> own
  }

  ghost predicate Separate<K, T(!new)>(e: Event<K, T>, key: T -> K, id: nat, deliverable: T -> bool, mine: T -> bool) {
    match e
    case Deliver(f) => deliverable(f)
    case Begin(n, types, accepts) => OnlyOwn(Request(types, accepts), key, n == id, deliverable, mine)
    case _ => true
  }

  ghost predicate Separated<K, T(!new)>(s: State<K, T>, id: nat, deliverable: T -> bool, mine: T -> bool) {
    && Holds(s.frames, deliverable)
    && forall n: nat | n < |s.waiters| && Pending(s.waiters[n]) ::
         OnlyOwn(Request(s.waiters[n].types, s.waiters[n].accepts), s.key, n == id, deliverable, mine)
  }

  lemma StepKeepsSeparated<K, T(!new)>(s: State<K, T>, e: Event<K, T>, id: nat, deliverable: T -> bool, mine: T -> bool)
    requires Separated(s, id, deliverable, mine) && Enabled(s, e) && Separate(e, s.key, id, deliverable, mine)
    ensures Separated(Apply(s, e), id, deliverable, mine)
  {
    hide Search, Without, Filed, OnlyOwn, Holds;
    match e
    case Deliver(f) => FiledHolds(s.frames, s.key(f), f, deliverable);
    case ScanFrames(n) =>
      var p := Search(s.frames, s.waiters[n].types, s.waiters[n].accepts);
      if p.At? { WithoutHolds(s.frames, p.key, p.index, deliverable); }
    case _ =>
  }

  lemma OutcomesAppend<T>(outcomes: seq<(nat, Outcome<T>)>, n: nat, o: Outcome<T>, id: nat)
    ensures OutcomesOf(outcomes + [(n, o)], id) == OutcomesOf(outcomes, id) + if n == id then [o] else []
  {
    assert (outcomes + [(n, o)])[..|outcomes|] == outcomes;
  }

  /** The frame the search finds is the client's exactly when the client searches. */
  lemma FoundIsOwn<K, T(!new)>(s: State<K, T>, n: nat, id: nat, deliverable: T -> bool, mine: T -> bool)
    requires Tidy(s) && Separated(s, id, deliverable, mine) && n < |s.waiters| && Pending(s.waiters[n])
    ensures var w := s.waiters[n]; var p := Search(s.frames, w.types, w.accepts);
            p.At? ==> (mine(s.frames[p.key][p.index]) <==> n == id)
    ensures n == id ==> AcceptsOwn(s.frames, mine, s.waiters[n].types, s.waiters[n].accepts)
  {
    var w := s.waiters[n];
    SearchIsChoice(s.frames, w.types, w.accepts);
    hide Search;
    assert OnlyOwn(Request(w.types, w.accepts), s.key, n == id, deliverable, mine);
  }

  lemma ScanTakes<K, T>(s: State<K, T>, n: nat)
    requires InPhase(s, n, Holding)
    requires Search(s.frames, s.waiters[n].types, s.waiters[n].accepts).At?
    ensures var p := Search(s.frames, s.waiters[n].types, s.waiters[n].accepts); var s' := Apply(s, ScanFrames(n));
            && s'.key == s.key && s'.frames == Without(s.frames, p.key, p.index)
            && s'.outcomes == s.outcomes + [(n, Received(s.frames[p.key][p.index]))]
  {
    hide Search, Without;
  }

  lemma OwnScanRefines<K(!new), T(!new)>(s: State<K, T>, id: nat, deliverable: T -> bool, mine: T -> bool)
    requires Tidy(s) && Separated(s, id, deliverable, mine) && InPhase(s, id, Holding)
    requires Search(s.frames, s.waiters[id].types, s.waiters[id].accepts).At?
    ensures var e := ScanFrames(id);
            IsPrivateRun(ViewOf(s, id, mine), Seen(s, e, id, mine), ViewOf(Apply(s, e), id, mine))
  {
    var w := s.waiters[id];
    var p := Search(s.frames, w.types, w.accepts);
    assert Seen(s, ScanFrames(id), id, mine) == [Serve(w.types, w.accepts)];
    FoundIsOwn(s, id, id, deliverable, mine);
    hide Search, Without, View, OutcomesOf, Separated, Tidy, AcceptsOwn, Seen, Apply, IsPrivateRun;
    ScanTakes(s, id);
    ViewOfOwnTake(s.frames, mine, w.types, w.accepts);
    OutcomesAppend(s.outcomes, id, Received(s.frames[p.key][p.index]), id);
    OneStepRun(ViewOf(s, id, mine), Serve(w.types, w.accepts), ViewOf(Apply(s, ScanFrames(id)), id, mine));
  }

  lemma OthersScanRefines<K(!new), T(!new)>(s: State<K, T>, n: nat, id: nat, deliverable: T -> bool, mine: T -> bool)
    requires Tidy(s) && Separated(s, id, deliverable, mine) && InPhase(s, n, Holding) && n != id
    requires Search(s.frames, s.waiters[n].types, s.waiters[n].accepts).At?
    ensures ViewOf(Apply(s, ScanFrames(n)), id, mine) == ViewOf(s, id, mine)
  {
    var w := s.waiters[n];
    var p := Search(s.frames, w.types, w.accepts);
    FoundIsOwn(s, n, id, deliverable, mine);
    hide Search, Without, View, OutcomesOf, Separated, Tidy, AcceptsOwn, Apply;
    ScanTakes(s, n);
    OutcomesAppend(s.outcomes, n, Received(s.frames[p.key][p.index]), id);
    ViewOfOthersTake(s.frames, p.key, p.index, mine);
  }

  lemma OneStepRun<K, T>(m: Private<K, T>, e: PrivateEvent<K, T>, m': Private<K, T>)
    requires Allowed(m, e) && Perform(m, e) == m'
    ensures IsPrivateRun(m, [e], m')
  {
  }

  lemma TimeoutRefines<K(!new), T(!new)>(s: State<K, T>, n: nat, id: nat, deliverable: T -> bool, mine: T -> bool)
    requires Tidy(s) && NothingMissed(s) && Separated(s, id, deliverable, mine)
    requires InPhase(s, n, Missed) && s.waiters[n].expired
    ensures var e := CheckContext(n);
            IsPrivateRun(ViewOf(s, id, mine), Seen(s, e, id, mine), ViewOf(Apply(s, e), id, mine))
  {
    var w := s.waiters[n];
    OutcomesAppend<T>(s.outcomes, n, TimedOut, id);
    if n == id {
      FoundIsOwn(s, n, id, deliverable, mine);
      SearchIsChoice(s.frames, w.types, w.accepts);
      SearchOfView(s.frames, mine, w.types, w.accepts);
      SearchIsChoice(View(s.frames, mine), w.types, w.accepts);
      hide Search, View, OutcomesOf, Separated, Tidy, NothingFor;
      OneStepRun(ViewOf(s, id, mine), GiveUp(w.types, w.accepts), ViewOf(Apply(s, CheckContext(n)), id, mine));
    }
  }

  /** Each step of the shared mailbox is, for the client considered, a step of its private mailbox or none. */
  lemma StepRefines<K(!new), T(!new)>(s: State<K, T>, e: Event<K, T>, id: nat, deliverable: T -> bool, mine: T -> bool)
    requires Inv(s) && Separated(s, id, deliverable, mine) && Enabled(s, e) && Separate(e, s.key, id, deliverable, mine)
    ensures IsPrivateRun(ViewOf(s, id, mine), Seen(s, e, id, mine), ViewOf(Apply(s, e), id, mine))
  {
    hide Search, Without, Filed, View, OutcomesOf, Separated, Tidy, NothingMissed, Conserved, LockHeld;
    if e.Deliver? {
      ViewOfFiled(s.frames, s.key(e.frame), e.frame, mine);
    } else if e.ScanFrames? && Search(s.frames, s.waiters[e.id].types, s.waiters[e.id].accepts).At? {
      if e.id == id {
        OwnScanRefines(s, id, deliverable, mine);
      } else {
        OthersScanRefines(s, e.id, id, deliverable, mine);
      }
    } else if e.CheckContext? && s.waiters[e.id].expired {
      TimeoutRefines(s, e.id, id, deliverable, mine);
    } else {
      assert Seen(s, e, id, mine) == [] && ViewOf(Apply(s, e), id, mine) == ViewOf(s, id, mine);
    }
  }

  lemma {:induction false} PrivateRunsConcat<K, T>(a: Private<K, T>, es: seq<PrivateEvent<K, T>>, b: Private<K, T>,
                                                   fs: seq<PrivateEvent<K, T>>, c: Private<K, T>)
    requires IsPrivateRun(a, es, b) && IsPrivateRun(b, fs, c)
    ensures IsPrivateRun(a, es + fs, c)
    decreases |es|
  {
    if es == [] {
      assert es + fs == fs;
    } else {
      assert (es + fs)[1..] == es[1..] + fs;
      PrivateRunsConcat(Perform(a, es[0]), es[1..], b, fs, c);
    }
  }

  lemma {:induction false} RunRefines<K(!new), T(!new)>(s: State<K, T>, es: seq<Event<K, T>>, id: nat,
                                                        deliverable: T -> bool, mine: T -> bool)
    requires Inv(s) && Separated(s, id, deliverable, mine) && Admissible(s, es)
    requires forall e | e in es :: Separate(e, s.key, id, deliverable, mine)
    ensures IsPrivateRun(ViewOf(s, id, mine), SeenAll(s, es, id, mine), ViewOf(After(s, es), id, mine))
    decreases |es|
  {
    if es != [] {
      hide ViewOf, Seen, Inv, Separated, Separate;
      var s1 := Apply(s, es[0]);
      StepKeepsInv(s, es[0]);
      StepKeepsSeparated(s, es[0], id, deliverable, mine);
      StepRefines(s, es[0], id, deliverable, mine);
      assert s1.key == s.key;
      RunRefines(s1, es[1..], id, deliverable, mine);
      PrivateRunsConcat(ViewOf(s, id, mine), Seen(s, es[0], id, mine), ViewOf(s1, id, mine),
                        SeenAll(s1, es[1..], id, mine), ViewOf(After(s, es), id, mine));
    }
  }

  lemma {:induction false} ArrivalsConcat<K, T>(a: seq<PrivateEvent<K, T>>, b: seq<PrivateEvent<K, T>>)
    ensures Arrivals(a + b) == Arrivals(a) + Arrivals(b)
  {
    if a == [] {
      assert a + b == b;
    } else {
      var head := if a[0].Arrive? then [a[0].frame] else [];
      assert (a + b)[0] == a[0] && (a + b)[1..] == a[1..] + b;
      assert Arrivals(a + b) == head + Arrivals(a[1..] + b);
      assert Arrivals(a) == head + Arrivals(a[1..]);
      hide Arrivals;
      ArrivalsConcat(a[1..], b);
    }
  }

  lemma StepArrivals<K, T>(s: State<K, T>, e: Event<K, T>, id: nat, mine: T -> bool)
    requires Enabled(s, e)
    ensures Filter(Apply(s, e).delivered, mine) == Filter(s.delivered, mine) + Arrivals(Seen(s, e, id, mine))
  {
    if e.Deliver? {
      FilterConcat(s.delivered, [e.frame], mine);
    } else {
      assert Apply(s, e).delivered == s.delivered && Arrivals(Seen(s, e, id, mine)) == [];
    }
  }

  lemma {:induction false} ArrivalsAreOwnDeliveries<K, T>(s: State<K, T>, es: seq<Event<K, T>>, id: nat, mine: T -> bool)
    requires Admissible(s, es)
    ensures Filter(After(s, es).delivered, mine) == Filter(s.delivered, mine) + Arrivals(SeenAll(s, es, id, mine))
    decreases |es|
  {
    if es != [] {
      var s1 := Apply(s, es[0]);
      StepArrivals(s, es[0], id, mine);
      ArrivalsAreOwnDeliveries(s1, es[1..], id, mine);
      ArrivalsConcat(Seen(s, es[0], id, mine), SeenAll(s1, es[1..], id, mine));
    }
  }

  /** Client `id`, whose frames are `mine`, is served as by a mailbox of its own: what it sees of the
      run is a run of a private mailbox that is fed exactly its own frames in their order of delivery,
      answers exactly its own requests in their order, up to one still open, and ends with its own
      outcomes, in order, and its own frames buffered. */
  ghost predicate ServedAlone<K, T>(s0: State<K, T>, es: seq<Event<K, T>>, id: nat, mine: T -> bool)
    requires Admissible(s0, es)
  {
    var s := After(s0, es);
    var run := SeenAll(s0, es, id, mine);
    && IsPrivateRun(Private(s0.key, map[], []), run, Private(s0.key, View(s.frames, mine), OutcomesOf(s.outcomes, id)))
    && Arrivals(run) == Filter(s.delivered, mine)
    && Begun(es, id) == Requests(run) + Outstanding(s, id)
  }

  /** Non-interference with one client, in every interleaving: if its requests can only take frames that
      are `mine` and the others' requests only frames that are not. */
  lemma ClientIsIsolated<K(!new), T(!new)>(s0: State<K, T>, es: seq<Event<K, T>>, id: nat,
                                           deliverable: T -> bool, mine: T -> bool)
    requires Starting(s0) && Admissible(s0, es)
    requires forall e | e in es :: Separate(e, s0.key, id, deliverable, mine)
    ensures ServedAlone(s0, es, id, mine)
  {
    InitInv(s0.key, s0.waiters);
    RunRefines(s0, es, id, deliverable, mine);
    ArrivalsAreOwnDeliveries(s0, es, id, mine);
    RequestsAreAnswered(s0, es, id, mine);
    KeyIsConstant(s0, es);
    assert ViewOf(s0, id, mine) == Private(s0.key, map[], []);
    assert Outstanding(s0, id) == [];
  }

  /** A wait that a frame could answer. */
  ghost predicate CanTake<K, T>(b: Event<K, T>, key: T -> K, f: T) {
    b.Begin? && key(f) in b.types && b.accepts(f)
  }

  /** The frames that could answer some request the client makes in the run. */
  ghost function Wanted<K, T(!new)>(es: seq<Event<K, T>>, key: T -> K, id: nat): T -> bool {
    f => exists b | b in es :: CanTake(b, key, f) && b.id == id
  }

  /** No delivered frame could answer a request of this client and one of another. */
  ghost predicate Uncontested<K, T>(es: seq<Event<K, T>>, key: T -> K, id: nat) {
    forall d, a, b | d in es && a in es && b in es && d.Deliver? && a.Begin? && b.Begin? && a.id == id && b.id != id ::
      !(CanTake(a, key, d.frame) && CanTake(b, key, d.frame))
  }

  /** Non-interference in terms of the run: whatever else happens on the association, it suffices that
      nobody else could take a frame the client wants for it to be served as by a mailbox of its own. */
  lemma ClientsAreIsolated<K(!new), T(!new)>(s0: State<K, T>, es: seq<Event<K, T>>, id: nat)
    requires Starting(s0) && Admissible(s0, es) && Uncontested(es, s0.key, id)
    ensures ServedAlone(s0, es, id, Wanted(es, s0.key, id))
  {
    var mine := Wanted(es, s0.key, id);
    var deliverable := (f: T) => Deliver(f) in es;
    forall e | e in es ensures Separate(e, s0.key, id, deliverable, mine) {
      if e.Begin? {
        forall f | deliverable(f) && s0.key(f) in e.types && e.accepts(f) ensures mine(f) <==> e.id == id {
          var d: Event<K, T> := Deliver(f);
          assert d in es && CanTake(e, s0.key, d.frame);
        }
      }
    }
    ClientIsIsolated(s0, es, id, deliverable, mine);
  }

  lemma {:induction false} KeyIsConstant<K, T>(s: State<K, T>, es: seq<Event<K, T>>)
    requires Admissible(s, es)
    ensures After(s, es).key == s.key
    decreases |es|
  {
    if es != [] { KeyIsConstant(Apply(s, es[0]), es[1..]); }
  }
}
