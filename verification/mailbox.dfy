/** The buffer of received frames (internal/transport/framed.go): one queue of frames per message
    type, appended to by the receiver and searched by the waiters. */
module Mailbox {
  import opened Words

  type Frames<K(==), T> = map<K, seq<T>>

  function Buffered<K, T>(frames: Frames<K, T>, k: K): seq<T> {
    if k in frames then frames[k] else []
  }

  /** The buffer after the receiver files a frame. */
  function Filed<K, T>(frames: Frames<K, T>, k: K, frame: T): Frames<K, T> {
    frames[k := Buffered(frames, k) + [frame]]
  }

  function Remove<T>(q: seq<T>, i: nat): seq<T>
    requires i < |q|
  {
    q[..i] + q[i + 1..]
  }

  /** The buffer without the frame at index i of queue k; an emptied queue loses its entry. */
  function Without<K, T>(frames: Frames<K, T>, k: K, i: nat): Frames<K, T>
    requires i < |Buffered(frames, k)|
  {
    var rest := Remove(frames[k], i);
    if rest == [] then frames - {k} else frames[k := rest]
  }

  /** The index of the first accepted frame of a queue, or the length of the queue. */
  function First<T>(q: seq<T>, accepts: T -> bool): (i: nat)
    ensures i <= |q|
    ensures forall j | 0 <= j < i :: !accepts(q[j])
    ensures i < |q| ==> accepts(q[i])
  {
    if q == [] || accepts(q[0]) then 0 else 1 + First(q[1..], accepts)
  }

  datatype Place<+K> = Nowhere | At(key: K, index: nat)

  /** No frame of the listed types is accepted. */
  ghost predicate NothingFor<K, T>(frames: Frames<K, T>, types: seq<K>, accepts: T -> bool) {
    forall t, j | t in types && 0 <= j < |Buffered(frames, t)| :: !accepts(Buffered(frames, t)[j])
  }

  /** The frame at `p` is the one a selective receive must return: no type listed before its type
      has an accepted frame, and it is the earliest accepted frame of its own type. */
  ghost predicate IsChoice<K, T>(frames: Frames<K, T>, types: seq<K>, accepts: T -> bool, p: Place<K>) {
    && p.At?
    && p.index < |Buffered(frames, p.key)|
    && accepts(Buffered(frames, p.key)[p.index])
    && (forall j | 0 <= j < p.index :: !accepts(Buffered(frames, p.key)[j]))
    && exists n | 0 <= n < |types| :: types[n] == p.key && NothingFor(frames, types[..n], accepts)
  }

  /** Where the nested loops of the waiter stop. */
  function Search<K, T>(frames: Frames<K, T>, types: seq<K>, accepts: T -> bool): (p: Place<K>)
    ensures p.At? ==> p.index < |Buffered(frames, p.key)|
  {
    if types == [] then Nowhere
    else
      var i := First(Buffered(frames, types[0]), accepts);
      if i < |Buffered(frames, types[0])| then At(types[0], i) else Search(frames, types[1..], accepts)
  }

  /** Search finds the required frame whenever there is one. */
  lemma {:induction false} SearchIsChoice<K, T>(frames: Frames<K, T>, types: seq<K>, accepts: T -> bool)
    ensures Search(frames, types, accepts).Nowhere? <==> NothingFor(frames, types, accepts)
    ensures Search(frames, types, accepts).At? ==> IsChoice(frames, types, accepts, Search(frames, types, accepts))
  {
    if types != [] {
      var first, rest := types[0], types[1..];
      var i := First(Buffered(frames, first), accepts);
      if i < |Buffered(frames, first)| {
        assert NothingFor(frames, types[..0], accepts);
      } else {
        SearchIsChoice(frames, rest, accepts);
        var p := Search(frames, types, accepts);
        assert p == Search(frames, rest, accepts);
        hide Search, First;
        assert types == [first] + rest;
        NothingInFront(frames, first, rest, accepts);
        if p.At? { LaterChoice(frames, types, accepts, p); }
      }
    }
  }

  lemma NothingInFront<K, T>(frames: Frames<K, T>, first: K, rest: seq<K>, accepts: T -> bool)
    requires forall j | 0 <= j < |Buffered(frames, first)| :: !accepts(Buffered(frames, first)[j])
    ensures NothingFor(frames, [first] + rest, accepts) <==> NothingFor(frames, rest, accepts)
  {
    assert forall t | t in rest :: t in [first] + rest;
  }

  lemma LaterChoice<K, T>(frames: Frames<K, T>, types: seq<K>, accepts: T -> bool, p: Place<K>)
    requires types != [] && IsChoice(frames, types[1..], accepts, p)
    requires forall j | 0 <= j < |Buffered(frames, types[0])| :: !accepts(Buffered(frames, types[0])[j])
    ensures IsChoice(frames, types, accepts, p)
  {
    var first, rest := types[0], types[1..];
    var n :| 0 <= n < |rest| && rest[n] == p.key && NothingFor(frames, rest[..n], accepts);
    assert types[..n + 1] == [first] + rest[..n];
    NothingInFront(frames, first, rest[..n], accepts);
    assert types[n + 1] == p.key && NothingFor(frames, types[..n + 1], accepts);
  }

  /** The required frame is determined by the buffer and the request. */
  lemma ChoiceIsUnique<K, T>(frames: Frames<K, T>, types: seq<K>, accepts: T -> bool, p: Place<K>, q: Place<K>)
    requires IsChoice(frames, types, accepts, p) && IsChoice(frames, types, accepts, q)
    ensures p == q
  {
    var m :| 0 <= m < |types| && types[m] == p.key && NothingFor(frames, types[..m], accepts);
    var n :| 0 <= n < |types| && types[n] == q.key && NothingFor(frames, types[..n], accepts);
    assert p.key !in types[..n] && q.key !in types[..m];
    assert forall j | 0 <= j < n :: types[j] in types[..n];
    assert forall j | 0 <= j < m :: types[j] in types[..m];
  }

  /** Two buffers without empty queues that agree on every queue are equal. */
  lemma SameBuffers<K(!new), T>(a: Frames<K, T>, b: Frames<K, T>)
    requires forall k :: Buffered(a, k) == Buffered(b, k)
    requires forall k | k in a :: a[k] != []
    requires forall k | k in b :: b[k] != []
    ensures a == b
  {
    forall k ensures (k in a <==> k in b) && (k in a ==> a[k] == b[k]) {
      assert Buffered(a, k) == Buffered(b, k);
    }
  }

  /** The frames map and the receive loop's critical sections. */
  class Framed<K(==), T> {
    const key: T -> K
    var frames: Frames<K, T>

    /** No queue is empty, and every frame sits in the queue of its own type. */
    ghost predicate Valid()
      reads this
    {
      forall k | k in frames :: frames[k] != [] && forall f | f in frames[k] :: key(f) == k
    }

    constructor (key: T -> K)
      ensures Valid() && this.key == key && frames == map[]
    {
      this.key := key;
      frames := map[];
    }

    /** The receiver's critical section: file the decoded frame under its type. */
    method Deliver(resp: T)
      requires Valid()
      modifies this
      ensures Valid()
      ensures frames == Filed(old(frames), key(resp), resp)
    {
      var k := key(resp);
      var queue := if k in frames then frames[k] else [];
      frames := frames[k := queue + [resp]];
    }

    /** One pass of the waiter over the buffer: the first match in list order is taken out in place.
        A missing matcher accepts every frame. */
    method Scan(matches: Option<T -> bool>, messageTypes: seq<K>) returns (resp: Option<T>)
      requires Valid()
      modifies this
      ensures Valid()
      ensures matches.None? && resp.None? ==> forall t | t in messageTypes :: Buffered(old(frames), t) == []
      ensures matches.Some? && resp.Some? ==> matches.value(resp.value)
      ensures var accepts := Accepting(matches);
              match resp
              case None => frames == old(frames) && NothingFor(frames, messageTypes, accepts)
              case Some(f) =>
                key(f) in messageTypes &&
                exists p :: IsChoice(old(frames), messageTypes, accepts, p)
                  && f == old(frames)[p.key][p.index]
                  && frames == Without(old(frames), p.key, p.index)
    {
      ghost var accepts := Accepting(matches);
      for n := 0 to |messageTypes|
        invariant frames == old(frames)
        invariant NothingFor(frames, messageTypes[..n], accepts)
        invariant matches.None? ==> forall m | 0 <= m < n :: Buffered(frames, messageTypes[m]) == []
      {
        var msgType := messageTypes[n];
        var queue := if msgType in frames then frames[msgType] else [];
        for i := 0 to |queue|
          invariant frames == old(frames)
          invariant forall j | 0 <= j < i :: !accepts(queue[j])
          invariant matches.None? ==> i == 0
        {
          if matches.None? || matches.value(queue[i]) {
            frames := frames[msgType := queue[..i] + queue[i + 1..]];
            if |frames[msgType]| == 0 {
              frames := frames - {msgType};
              assert frames == old(frames) - {msgType};
            }
            assert IsChoice(old(frames), messageTypes, accepts, At(msgType, i));
            assert queue[i] in old(frames)[msgType];
            return Some(queue[i]);
          }
        }
        assert messageTypes[..n + 1] == messageTypes[..n] + [msgType];
      }
      assert messageTypes[..|messageTypes|] == messageTypes;
      return None;
    }
  }

  ghost function Accepting<T>(matches: Option<T -> bool>): T -> bool {
    match matches
    case None => _ => true
    case Some(m) => m
  }
}
