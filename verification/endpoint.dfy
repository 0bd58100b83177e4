/** The N3 endpoint's queues (internal/gtpu/transport.go): G-PDUs by TEID and control messages by
    type, under one lock. The endpoint is a mailbox whose message types are the channels. */
module Endpoints {
  import opened Words
  import opened Mailbox
  import opened GtpuMessages

  datatype Channel = Downlink(teid: uint32) | Control(t: byte)

  function ChannelOf(m: Msg): Channel {
    if m.t == MSG_GPDU then Downlink(m.teid) else Control(m.t)
  }

  function AnyMessage(): Msg -> bool {
    _ => true
  }

  /** The two maps as one buffer. A control queue that was emptied keeps an empty entry in the code;
      it is no queue of the buffer. */
  ghost function Merged(gpdus: map<uint32, seq<Msg>>, control: map<byte, seq<Msg>>): Frames<Channel, Msg> {
    map c | c in Channels(gpdus, control) :: Queue(gpdus, control, c)
  }

  ghost function Channels(gpdus: map<uint32, seq<Msg>>, control: map<byte, seq<Msg>>): set<Channel> {
    (set t | t in gpdus && gpdus[t] != [] :: Downlink(t)) + (set t | t in control && control[t] != [] :: Control(t))
  }

  ghost function Queue(gpdus: map<uint32, seq<Msg>>, control: map<byte, seq<Msg>>, c: Channel): seq<Msg> {
    match c case Downlink(t) => Buffered(gpdus, t) case Control(t) => Buffered(control, t)
  }

  lemma MergedBuffers(gpdus: map<uint32, seq<Msg>>, control: map<byte, seq<Msg>>, c: Channel)
    ensures Buffered(Merged(gpdus, control), c) == Queue(gpdus, control, c)
    ensures forall d | d in Merged(gpdus, control) :: Merged(gpdus, control)[d] != []
  {
  }

  /** The pass is a scan of the mailbox for one message type that accepts every message. */
  ghost predicate Taken(before: Frames<Channel, Msg>, c: Channel, r: Option<Msg>, after: Frames<Channel, Msg>) {
    match r
    case None => after == before && NothingFor(before, [c], AnyMessage())
    case Some(m) =>
      && IsChoice(before, [c], AnyMessage(), At(c, 0))
      && m == before[c][0]
      && after == Without(before, c, 0)
  }

  lemma MergedAfterDelivery(g: map<uint32, seq<Msg>>, k: map<byte, seq<Msg>>,
                            g': map<uint32, seq<Msg>>, k': map<byte, seq<Msg>>, m: Msg)
    requires forall c :: Queue(g', k', c) == if c == ChannelOf(m) then Queue(g, k, c) + [m] else Queue(g, k, c)
    ensures Merged(g', k') == Filed(Merged(g, k), ChannelOf(m), m)
  {
    hide Merged, Queue;
    MergedBuffers(g, k, ChannelOf(m));
    MergedBuffers(g', k', ChannelOf(m));
    var a, b := Merged(g', k'), Filed(Merged(g, k), ChannelOf(m), m);
    forall c ensures Buffered(a, c) == Buffered(b, c) {
      MergedBuffers(g, k, c);
      MergedBuffers(g', k', c);
    }
    SameBuffers(a, b);
  }

  lemma MergedAfterTake(g: map<uint32, seq<Msg>>, k: map<byte, seq<Msg>>,
                        g': map<uint32, seq<Msg>>, k': map<byte, seq<Msg>>, c: Channel)
    requires Queue(g, k, c) != []
    requires forall d :: Queue(g', k', d) == if d == c then Queue(g, k, d)[1..] else Queue(g, k, d)
    ensures Taken(Merged(g, k), c, Some(Queue(g, k, c)[0]), Merged(g', k'))
  {
    hide Merged, Queue;
    MergedBuffers(g, k, c);
    MergedBuffers(g', k', c);
    var before := Merged(g, k);
    assert NothingFor(before, [c][..0], AnyMessage());
    var a, b := Merged(g', k'), Without(before, c, 0);
    assert Remove(before[c], 0) == before[c][1..];
    forall d ensures Buffered(a, d) == Buffered(b, d) {
      MergedBuffers(g, k, d);
      MergedBuffers(g', k', d);
    }
    SameBuffers(a, b);
  }

  class Endpoint {
    var gpdus: map<uint32, seq<Msg>>
    var control: map<byte, seq<Msg>>

    ghost function Queues(): Frames<Channel, Msg>
      reads this
    {
      Merged(gpdus, control)
    }

    /** Every message is in the queue of its own channel. */
    ghost predicate Valid()
      reads this
    {
      forall c :: forall m | m in Queue(gpdus, control, c) :: ChannelOf(m) == c
    }

    constructor ()
      ensures Valid() && Queues() == map[]
    {
      gpdus, control := map[], map[];
    }

    /** The receiver's critical section. */
    method Deliver(msg: Msg)
      requires Valid()
      modifies this
      ensures Valid() && Queues() == Filed(old(Queues()), ChannelOf(msg), msg)
      ensures msg.t == 255 ==>
                gpdus == old(gpdus)[msg.teid := Buffered(old(gpdus), msg.teid) + [msg]] && control == old(control)
      ensures msg.t != 255 ==>
                control == old(control)[msg.t := Buffered(old(control), msg.t) + [msg]] && gpdus == old(gpdus)
    {
      if msg.t == MSG_GPDU {
        gpdus := gpdus[msg.teid := (if msg.teid in gpdus then gpdus[msg.teid] else []) + [msg]];
      } else {
        control := control[msg.t := (if msg.t in control then control[msg.t] else []) + [msg]];
      }
      MergedAfterDelivery(old(gpdus), old(control), gpdus, control, msg);
    }

    /** One pass of WaitForDownlink: the oldest packet of the TEID. */
    method TakeDownlink(dlTeid: uint32) returns (r: Option<Msg>)
      requires Valid()
      modifies this
      ensures Valid()
      ensures Taken(old(Queues()), Downlink(dlTeid), r, Queues())
      ensures r.Some? ==> r.value.t == 255 && r.value.teid == dlTeid
      ensures Buffered(old(gpdus), dlTeid) == (if r.Some? then [r.value] else []) + Buffered(gpdus, dlTeid)
      ensures (r.None? ==> Buffered(gpdus, dlTeid) == []) && control == old(control)
    {
      var pkts := if dlTeid in gpdus then gpdus[dlTeid] else [];
      if |pkts| == 0 {
        MergedBuffers(gpdus, control, Downlink(dlTeid));
        return None;
      }
      gpdus := gpdus[dlTeid := pkts[1..]];
      if |gpdus[dlTeid]| == 0 {
        gpdus := gpdus - {dlTeid};
      }
      MergedAfterTake(old(gpdus), old(control), gpdus, control, Downlink(dlTeid));
      assert pkts[0] in Queue(old(gpdus), old(control), Downlink(dlTeid));
      return Some(pkts[0]);
    }

    /** One pass of WaitForControl: the oldest message of the type. */
    method TakeControl(msgType: byte) returns (r: Option<Msg>)
      requires Valid()
      modifies this
      ensures Valid()
      ensures Taken(old(Queues()), Control(msgType), r, Queues())
      ensures r.Some? ==> r.value.t == msgType && msgType != 255
      ensures Buffered(old(control), msgType) == (if r.Some? then [r.value] else []) + Buffered(control, msgType)
      ensures (r.None? ==> Buffered(control, msgType) == []) && gpdus == old(gpdus)
    {
      var msgs := if msgType in control then control[msgType] else [];
      if |msgs| == 0 {
        MergedBuffers(gpdus, control, Control(msgType));
        return None;
      }
      control := control[msgType := msgs[1..]];
      MergedAfterTake(old(gpdus), old(control), gpdus, control, Control(msgType));
      assert msgs[0] in Queue(old(gpdus), old(control), Control(msgType));
      return Some(msgs[0]);
    }
  }
}
