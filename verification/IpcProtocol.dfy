/**
  IpcBridge::Send and the consumer on the other core, one shared memory access at a time.

  The ring carries slot images byte by byte, so the consumer may copy a slot while the
  producer is part-way through writing another one, and either side may act on an
  index of the other side that has moved on since it was read.  The counter is private to
  the producer, so the frame it will write is settled when the call begins.
 */
module IpcProtocol {
  import opened GatewayTypes
  import opened Bytes
  import opened IpcSlot
  import opened IpcBridge
  import opened SpscRing
  import opened Modulo

  /** The producer's private counter and current event, the ring, and the events accepted so far. */
  datatype System = System(ring: Ring<bv8>, counter: nat, current: SoaEvent, accepted: seq<SoaEvent>)

  datatype Action =
    | Send(event: SoaEvent)
    | Access(step: Step<bv8>)

  function Start(idle: SoaEvent): System {
    System(Empty(RING_SLOTS, Image(ZeroedSlot())), 0, idle, [])
  }

  /** Send starts a call (ignored for an oversized payload or during a call); Access is one memory access. */
  function Next(s: System, action: Action): System {
    match action
    case Send(event) =>
      if s.ring.producer.Ready? && |event.payload| == MAX_PAYLOAD_BYTES
         && event.payloadLen as nat <= PAYLOAD_BYTES then
        s.(current := event,
           ring := Apply(s.ring, ReadHead(Image(Frame(event, CounterByte(s.counter))))))
      else s
    case Access(step) =>
      if step.ReadHead? then s
      else
        var ring := Apply(s.ring, step);
        if |ring.published| > |s.ring.published| then
          s.(ring := ring, counter := (s.counter + 1) % 256, accepted := s.accepted + [s.current])
        else s.(ring := ring)
  }

  function Run(s: System, actions: seq<Action>): System
    decreases |actions|
  {
    if actions == [] then s else Run(Next(s, actions[0]), actions[1..])
  }

  /** The image of the k-th accepted event. */
  ghost predicate IsFrame(item: seq<bv8>, event: SoaEvent, k: nat) {
    Sendable(event) && item == Image(Frame(event, CounterByte(k)))
  }

  ghost predicate SystemInv(s: System) {
    && Inv(s.ring, RING_SLOTS, SLOT_BYTES)
    && s.counter == |s.accepted| % 256
    && |s.accepted| == |s.ring.published|
    && (forall k :: 0 <= k < |s.accepted| ==> IsFrame(s.ring.published[k], s.accepted[k], k))
    && (!s.ring.producer.Ready? ==> IsFrame(s.ring.producer.item, s.current, |s.accepted|))
  }

  lemma NextKeeps(s: System, action: Action)
    requires SystemInv(s)
    ensures SystemInv(Next(s, action))
  {
    hide Frame, Image, CounterByte, Inv, Apply;
    match action
    case Send(event) =>
      if s.ring.producer.Ready? && event.WellFormed() && event.payloadLen as nat <= PAYLOAD_BYTES {
        assert CounterByte(s.counter) == CounterByte(|s.accepted|) by { SameCounter(|s.accepted|); }
        var item := Image(Frame(event, CounterByte(s.counter)));
        StepKeeps(s.ring, RING_SLOTS, SLOT_BYTES, ReadHead(item));
        StartsCall(s.ring, item);
      }
    case Access(step) =>
      if !step.ReadHead? {
        StepKeeps(s.ring, RING_SLOTS, SLOT_BYTES, step);
        ProducerItem(s.ring, step);
        ModStep(|s.accepted|, 256);
      }
  }

  lemma StartsCall(r: Ring<bv8>, item: seq<bv8>)
    requires r.producer.Ready?
    ensures Apply(r, ReadHead(item)) == r.(producer := SawHead(item, r.head))
  {
  }

  lemma SameCounter(k: nat)
    ensures CounterByte(k % 256) == CounterByte(k)
  {
  }

  /** Only PublishHead publishes, and it publishes the producer's item; no access changes that item. */
  lemma ProducerItem(r: Ring<bv8>, step: Step<bv8>)
    requires !step.ReadHead?
    ensures var r' := Apply(r, step);
      && (r'.published == r.published
          || (!r.producer.Ready? && r'.producer.Ready? && r'.published == r.published + [r.producer.item]))
      && (!r'.producer.Ready? ==> !r.producer.Ready? && r'.producer.item == r.producer.item)
  {
  }

  lemma {:induction false} RunKeepsSystem(s: System, actions: seq<Action>)
    requires SystemInv(s)
    ensures SystemInv(Run(s, actions))
    decreases |actions|
  {
    if actions != [] {
      NextKeeps(s, actions[0]);
      RunKeepsSystem(Next(s, actions[0]), actions[1..]);
    }
  }

  /**
    For every interleaving, the k-th slot the consumer takes passes VerifyE2e with
    counter k mod 256 and carries the k-th accepted event; at most 31 are unread.
   */
  lemma {:induction false} DeliveredInOrder(idle: SoaEvent, actions: seq<Action>)
    ensures var s := Run(Start(idle), actions);
      && |s.ring.delivered| <= |s.accepted| <= |s.ring.delivered| + 31
      && forall k :: 0 <= k < |s.ring.delivered| ==> Intact(s.ring.delivered[k], s.accepted[k], k)
  {
    hide Image, Frame;
    EmptyInv(RING_SLOTS, Image(ZeroedSlot()));
    var s := Run(Start(idle), actions);
    RunKeepsSystem(Start(idle), actions);
    forall k | 0 <= k < |s.ring.delivered| ensures Intact(s.ring.delivered[k], s.accepted[k], k) {
      assert s.ring.delivered[k] == s.ring.published[k];
      FramePassesIntact(s.ring.delivered[k], s.accepted[k], k);
    }
  }

  /** What the receiver wants to know of the k-th slot it takes. */
  ghost predicate Intact(bytes: seq<bv8>, event: SoaEvent, k: nat) {
    |bytes| == SLOT_BYTES
    && var slot := FromImage(bytes);
       slot.WellFormed() && Verdict(slot, CounterByte(k)) == Ok && SameMessage(EventOf(slot), event)
  }

  lemma FramePassesIntact(bytes: seq<bv8>, event: SoaEvent, k: nat)
    requires IsFrame(bytes, event, k)
    ensures Intact(bytes, event, k)
  {
    hide Image, FromImage, Frame, Verdict, EventOf, CounterByte;
    ImageRoundTrip(Frame(event, CounterByte(k)));
    FrameVerifies(event, CounterByte(k), CounterByte(k));
  }
  lemma CounterValue(k: nat)
    ensures CounterByte(k) as int == k % 256
  {
    ByteValue(k);
  }

  /**
    The k-th slot taken passes for no other counter than k mod 256: a receiver that has missed
    slots is told of a sequence error, unless it has missed a multiple of 256 of them.
   */
  lemma {:induction false} OwnCounterOnly(idle: SoaEvent, actions: seq<Action>, k: nat, expected: bv8)
    ensures var s := Run(Start(idle), actions);
      k < |s.ring.delivered| ==>
        && |s.ring.delivered[k]| == 148
        && Verdict(FromImage(s.ring.delivered[k]), expected)
           == if expected as int == k % 256 then Ok else Err(SequenceError)
  {
    hide Image, FromImage, Frame, Verdict, CounterByte;
    EmptyInv(RING_SLOTS, Image(ZeroedSlot()));
    var s := Run(Start(idle), actions);
    RunKeepsSystem(Start(idle), actions);
    if k < |s.ring.delivered| {
      assert s.ring.delivered[k] == s.ring.published[k];
      CounterValue(k);
      ImageRoundTrip(Frame(s.accepted[k], CounterByte(k)));
      FrameVerifies(s.accepted[k], CounterByte(k), expected);
      SameByte(CounterByte(k), expected);
    }
  }
}
