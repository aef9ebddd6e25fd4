/** The event queue and fan-out of src/SoaServiceManager.cpp. */
module SoaServiceManager {
  import opened GatewayTypes
  import opened Modulo

  const MAX_SUBSCRIBERS: nat := 16
  const MAX_PENDING_EVENTS: nat := 64

  /** A handler is known by a number; 0 stands for the null pointer. */
  datatype Subscriber = Subscriber(serviceId: bv16, eventId: bv16, handler: nat)

  predicate Wants(s: Subscriber, event: SoaEvent) {
    s.serviceId == event.serviceId && s.eventId == event.eventId && s.handler != 0
  }

  /** One call of a handler: the subscriber's position in the table and the event passed. */
  datatype Delivery = Delivery(subscriber: nat, event: SoaEvent)

  /** The calls one event gives rise to: each subscriber that wants it, once, in subscription order. */
  function FanOut(event: SoaEvent, subscribers: seq<Subscriber>): seq<Delivery>
    decreases |subscribers|
  {
    if subscribers == [] then []
    else
      var n := |subscribers| - 1;
      FanOut(event, subscribers[..n]) + (if Wants(subscribers[n], event) then [Delivery(n, event)] else [])
  }

  /** The calls a series of events gives rise to, event after event. */
  function Dispatch(events: seq<SoaEvent>, subscribers: seq<Subscriber>): seq<Delivery>
    decreases |events|
  {
    if events == [] then []
    else
      var n := |events| - 1;
      Dispatch(events[..n], subscribers) + FanOut(events[n], subscribers)
  }

  lemma FanOutSnoc(event: SoaEvent, subscribers: seq<Subscriber>, i: nat)
    requires i < |subscribers|
    ensures FanOut(event, subscribers[..i + 1]) ==
            FanOut(event, subscribers[..i]) + (if Wants(subscribers[i], event) then [Delivery(i, event)] else [])
  {
    assert subscribers[..i + 1][..i] == subscribers[..i];
  }

  lemma DispatchSnoc(events: seq<SoaEvent>, event: SoaEvent, subscribers: seq<Subscriber>)
    ensures Dispatch(events + [event], subscribers) == Dispatch(events, subscribers) + FanOut(event, subscribers)
  {
    assert (events + [event])[..|events|] == events;
  }

  lemma DispatchNone(events: seq<SoaEvent>, start: nat, subscribers: seq<Subscriber>)
    requires start <= |events|
    ensures Dispatch(events[start..start], subscribers) == []
  {
  }

  lemma DispatchNext(events: seq<SoaEvent>, start: nat, taken: nat, subscribers: seq<Subscriber>)
    requires start <= taken < |events|
    ensures Dispatch(events[start..taken + 1], subscribers) ==
            Dispatch(events[start..taken], subscribers) + FanOut(events[taken], subscribers)
  {
    DispatchSnoc(events[start..taken], events[taken], subscribers);
    assert events[start..taken] + [events[taken]] == events[start..taken + 1];
  }

  /** Every subscriber that wants the event is called exactly once, nobody else is, and in table order. */
  ghost predicate OncePerTarget(d: seq<Delivery>, event: SoaEvent, subscribers: seq<Subscriber>) {
    && (forall k :: 0 <= k < |d| ==> d[k].event == event && d[k].subscriber < |subscribers|
                                     && Wants(subscribers[d[k].subscriber], event))
    && (forall k, l :: 0 <= k < l < |d| ==> d[k].subscriber < d[l].subscriber)
    && (forall i :: 0 <= i < |subscribers| && Wants(subscribers[i], event) ==> Delivery(i, event) in d)
  }

  lemma OnceMore(d: seq<Delivery>, event: SoaEvent, subscribers: seq<Subscriber>, s: Subscriber)
    requires OncePerTarget(d, event, subscribers)
    ensures OncePerTarget(d + (if Wants(s, event) then [Delivery(|subscribers|, event)] else []), event,
                          subscribers + [s])
  {
    var d' := d + (if Wants(s, event) then [Delivery(|subscribers|, event)] else []);
    var subs := subscribers + [s];
    forall i | 0 <= i < |subs| && Wants(subs[i], event) ensures Delivery(i, event) in d' {
      if i < |subscribers| {
        assert Wants(subscribers[i], event);
        assert Delivery(i, event) in d;
      }
    }
  }

  lemma {:induction false} FanOutExact(event: SoaEvent, subscribers: seq<Subscriber>)
    ensures OncePerTarget(FanOut(event, subscribers), event, subscribers)
    decreases |subscribers|
  {
    hide OncePerTarget, Wants;
    if subscribers == [] {
      NoTargets(event);
    } else {
      var n := |subscribers| - 1;
      FanOutExact(event, subscribers[..n]);
      OnceMore(FanOut(event, subscribers[..n]), event, subscribers[..n], subscribers[n]);
      assert subscribers[..n] + [subscribers[n]] == subscribers;
    }
  }

  lemma NoTargets(event: SoaEvent)
    ensures OncePerTarget([], event, [])
  {
  }

  /** A handler is called with an event if and only if it subscribed to that service and that event. */
  lemma SeenBy(event: SoaEvent, subscribers: seq<Subscriber>, i: nat)
    requires i < |subscribers|
    ensures Delivery(i, event) in FanOut(event, subscribers)
            <==> subscribers[i].serviceId == event.serviceId && subscribers[i].eventId == event.eventId
                 && subscribers[i].handler != 0
    ensures forall k :: 0 <= k < |FanOut(event, subscribers)| ==> FanOut(event, subscribers)[k].event == event
  {
    hide FanOut;
    FanOutExact(event, subscribers);
  }

  /** Events that the handler calls from the n-th on still have in store. */
  function InStore(script: seq<seq<SoaEvent>>, n: nat): nat
    decreases |script| - n
  {
    if n >= |script| then 0 else |script[n]| + InStore(script, n + 1)
  }

  class Manager {
    const subscribers: array<Subscriber>
    const eventQueue: array<SoaEvent>
    var subscriberCount: nat
    var queueHead: nat
    var queueTail: nat
    var initialised: bool
    ghost var accepted: seq<SoaEvent>
    ghost var taken: nat
    ghost var deliveries: seq<Delivery>

    constructor (blank: SoaEvent)
      ensures Valid() && !initialised && accepted == [] && taken == 0 && deliveries == []
      ensures fresh(subscribers) && fresh(eventQueue)
    {
      subscribers := new Subscriber[MAX_SUBSCRIBERS](_ => Subscriber(0xFFFF, 0, 0));
      eventQueue := new SoaEvent[MAX_PENDING_EVENTS](_ => blank);
      subscriberCount, queueHead, queueTail, initialised := 0, 0, 0, false;
      accepted, taken, deliveries := [], 0, [];
    }

    /** The queue holds the accepted events that have not been taken, oldest at tail. */
    ghost predicate Valid()
      reads this, subscribers, eventQueue
    {
      && subscribers.Length == MAX_SUBSCRIBERS && eventQueue.Length == MAX_PENDING_EVENTS
      && subscriberCount <= MAX_SUBSCRIBERS
      && queueHead == |accepted| % MAX_PENDING_EVENTS
      && queueTail == taken % MAX_PENDING_EVENTS
      && taken <= |accepted| <= taken + MAX_PENDING_EVENTS - 1
      && forall k :: taken <= k < |accepted| ==> eventQueue[k % MAX_PENDING_EVENTS] == accepted[k]
    }

    ghost function Table(): seq<Subscriber>
      requires Valid()
      reads this, subscribers, eventQueue
    {
      subscribers[..subscriberCount]
    }

    /** src/SoaServiceManager.cpp, Init. */
    method Init() returns (r: VoidResult)
      requires Valid()
      modifies this
      ensures Valid() && initialised
      ensures r == if old(initialised) then Err(AlreadyRegistered) else Ok
      ensures r == Ok ==> accepted == [] && taken == 0 && Table() == [] && deliveries == old(deliveries)
      ensures r != Ok ==> unchanged(this)
    {
      if initialised { return Err(AlreadyRegistered); }
      initialised := true;
      subscriberCount, queueHead, queueTail := 0, 0, 0;
      accepted, taken := [], 0;
      return Ok;
    }

    /** src/SoaServiceManager.cpp, Subscribe. */
    method Subscribe(serviceId: bv16, eventId: bv16, handler: nat) returns (r: VoidResult)
      requires Valid()
      modifies `subscriberCount, subscribers
      ensures Valid()
      ensures r == if !initialised then Err(NotInitialized)
                   else if handler == 0 then Err(NullPointer)
                   else if |old(Table())| == MAX_SUBSCRIBERS then Err(SubscriberFull)
                   else Ok
      ensures Table() == if r == Ok then old(Table()) + [Subscriber(serviceId, eventId, handler)] else old(Table())
    {
      if !initialised { return Err(NotInitialized); }
      if handler == 0 { return Err(NullPointer); }
      var idx := subscriberCount;
      if idx >= MAX_SUBSCRIBERS { return Err(SubscriberFull); }
      subscribers[idx] := Subscriber(serviceId, eventId, handler);
      subscriberCount := idx + 1;
      return Ok;
    }

    /** src/SoaServiceManager.cpp, PublishEvent: accepted unless 63 events are waiting. */
    method PublishEvent(event: SoaEvent) returns (r: VoidResult)
      requires Valid()
      modifies `queueHead, `accepted, eventQueue
      ensures Valid()
      ensures r == if !initialised then Err(NotInitialized)
                   else if |old(accepted)| - taken == MAX_PENDING_EVENTS - 1 then Err(QueueFull)
                   else Ok
      ensures accepted == if r == Ok then old(accepted) + [event] else old(accepted)
    {
      if !initialised { return Err(NotInitialized); }
      RingFacts(taken, |accepted|, MAX_PENDING_EVENTS);
      ModStep(|accepted|, MAX_PENDING_EVENTS);
      var head := queueHead;
      var nextHead := (head + 1) % MAX_PENDING_EVENTS;
      if nextHead == queueTail { return Err(QueueFull); }
      eventQueue[head] := event;
      queueHead := nextHead;
      accepted := accepted + [event];
      return Ok;
    }

    /** What a handler publishes while it runs, event by event; refused events are lost to the handler. */
    method HandlerPublishes(events: seq<SoaEvent>)
      requires Valid() && initialised
      modifies `queueHead, `accepted, eventQueue
      ensures Valid() && old(accepted) <= accepted
      ensures |accepted| - |old(accepted)| <= |events|
    {
      var i := 0;
      while i < |events|
        invariant 0 <= i <= |events| && Valid() && old(accepted) <= accepted
        invariant |accepted| - |old(accepted)| <= i
      {
        var r := PublishEvent(events[i]);
        i := i + 1;
      }
    }

    /**
      src/SoaServiceManager.cpp, ProcessEvents.  The n-th handler call of this run publishes
      script[n]; nothing else publishes meanwhile.  The loop ends with an empty queue, and
      the calls made are those of the waiting and the newly accepted events in publish order.
     */
    method ProcessEvents(script: seq<seq<SoaEvent>>)
      requires Valid()
      modifies `queueHead, `queueTail, `accepted, `taken, `deliveries, eventQueue
      ensures Valid() && old(accepted) <= accepted
      ensures !initialised ==> accepted == old(accepted) && taken == old(taken) && deliveries == old(deliveries)
      ensures initialised ==> taken == |accepted|
      ensures initialised ==> deliveries == old(deliveries) + Dispatch(accepted[old(taken)..], Table())
    {
      hide Dispatch, FanOut;
      if !initialised { return; }
      DispatchNone(accepted, taken, Table());
      var subCount := subscriberCount;
      var calls := 0;
      ghost var start, table, before := taken, Table(), deliveries;
      while true
        invariant Valid() && initialised && old(accepted) <= accepted && start <= taken
        invariant subCount == subscriberCount && Table() == table
        invariant deliveries == before + Dispatch(accepted[start..taken], table)
        decreases InStore(script, calls) + |accepted| - taken
      {
        var empty := QueueEmpty();
        if empty { break; }
        ghost var soFar := accepted;
        calls := DispatchOne(script, calls, table);
        assert accepted[start..taken] == soFar[start..taken];
        DispatchNext(accepted, start, taken, table);
        AdvanceTail();
      }
      assert accepted[start..taken] == accepted[start..];
    }

    method QueueEmpty() returns (empty: bool)
      requires Valid()
      ensures empty <==> taken == |accepted|
    {
      RingFacts(taken, |accepted|, MAX_PENDING_EVENTS);
      empty := queueTail == queueHead;
    }

    method AdvanceTail()
      requires Valid() && taken < |accepted|
      modifies `queueTail, `taken
      ensures Valid() && taken == old(taken) + 1
    {
      ModStep(taken, MAX_PENDING_EVENTS);
      queueTail := (queueTail + 1) % MAX_PENDING_EVENTS;
      taken := taken + 1;
    }

    /** The inner loop: the event at tail is read through a reference at every subscriber. */
    method DispatchOne(script: seq<seq<SoaEvent>>, calls0: nat, ghost table: seq<Subscriber>) returns (calls: nat)
      requires Valid() && initialised && taken < |accepted| && table == Table()
      modifies `queueHead, `accepted, `deliveries, eventQueue
      ensures Valid() && old(accepted) <= accepted && taken < |accepted|
      ensures eventQueue[queueTail] == old(eventQueue[queueTail])
      ensures deliveries == old(deliveries) + FanOut(accepted[taken], table)
      ensures InStore(script, calls) + |accepted| <= InStore(script, calls0) + |old(accepted)|
    {
      var tail := queueTail;
      ghost var ev := accepted[taken];
      calls := calls0;
      var i := 0;
      while i < subscriberCount
        invariant 0 <= i <= subscriberCount && Valid() && tail == queueTail
        invariant old(accepted) <= accepted && accepted[taken] == ev && eventQueue[tail] == ev
        invariant deliveries == old(deliveries) + FanOut(ev, table[..i])
        invariant InStore(script, calls) + |accepted| <= InStore(script, calls0) + |old(accepted)|
      {
        FanOutSnoc(ev, table, i);
        if subscribers[i].serviceId == eventQueue[tail].serviceId
           && subscribers[i].eventId == eventQueue[tail].eventId && subscribers[i].handler != 0
        {
          deliveries := deliveries + [Delivery(i, eventQueue[tail])];
          if calls < |script| { HandlerPublishes(script[calls]); }
          calls := calls + 1;
        }
        i := i + 1;
      }
      assert table[..|table|] == table;
    }
  }
}
