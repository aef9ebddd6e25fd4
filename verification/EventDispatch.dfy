/**
  PublishEvent and ProcessEvents of src/SoaServiceManager.cpp, one memory access at a
  time: a producer fills the queue while the dispatching thread reads the event at tail
  through a reference, once for every subscriber.  A handler that publishes is one way of
  scheduling producer accesses between two visits.
 */
module EventDispatch {
  import opened GatewayTypes
  import opened SpscRing
  import opened SoaServiceManager

  /** The table grows at its end; a call of ProcessEvents works with the count it read at its start. */
  datatype State = State(
    ring: Ring<SoaEvent>, table: seq<Subscriber>,
    running: bool, snapshot: nat, next: nat,
    counts: seq<nat>,             // history: the snapshot each dispatched event was handled under
    deliveries: seq<Delivery>)

  datatype Action =
    | Publisher(step: Step<SoaEvent>)   // ReadHead, CheckFull, WriteCell, PublishHead
    | AddSubscriber(subscriber: Subscriber)
    | Enter                             // ProcessEvents is called
    | Poll                              // read tail (its own index), then head; leave when they meet
    | Visit                             // compare the next subscriber, call its handler
    | Release                           // publish tail

  function Start(blank: SoaEvent): State {
    State(Empty(MAX_PENDING_EVENTS, [blank]), [], false, 0, 0, [], [])
  }

  /** The dispatching thread looks at an event. */
  predicate Busy(s: State) {
    s.ring.consumer.Copying?
  }

  function ReadIndices(r: Ring<SoaEvent>): Ring<SoaEvent> {
    Apply(Apply(r, ReadTail), CheckEmpty)
  }

  /** What the reference currently refers to. */
  function Current(s: State): SoaEvent
    requires Busy(s) && s.ring.consumer.slot < |s.ring.slots| && |s.ring.slots[s.ring.consumer.slot]| == 1
  {
    s.ring.slots[s.ring.consumer.slot][0]
  }

  function Next(s: State, a: Action): State {
    match a
    case Publisher(step) =>
      if step.ReadHead? || step.CheckFull? || step.WriteCell? || step.PublishHead?
      then s.(ring := Apply(s.ring, step)) else s
    case AddSubscriber(sub) =>
      if sub.handler != 0 && |s.table| < MAX_SUBSCRIBERS then s.(table := s.table + [sub]) else s
    case Enter =>
      if s.running then s else s.(running := true, snapshot := |s.table|)
    case Poll =>
      if s.running && s.ring.consumer.Waiting? then
        var r := ReadIndices(s.ring);
        if r.consumer.Copying? then s.(ring := r, next := 0, counts := s.counts + [s.snapshot])
        else s.(ring := r, running := false)
      else s
    case Visit =>
      if s.running && Busy(s) && s.next < s.snapshot <= |s.table|
         && s.ring.consumer.slot < |s.ring.slots| && |s.ring.slots[s.ring.consumer.slot]| == 1 then
        var ev := Current(s);
        s.(next := s.next + 1,
           deliveries := s.deliveries + (if Wants(s.table[s.next], ev) then [Delivery(s.next, ev)] else []))
      else s
    case Release =>
      if s.running && Busy(s) && s.next == s.snapshot then
        s.(ring := Apply(Apply(s.ring, CopyCell), PublishTail))
      else s
  }

  function Run(s: State, actions: seq<Action>): State
    decreases |actions|
  {
    if actions == [] then s else Run(Next(s, actions[0]), actions[1..])
  }

  // ------------------------------------------------------------------
  // What the deliveries should be
  // ------------------------------------------------------------------

  /** Event after event in publish order, each to the subscribers among the first counts[k]. */
  function Expected(events: seq<seq<SoaEvent>>, counts: seq<nat>, table: seq<Subscriber>): seq<Delivery>
    requires |events| <= |counts|
    requires forall k :: 0 <= k < |events| ==> |events[k]| == 1
    requires forall k :: 0 <= k < |counts| ==> counts[k] <= |table|
    decreases |events|
  {
    if events == [] then []
    else
      var n := |events| - 1;
      Expected(events[..n], counts, table) + FanOut(events[n][0], table[..counts[n]])
  }

  lemma {:induction false} ExpectedGrows(
      events: seq<seq<SoaEvent>>, counts: seq<nat>, more: seq<nat>, table: seq<Subscriber>, subs: seq<Subscriber>)
    requires |events| <= |counts|
    requires forall k :: 0 <= k < |events| ==> |events[k]| == 1
    requires forall k :: 0 <= k < |counts| ==> counts[k] <= |table|
    requires forall k :: 0 <= k < |counts + more| ==> (counts + more)[k] <= |table + subs|
    ensures Expected(events, counts + more, table + subs) == Expected(events, counts, table)
    decreases |events|
  {
    hide FanOut;
    if events != [] {
      var n := |events| - 1;
      ExpectedGrows(events[..n], counts, more, table, subs);
      assert (table + subs)[..counts[n]] == table[..counts[n]];
    }
  }

  // ------------------------------------------------------------------
  // Invariant
  // ------------------------------------------------------------------

  ghost predicate CountsOk(s: State) {
    && |s.counts| == |s.ring.delivered| + (if Busy(s) then 1 else 0)
    && (forall k :: 0 <= k < |s.counts| ==> s.counts[k] <= |s.table|)
    && s.snapshot <= |s.table|
    && (Busy(s) ==> s.running && s.counts[|s.counts| - 1] == s.snapshot && s.next <= s.snapshot
                    && s.ring.consumer.got == [])
    && !s.ring.consumer.SawTail?
    && (forall k :: 0 <= k < |s.ring.delivered| ==> |s.ring.delivered[k]| == 1)
  }

  /** The event being dispatched is the oldest one not yet released. */
  ghost predicate DispatchOk(s: State)
    requires CountsOk(s)
  {
    s.deliveries == Expected(s.ring.delivered, s.counts, s.table) +
      (if Busy(s) && |s.ring.delivered| < |s.ring.published| && |s.ring.published[|s.ring.delivered|]| == 1
       then FanOut(s.ring.published[|s.ring.delivered|][0], s.table[..s.next]) else [])
  }

  ghost predicate StateInv(s: State) {
    Inv(s.ring, MAX_PENDING_EVENTS, 1) && CountsOk(s) && DispatchOk(s)
  }

  /** The slot being dispatched holds the oldest unreleased event, whatever the producer is doing. */
  lemma ReferenceStable(s: State)
    requires Inv(s.ring, MAX_PENDING_EVENTS, 1) && Busy(s)
    ensures s.ring.consumer.slot < |s.ring.slots| && |s.ring.slots[s.ring.consumer.slot]| == 1
    ensures |s.ring.delivered| < |s.ring.published|
    ensures s.ring.published[|s.ring.delivered|] == [Current(s)]
  {
    var d := |s.ring.delivered|;
    assert s.ring.slots[d % MAX_PENDING_EVENTS] == s.ring.published[d];
  }

  lemma PublisherKeeps(s: State, step: Step<SoaEvent>)
    requires StateInv(s)
    ensures StateInv(Next(s, Publisher(step)))
  {
    hide Expected, FanOut;
    StepKeeps(s.ring, MAX_PENDING_EVENTS, 1, step);
    var s' := Next(s, Publisher(step));
    assert s'.ring.delivered == s.ring.delivered && s'.ring.consumer == s.ring.consumer;
    assert s.ring.published <= s'.ring.published;
    if Busy(s) { ReferenceStable(s); }
  }

  lemma AddKeeps(s: State, sub: Subscriber)
    requires StateInv(s)
    ensures StateInv(Next(s, AddSubscriber(sub)))
  {
    hide Expected, FanOut;
    var s' := Next(s, AddSubscriber(sub));
    if s' != s {
      assert s.counts + [] == s.counts;
      ExpectedGrows(s.ring.delivered, s.counts, [], s.table, [sub]);
      if Busy(s) { assert (s.table + [sub])[..s.next] == s.table[..s.next]; }
    }
  }

  lemma PollKeeps(s: State)
    requires StateInv(s)
    ensures StateInv(Next(s, Poll))
  {
    hide Expected;
    if s.running && s.ring.consumer.Waiting? {
      StepKeeps(s.ring, MAX_PENDING_EVENTS, 1, ReadTail);
      StepKeeps(Apply(s.ring, ReadTail), MAX_PENDING_EVENTS, 1, CheckEmpty);
      assert s.table + [] == s.table;
      var r := ReadIndices(s.ring);
      if r.consumer.Copying? {
        ExpectedGrows(s.ring.delivered, s.counts, [s.snapshot], s.table, []);
      }
    }
  }

  lemma VisitKeeps(s: State)
    requires StateInv(s)
    ensures StateInv(Next(s, Visit))
  {
    hide Expected, FanOut, Inv;
    if Busy(s) && s.next < s.snapshot {
      ReferenceStable(s);
      FanOutSnoc(Current(s), s.table, s.next);
    }
  }

  lemma ReleaseKeeps(s: State)
    requires StateInv(s)
    ensures StateInv(Next(s, Release))
  {
    hide FanOut;
    if s.running && Busy(s) && s.next == s.snapshot {
      ReferenceStable(s);
      StepKeeps(s.ring, MAX_PENDING_EVENTS, 1, CopyCell);
      var r := Apply(s.ring, CopyCell);
      StepKeeps(r, MAX_PENDING_EVENTS, 1, PublishTail);
      var s' := Next(s, Release);
      var d := s.ring.delivered;
      assert s'.ring.delivered == d + [[Current(s)]];
      assert s'.ring.delivered[..|d|] == d;
    }
  }

  lemma NextKeeps(s: State, a: Action)
    requires StateInv(s)
    ensures StateInv(Next(s, a))
  {
    hide StateInv, Next;
    match a
    case Publisher(step) => PublisherKeeps(s, step);
    case AddSubscriber(sub) => AddKeeps(s, sub);
    case Enter => EnterKeeps(s);
    case Poll => PollKeeps(s);
    case Visit => VisitKeeps(s);
    case Release => ReleaseKeeps(s);
  }

  lemma EnterKeeps(s: State)
    requires StateInv(s)
    ensures StateInv(Next(s, Enter))
  {
    hide Expected, FanOut, Inv;
  }

  lemma {:induction false} RunKeepsState(s: State, actions: seq<Action>)
    requires StateInv(s)
    ensures StateInv(Run(s, actions))
    decreases |actions|
  {
    hide StateInv, Next;
    if actions != [] {
      NextKeeps(s, actions[0]);
      RunKeepsState(Next(s, actions[0]), actions[1..]);
    }
  }

  /**
    Under every interleaving: the released events are the first of those published, every
    released event has gone once, in publish order, to each matching subscriber of its
    call's snapshot in subscription order, the event being dispatched has gone to the
    subscribers visited so far, and nothing else has been delivered.
   */
  lemma {:induction false} ExactlyOnceInOrder(blank: SoaEvent, actions: seq<Action>)
    ensures var s := Run(Start(blank), actions);
      && s.ring.delivered <= s.ring.published
      && CountsOk(s) && DispatchOk(s)
      && (Busy(s) ==> |s.ring.delivered| < |s.ring.published|
                      && s.ring.consumer.slot < |s.ring.slots| && |s.ring.slots[s.ring.consumer.slot]| == 1
                      && s.ring.published[|s.ring.delivered|] == [Current(s)])
  {
    hide Next, Expected;
    EmptyInv(MAX_PENDING_EVENTS, [blank]);
    StartInv(blank);
    RunKeepsState(Start(blank), actions);
    var s := Run(Start(blank), actions);
    if Busy(s) { ReferenceStable(s); }
  }

  lemma StartInv(blank: SoaEvent)
    ensures StateInv(Start(blank))
  {
    EmptyInv(MAX_PENDING_EVENTS, [blank]);
  }
}
