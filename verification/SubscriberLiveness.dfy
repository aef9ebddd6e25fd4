/**
  What the liveness table of src/DeadSubscriberMonitor.cpp promises a subscriber, over runs
  of calls and scans whose callbacks call back: one that keeps beating is never evicted,
  one that falls silent is, and one that is gone can come back.  Limits are literals here.
 */
module SubscriberLiveness {
  import opened GatewayTypes
  import opened DeadSubscriberMonitor

  datatype Op = Do(call: Call) | Scan(now: nat, script: seq<seq<Call>>)

  function Step(p: Progress, op: Op): (q: Progress)
    ensures |q.table| == |p.table|
  {
    match op
    case Do(call) => Progress(Effect(p.table, call).0, p.evictions)
    case Scan(now, script) =>
      var q := Scanning(p.table, |p.table|, now, script);
      Progress(q.table, p.evictions + q.evictions)
  }

  /** The table after the operations, and every eviction made on the way. */
  function Run(p: Progress, ops: seq<Op>): (q: Progress)
    ensures |q.table| == |p.table|
    decreases |ops|
  {
    if ops == [] then p else Run(Step(p, ops[0]), ops[1..])
  }

  predicate IsFor(call: Call, s: nat, e: nat) {
    call.serviceId == s && call.eventId == e
  }

  // ------------------------------------------------------------------
  // A subscriber that keeps beating
  // ------------------------------------------------------------------

  /** The call does not take the subscriber out, and if it is its heartbeat, it reads h or later. */
  predicate Harmless(call: Call, s: nat, e: nat, h: nat) {
    IsFor(call, s, e) ==> !call.Deregister? && (call.Heartbeat? ==> call.now >= h)
  }

  ghost predicate AllHarmless(calls: seq<Call>, s: nat, e: nat, h: nat) {
    forall k :: 0 <= k < |calls| ==> Harmless(calls[k], s, e, h)
  }

  /**
    The subscriber was last heard of at h, is never deregistered, and each scan reads a clock at
    most gap past the newest heartbeat outside the scans; callbacks do not send older ones.
   */
  ghost predicate Beating(ops: seq<Op>, s: nat, e: nat, h: nat, gap: nat) {
    ops == [] ||
    match ops[0]
    case Do(call) =>
      && (IsFor(call, s, e) ==> !call.Deregister?)
      && Beating(ops[1..], s, e, if IsFor(call, s, e) && call.Heartbeat? then call.now else h, gap)
    case Scan(now, script) =>
      && now <= h + gap
      && (forall n :: 0 <= n < |script| ==> AllHarmless(script[n], s, e, h))
      && Beating(ops[1..], s, e, h, gap)
  }

  /** Slot i holds the subscriber, with its callback, last heard of at h or later. */
  predicate Holds(table: Table, i: nat, s: nat, e: nat, onDead: nat, h: nat)
    requires i < |table|
  {
    HasKey(table[i], s, e) && table[i].onDead == onDead && table[i].lastBeatMs >= h
  }

  predicate IsAlive(table: Table, i: nat)
    requires i < |table|
  {
    table[i].health == Alive
  }

  /** No eviction of the subscriber among them. */
  ghost predicate Spared(evictions: seq<Eviction>, s: nat, e: nat) {
    forall k :: 0 <= k < |evictions| ==> !HasKey(evictions[k].entry, s, e)
  }

  lemma FindHeld(table: Table, i: nat, s: nat, e: nat)
    requires Valid(table) && i < |table| && HasKey(table[i], s, e)
    ensures Find(table, s, e) == i
  {
  }

  lemma EffectHolds(table: Table, i: nat, s: nat, e: nat, onDead: nat, h: nat, call: Call)
    requires Valid(table) && i < |table| && Holds(table, i, s, e, onDead, h) && Harmless(call, s, e, h)
    ensures var t := Effect(table, call).0;
      |t| == |table| && Valid(t) && Holds(t, i, s, e, onDead, h) && (IsAlive(table, i) ==> IsAlive(t, i))
  {
    EffectValid(table, call);
    FindHeld(table, i, s, e);
    hide Find, FreeEntry, Valid;
  }

  lemma {:induction false} CallsHold(table: Table, i: nat, s: nat, e: nat, onDead: nat, h: nat, calls: seq<Call>)
    requires Valid(table) && i < |table| && Holds(table, i, s, e, onDead, h) && AllHarmless(calls, s, e, h)
    ensures var t := CallsOn(table, calls);
      Valid(t) && Holds(t, i, s, e, onDead, h) && (IsAlive(table, i) ==> IsAlive(t, i))
    decreases |calls|
  {
    hide Effect, Valid, Holds, IsAlive, Harmless;
    if calls != [] {
      var most := |calls| - 1;
      CallsHold(table, i, s, e, onDead, h, calls[..most]);
      EffectHolds(CallsOn(table, calls[..most]), i, s, e, onDead, h, calls[most]);
    }
  }

  /** Looking at an entry keeps the table valid. */
  lemma JudgedValid(table: Table, n: nat, now: nat)
    requires Valid(table) && n < |table|
    ensures Valid(table[n := ScannedEntry(table[n], now)])
  {
  }

  /** One pass keeps a subscriber heard of at most 2000 ms ago, and one heard of within 500 ms alive. */
  lemma PassHolds(table: Table, n: nat, now: nat, calls: seq<Call>,
                  i: nat, s: nat, e: nat, onDead: nat, h: nat)
    requires Valid(table) && n < |table| && i < |table| && Holds(table, i, s, e, onDead, h)
    requires now <= h + 2000 && AllHarmless(calls, s, e, h)
    ensures var t := Passed(table, n, now, calls);
      && Valid(t) && Holds(t, i, s, e, onDead, h)
      && (IsAlive(table, i) && now <= h + 500 ==> IsAlive(t, i))
    ensures Stale(table[n], now) ==> !HasKey(table[n], s, e)
  {
    JudgedValid(table, n, now);
    FindHeld(table, i, s, e);
    var t := table[n := ScannedEntry(table[n], now)];
    hide Find, Valid, AllHarmless;
    CallsHold(t, i, s, e, onDead, h, calls);
    hide CallsOn;
  }

  lemma {:induction false} ScanHolds(table: Table, n: nat, now: nat, script: seq<seq<Call>>,
                                     i: nat, s: nat, e: nat, onDead: nat, h: nat)
    requires Valid(table) && n <= |table| && i < |table| && Holds(table, i, s, e, onDead, h)
    requires now <= h + 2000 && forall m :: 0 <= m < |script| ==> AllHarmless(script[m], s, e, h)
    ensures var p := Scanning(table, n, now, script);
      && Valid(p.table) && Holds(p.table, i, s, e, onDead, h) && Spared(p.evictions, s, e)
      && (IsAlive(table, i) && now <= h + 500 ==> IsAlive(p.table, i))
    decreases n
  {
    hide Valid, Holds, IsAlive, Passed, Stale, AllHarmless;
    if n > 0 {
      ScanHolds(table, n - 1, now, script, i, s, e, onDead, h);
      var p := Scanning(table, n - 1, now, script);
      var calls := CallsOfNth(script, |p.evictions|);
      assert AllHarmless(calls, s, e, h) by { NoneHarmless(s, e, h); }
      PassHolds(p.table, n - 1, now, calls, i, s, e, onDead, h);
    }
  }

  lemma NoneHarmless(s: nat, e: nat, h: nat)
    ensures AllHarmless([], s, e, h)
  {
  }

  /** The newest heartbeat after the operation, as Beating counts them. */
  function Newest(op: Op, s: nat, e: nat, h: nat): nat {
    if op.Do? && IsFor(op.call, s, e) && op.call.Heartbeat? then op.call.now else h
  }

  /** A heartbeat of the subscriber stores its own clock reading. */
  lemma OwnCall(table: Table, i: nat, s: nat, e: nat, onDead: nat, h: nat, call: Call)
    requires Valid(table) && i < |table| && Holds(table, i, s, e, onDead, h)
    requires IsFor(call, s, e) ==> !call.Deregister?
    ensures var t := Effect(table, call).0;
      && |t| == |table| && Valid(t) && Holds(t, i, s, e, onDead, Newest(Do(call), s, e, h))
      && (IsAlive(table, i) ==> IsAlive(t, i))
  {
    EffectValid(table, call);
    FindHeld(table, i, s, e);
    hide Find, FreeEntry, Valid;
  }

  lemma StepHolds(p: Progress, op: Op, rest: seq<Op>, i: nat, s: nat, e: nat, onDead: nat, h: nat, gap: nat)
    requires Valid(p.table) && i < |p.table| && Holds(p.table, i, s, e, onDead, h) && Spared(p.evictions, s, e)
    requires gap <= 2000 && Beating([op] + rest, s, e, h, gap)
    ensures var q := Step(p, op);
      && Valid(q.table) && Holds(q.table, i, s, e, onDead, Newest(op, s, e, h)) && Spared(q.evictions, s, e)
      && (gap <= 500 && IsAlive(p.table, i) ==> IsAlive(q.table, i))
    ensures Beating(rest, s, e, Newest(op, s, e, h), gap)
  {
    hide Valid, Holds, IsAlive, Effect, Scanning;
    assert ([op] + rest)[1..] == rest;
    match op {
      case Do(call) => OwnCall(p.table, i, s, e, onDead, h, call);
      case Scan(now, script) => ScanHolds(p.table, |p.table|, now, script, i, s, e, onDead, h);
    }
  }

  /**
    A subscriber that keeps beating is in no eviction of the run, still has its slot and its
    callback, and with gaps of at most 500 ms it is never shown as missing a beat.
   */
  lemma {:induction false} BeatingStays(
      p: Progress, ops: seq<Op>, i: nat, s: nat, e: nat, onDead: nat, h: nat, gap: nat)
    requires Valid(p.table) && i < |p.table| && Holds(p.table, i, s, e, onDead, h) && Spared(p.evictions, s, e)
    requires gap <= 2000 && Beating(ops, s, e, h, gap)
    ensures var q := Run(p, ops);
      && Valid(q.table) && Holds(q.table, i, s, e, onDead, 0) && Spared(q.evictions, s, e)
      && (gap <= 500 && IsAlive(p.table, i) ==> IsAlive(q.table, i))
    decreases |ops|
  {
    hide Valid, IsAlive, Step, Beating, Spared;
    if ops != [] {
      assert [ops[0]] + ops[1..] == ops;
      StepHolds(p, ops[0], ops[1..], i, s, e, onDead, h, gap);
      BeatingStays(Step(p, ops[0]), ops[1..], i, s, e, onDead, Newest(ops[0], s, e, h), gap);
    }
  }

  /** A run that keeps beating does so up to each of its points. */
  lemma {:induction false} BeatingSoFar(ops: seq<Op>, s: nat, e: nat, h: nat, gap: nat, n: nat)
    requires Beating(ops, s, e, h, gap) && n <= |ops|
    ensures Beating(ops[..n], s, e, h, gap)
    decreases n
  {
    if n > 0 {
      BeatingSoFar(ops[1..], s, e, Newest(ops[0], s, e, h), gap, n - 1);
      assert ops[..n][1..] == ops[1..][..n - 1];
    }
  }

  /** A heartbeat takes back a warning, and beats within 500 ms of it keep the warning away. */
  lemma HeartbeatRestores(table: Table, i: nat, s: nat, e: nat, h: nat, ops: seq<Op>)
    requires Valid(table) && i < |table| && HasKey(table[i], s, e) && Beating(ops, s, e, h, 500)
    ensures var q := Run(Progress(table, []), [Do(Heartbeat(s, e, h))] + ops);
      HasKey(q.table[i], s, e) && q.table[i].health == Alive
  {
    var beat := Heartbeat(s, e, h);
    FindHeld(table, i, s, e);
    EffectValid(table, beat);
    hide Find, Valid, Beating;
    var t := Effect(table, beat).0;
    hide Effect;
    BeatingStays(Progress(t, []), ops, i, s, e, table[i].onDead, h, 500);
    assert ([Do(beat)] + ops)[1..] == ops;
    assert Step(Progress(table, []), Do(beat)) == Progress(t, []);
    assert Run(Progress(table, []), [Do(beat)] + ops) == Run(Progress(t, []), ops);
    assert IsAlive(Run(Progress(t, []), ops).table, i);
  }

  // ------------------------------------------------------------------
  // Registration and its end
  // ------------------------------------------------------------------

  ghost predicate Known(table: Table, s: nat, e: nat) {
    exists k :: 0 <= k < |table| && HasKey(table[k], s, e)
  }

  ghost predicate HasRoom(table: Table) {
    exists k :: 0 <= k < |table| && !table[k].active
  }

  /** The answers of Register, and what a registration stores. */
  lemma RegisterExactly(table: Table, s: nat, e: nat, onDead: nat, now: nat)
    requires Valid(table)
    ensures var (t, answer) := Effect(table, Register(s, e, onDead, now));
      && (answer == Err(NullPointer) <==> onDead == 0)
      && (answer == Err(AlreadyRegistered) <==> onDead != 0 && Known(table, s, e))
      && (answer == Err(RegistryFull) <==> onDead != 0 && !Known(table, s, e) && !HasRoom(table))
      && (answer == Ok <==> onDead != 0 && !Known(table, s, e) && HasRoom(table))
      && (answer != Ok ==> t == table)
      && (answer == Ok ==> exists i ::
            && 0 <= i < |table| && !table[i].active
            && t == table[i := Entry(s, e, now, Alive, onDead, true)])
  {
    var i, j := Find(table, s, e), FreeEntry(table);
    hide Find, FreeEntry, Valid;
    assert j < |table| ==> !table[j].active;
  }

  /** The subscriber has an entry with its callback, alive if asked for. */
  ghost predicate Present(table: Table, s: nat, e: nat, onDead: nat, alive: bool) {
    exists i :: 0 <= i < |table| && HasKey(table[i], s, e) && table[i].onDead == onDead
                && (alive ==> table[i].health == Alive)
  }

  lemma HeldIsPresent(table: Table, i: nat, s: nat, e: nat, onDead: nat, alive: bool)
    requires i < |table| && Holds(table, i, s, e, onDead, 0) && (alive ==> IsAlive(table, i))
    ensures Present(table, s, e, onDead, alive)
  {
  }

  /**
    A subscriber that registers at r and then keeps beating is in no eviction of the run; with
    gaps of at most 500 ms it is alive whenever one looks.
   */
  lemma RegisteredStays(table: Table, s: nat, e: nat, onDead: nat, r: nat, ops: seq<Op>, n: nat, gap: nat)
    requires Valid(table) && onDead != 0 && !Known(table, s, e) && HasRoom(table)
    requires gap <= 2000 && Beating(ops, s, e, r, gap) && n <= |ops|
    ensures var q := Run(Progress(table, []), [Do(Register(s, e, onDead, r))] + ops[..n]);
      && (forall k :: 0 <= k < |q.evictions| ==> !HasKey(q.evictions[k].entry, s, e))
      && Present(q.table, s, e, onDead, gap <= 500)
  {
    var register := Register(s, e, onDead, r);
    RegisterExactly(table, s, e, onDead, r);
    EffectValid(table, register);
    var t := Effect(table, register).0;
    var i :| 0 <= i < |table| && t == table[i := Entry(s, e, r, Alive, onDead, true)];
    hide Effect, Valid, Beating;
    BeatingSoFar(ops, s, e, r, gap, n);
    BeatingStays(Progress(t, []), ops[..n], i, s, e, onDead, r, gap);
    assert ([Do(register)] + ops[..n])[1..] == ops[..n];
    var q := Run(Progress(table, []), [Do(register)] + ops[..n]);
    assert q == Run(Progress(t, []), ops[..n]);
    HeldIsPresent(q.table, i, s, e, onDead, gap <= 500);
  }

  /** Heartbeat and Deregister know exactly the keys of active entries. */
  lemma KnownExactly(table: Table, s: nat, e: nat, now: nat)
    ensures Effect(table, Heartbeat(s, e, now)).1 == if Known(table, s, e) then Ok else Err(ServiceNotFound)
    ensures Effect(table, Deregister(s, e)).1 == if Known(table, s, e) then Ok else Err(ServiceNotFound)
  {
    var i := Find(table, s, e);
    hide Find;
  }

  /**
    Deregister ends a registration: a heartbeat for the key is then refused, and the key can be
    registered again.
   */
  lemma DeregisterFrees(table: Table, s: nat, e: nat, onDead: nat, now: nat)
    requires Valid(table) && onDead != 0
    ensures var t := Effect(table, Deregister(s, e)).0;
      && Effect(t, Heartbeat(s, e, now)).1 == Err(ServiceNotFound)
      && Effect(t, Register(s, e, onDead, now)).1 != Err(AlreadyRegistered)
      && (Known(table, s, e) ==> Effect(t, Register(s, e, onDead, now)).1 == Ok)
  {
    var t := Effect(table, Deregister(s, e)).0;
    EffectValid(table, Deregister(s, e));
    RegisterExactly(t, s, e, onDead, now);
    KnownExactly(t, s, e, now);
    var i := Find(table, s, e);
    assert !Known(t, s, e) by { hide Find; }
    hide Find, Valid;
    assert i < |table| ==> !t[i].active;
  }
  // ------------------------------------------------------------------
  // A subscriber that falls silent
  // ------------------------------------------------------------------

  ghost predicate Aside(calls: seq<Call>, s: nat, e: nat) {
    forall k :: 0 <= k < |calls| ==> !IsFor(calls[k], s, e)
  }

  /** Calls for other keys leave a subscriber's entry alone, and do not bring one about. */
  lemma {:induction false} CallsAside(table: Table, i: nat, s: nat, e: nat, calls: seq<Call>)
    requires Valid(table) && i < |table| && Aside(calls, s, e)
    ensures var t := CallsOn(table, calls);
      && Valid(t)
      && (HasKey(table[i], s, e) ==> t[i] == table[i])
      && (!Known(table, s, e) ==> !Known(t, s, e))
    decreases |calls|
  {
    if calls != [] {
      var most := |calls| - 1;
      CallsAside(table, i, s, e, calls[..most]);
      EffectAside(CallsOn(table, calls[..most]), i, s, e, calls[most]);
    }
  }

  lemma EffectAside(table: Table, i: nat, s: nat, e: nat, call: Call)
    requires Valid(table) && i < |table| && !IsFor(call, s, e)
    ensures var t := Effect(table, call).0;
      && |t| == |table| && Valid(t)
      && (HasKey(table[i], s, e) ==> t[i] == table[i])
      && (!Known(table, s, e) ==> !Known(t, s, e))
  {
    EffectValid(table, call);
    hide Find, FreeEntry, Valid;
  }

  /** A pass over another entry. */
  lemma PassAside(table: Table, n: nat, now: nat, calls: seq<Call>, i: nat, s: nat, e: nat)
    requires Valid(table) && n < |table| && i < |table| && Aside(calls, s, e)
    ensures var t := Passed(table, n, now, calls);
      && Valid(t)
      && (i != n && HasKey(table[i], s, e) ==> t[i] == table[i])
      && (!Known(table, s, e) ==> !Known(t, s, e))
  {
    JudgedValid(table, n, now);
    hide Valid;
    CallsAside(table[n := ScannedEntry(table[n], now)], i, s, e, calls);
    hide CallsOn, Aside;
  }

  /** The pass over the subscriber's own entry. */
  lemma PassOwn(table: Table, now: nat, calls: seq<Call>, i: nat)
    requires Valid(table) && i < |table| && table[i].active
    requires Aside(calls, table[i].serviceId, table[i].eventId)
    ensures var (t, e) := (Passed(table, i, now, calls), table[i]);
      && Valid(t)
      && (Stale(e, now) <==> now > e.lastBeatMs + 2000)
      && (now > e.lastBeatMs + 2000 ==> !Known(t, e.serviceId, e.eventId))
      && (now <= e.lastBeatMs + 2000 ==>
            t[i] == if now > e.lastBeatMs + 500 then e.(health := Warning) else e)
  {
    var e := table[i];
    FindHeld(table, i, e.serviceId, e.eventId);
    JudgedValid(table, i, now);
    var t := table[i := ScannedEntry(e, now)];
    CallsAside(t, i, e.serviceId, e.eventId, calls);
    hide Valid, CallsOn, Aside;
    if Stale(e, now) {
      assert !Known(t, e.serviceId, e.eventId) by { AloneWithKey(table, i); }
    }
  }

  lemma AloneWithKey(table: Table, i: nat)
    requires Valid(table) && i < |table| && table[i].active
    ensures forall k :: 0 <= k < |table| && k != i ==> !HasKey(table[k], table[i].serviceId, table[i].eventId)
  {
  }

  /** Evictions come from the entries that the scan has passed. */
  lemma {:induction false} PassedOnly(table: Table, n: nat, now: nat, script: seq<seq<Call>>)
    requires n <= |table|
    ensures var p := Scanning(table, n, now, script);
      forall k :: 0 <= k < |p.evictions| ==> p.evictions[k].index < n
    decreases n
  {
    hide Passed, Stale;
    if n > 0 {
      PassedOnly(table, n - 1, now, script);
      ScanningNext(table, n - 1, now, script);
      hide Scanning;
      assert forall k :: 0 <= k < |Scanning(table, n - 1, now, script).evictions| ==>
        Scanning(table, n, now, script).evictions[k] == Scanning(table, n - 1, now, script).evictions[k];
    }
  }

  /** Evicted as it stood and gone, shown as missing a beat, or unchanged. */
  ghost predicate Decided(p: Progress, i: nat, e: Entry, now: nat)
    requires i < |p.table|
  {
    && (now > e.lastBeatMs + 2000 <==> Eviction(i, e) in p.evictions)
    && (now > e.lastBeatMs + 2000 ==> !Known(p.table, e.serviceId, e.eventId))
    && (now <= e.lastBeatMs + 2000 ==>
          p.table[i] == if now > e.lastBeatMs + 500 then e.(health := Warning) else e)
  }

  ghost predicate AllAside(script: seq<seq<Call>>, s: nat, e: nat) {
    forall m :: 0 <= m < |script| ==> Aside(script[m], s, e)
  }

  lemma NthAside(script: seq<seq<Call>>, n: nat, s: nat, e: nat)
    requires AllAside(script, s, e)
    ensures Aside(CallsOfNth(script, n), s, e)
  {
  }

  lemma DecidedFirst(p: Progress, i: nat, now: nat, script: seq<seq<Call>>)
    requires Valid(p.table) && i < |p.table| && p.table[i].active
    requires AllAside(script, p.table[i].serviceId, p.table[i].eventId)
    requires forall k :: 0 <= k < |p.evictions| ==> p.evictions[k].index < i
    ensures var q := OnePass(p, i, now, script); Valid(q.table) && Decided(q, i, p.table[i], now)
  {
    var e := p.table[i];
    NthAside(script, |p.evictions|, e.serviceId, e.eventId);
    PassOwn(p.table, now, CallsOfNth(script, |p.evictions|), i);
    hide Valid, Passed, Stale, Known, Aside, AllAside, CallsOfNth;
    assert Stale(e, now) ==> OnePass(p, i, now, script).evictions[|p.evictions|] == Eviction(i, e);
  }

  lemma DecidedStill(p: Progress, n: nat, i: nat, e: Entry, now: nat, script: seq<seq<Call>>)
    requires Valid(p.table) && n < |p.table| && i < n && Decided(p, i, e, now) && e.active
    requires AllAside(script, e.serviceId, e.eventId)
    ensures var q := OnePass(p, n, now, script); Valid(q.table) && Decided(q, i, e, now)
  {
    NthAside(script, |p.evictions|, e.serviceId, e.eventId);
    PassAside(p.table, n, now, CallsOfNth(script, |p.evictions|), i, e.serviceId, e.eventId);
    hide Valid, Passed, Stale, Known, Aside, AllAside, CallsOfNth;
    var q := OnePass(p, n, now, script);
    assert Eviction(i, e) in q.evictions <==> Eviction(i, e) in p.evictions;
  }

  lemma StillThere(p: Progress, n: nat, i: nat, now: nat, script: seq<seq<Call>>)
    requires Valid(p.table) && n < i < |p.table| && p.table[i].active
    requires AllAside(script, p.table[i].serviceId, p.table[i].eventId)
    ensures var q := OnePass(p, n, now, script); Valid(q.table) && q.table[i] == p.table[i]
  {
    var e := p.table[i];
    NthAside(script, |p.evictions|, e.serviceId, e.eventId);
    PassAside(p.table, n, now, CallsOfNth(script, |p.evictions|), i, e.serviceId, e.eventId);
    hide Valid, Passed, Stale, Known, Aside, AllAside, CallsOfNth;
  }

  lemma {:induction false} ScanDecidesBy(table: Table, n: nat, i: nat, now: nat, script: seq<seq<Call>>)
    requires Valid(table) && n <= |table| && i < |table| && table[i].active
    requires AllAside(script, table[i].serviceId, table[i].eventId)
    ensures var p := Scanning(table, n, now, script);
      && Valid(p.table)
      && (n <= i ==> p.table[i] == table[i])
      && (n > i ==> Decided(p, i, table[i], now))
    decreases n
  {
    hide Valid, Decided, AllAside, OnePass;
    if n > 0 {
      var m := n - 1;
      ScanDecidesBy(table, m, i, now, script);
      PassedOnly(table, m, now, script);
      ScanningNext(table, m, now, script);
      hide Scanning;
      var p := Scanning(table, m, now, script);
      if m < i {
        StillThere(p, m, i, now, script);
      } else if m == i {
        DecidedFirst(p, i, now, script);
      } else {
        DecidedStill(p, m, i, table[i], now, script);
      }
    }
  }

  /**
    What a scan makes of a subscriber that the callbacks leave alone: evicted, with the entry as
    it stood, exactly when its last beat is over 2000 ms old, and then gone from the table;
    shown as missing a beat when over 500 ms old; otherwise unchanged.
   */
  lemma ScanDecides(table: Table, i: nat, now: nat, script: seq<seq<Call>>)
    requires Valid(table) && i < |table| && table[i].active
    requires forall m :: 0 <= m < |script| ==> Aside(script[m], table[i].serviceId, table[i].eventId)
    ensures var p, e := Scanning(table, |table|, now, script), table[i];
      && (now > e.lastBeatMs + 2000 <==> Eviction(i, e) in p.evictions)
      && (now > e.lastBeatMs + 2000 ==> !Known(p.table, e.serviceId, e.eventId))
      && (now <= e.lastBeatMs + 2000 ==>
            p.table[i] == if now > e.lastBeatMs + 500 then e.(health := Warning) else e)
  {
    assert AllAside(script, table[i].serviceId, table[i].eventId);
    ScanDecidesBy(table, |table|, i, now, script);
    hide Valid, Known, Scanning, Aside;
  }

  /** GetStats counts entries: CountOf is the number of active entries with the health. */
  lemma {:induction false} CountIsNumber(table: Table, n: nat, health: Health)
    requires n <= |table|
    ensures CountOf(table, n, health) == |set k: nat | k < n && table[k].active && table[k].health == health|
    decreases n
  {
    if n > 0 {
      CountIsNumber(table, n - 1, health);
      CountedSnoc(table, n - 1, health);
    }
  }

  lemma CountedSnoc(table: Table, n: nat, health: Health)
    requires n < |table|
    ensures var less := set k: nat | k < n && table[k].active && table[k].health == health;
      && n !in less
      && (set k: nat | k < n + 1 && table[k].active && table[k].health == health)
         == if table[n].active && table[n].health == health then less + {n} else less
  {
  }
}
