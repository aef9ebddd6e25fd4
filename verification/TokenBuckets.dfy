/**
  The token buckets of src/RateLimiter.cpp as values: what each operation does to the
  source table, and the admission bound over whole runs.

  Clock readings are inputs.  Admit, RefillAll and EvictIdle are atomic here; module
  TokenRace interleaves their memory accesses on one bucket.
 */
module TokenBuckets {
  import opened GatewayTypes

  const MAX_TRACKED_SOURCES: nat := 32
  const BURST_CAPACITY: int := 20
  const REFILL_RATE_PER_MS: int := 5
  const INVALID_SOURCE_ID: nat := 0xFFFF_FFFF
  const SOURCE_EVICT_AFTER_MS: nat := 5000

  datatype Bucket = Bucket(
    sourceId: nat, tokens: int, lastRefillMs: nat, lastSeenMs: nat,
    dropCount: nat, passCount: nat, active: bool)

  type Table = seq<Bucket>

  // ------------------------------------------------------------------
  // Operations
  // ------------------------------------------------------------------

  /** The first active bucket of a source, or |table|. */
  function Lookup(table: Table, sourceId: nat): (i: nat)
    ensures i <= |table|
    ensures i < |table| ==> table[i].active && table[i].sourceId == sourceId
    ensures forall k :: 0 <= k < i ==> !(table[k].active && table[k].sourceId == sourceId)
  {
    if table == [] || (table[0].active && table[0].sourceId == sourceId) then 0
    else
      var rest := table[1..];
      var i := Lookup(rest, sourceId);
      assert forall k :: 1 <= k <= i ==> table[k] == rest[k - 1];
      i + 1
  }

  /** The first free slot, or |table|. */
  function FreeSlot(table: Table): (i: nat)
    ensures i <= |table|
    ensures i < |table| ==> !table[i].active
    ensures forall k :: 0 <= k < i ==> table[k].active
  {
    if table == [] || !table[0].active then 0
    else
      var rest := table[1..];
      var i := FreeSlot(rest);
      assert forall k :: 1 <= k <= i ==> table[k] == rest[k - 1];
      i + 1
  }

  function Opened(sourceId: nat, now: nat): Bucket {
    Bucket(sourceId, BURST_CAPACITY, now, now, 0, 0, true)
  }

  function AllocateIn(table: Table, sourceId: nat, now: nat): Table {
    if Lookup(table, sourceId) == |table| && FreeSlot(table) < |table|
    then table[FreeSlot(table) := Opened(sourceId, now)]
    else table
  }

  function Charged(b: Bucket, seen: nat): Bucket {
    if b.tokens > 0
    then b.(lastSeenMs := seen, tokens := b.tokens - 1, passCount := Increment32(b.passCount))
    else b.(lastSeenMs := seen, dropCount := Increment32(b.dropCount))
  }

  /** Table and verdict of one Admit; the two clock readings are taken on allocation and on charging. */
  function AdmitIn(table: Table, sourceId: nat, allocMs: nat, seenMs: nat): (Table, VoidResult) {
    var t := AllocateIn(table, sourceId, allocMs);
    var i := Lookup(t, sourceId);
    if i == |t| then (t, Err(RegistryFull))
    else (t[i := Charged(t[i], seenMs)], if t[i].tokens > 0 then Ok else Err(QueueFull))
  }

  /** The ideal bucket: every elapsed millisecond adds five tokens, up to the capacity. */
  function Refilled(b: Bucket, now: nat): Bucket {
    if now <= b.lastRefillMs then b
    else b.(tokens := Min(BURST_CAPACITY, b.tokens + REFILL_RATE_PER_MS * (now - b.lastRefillMs)), lastRefillMs := now)
  }

  function RefillIn(table: Table, now: nat): (r: Table)
    ensures |r| == |table|
  {
    seq(|table|, i requires 0 <= i < |table| => if table[i].active then Refilled(table[i], now) else table[i])
  }

  predicate Idle(b: Bucket, now: nat) {
    b.active && now >= b.lastSeenMs && now - b.lastSeenMs > SOURCE_EVICT_AFTER_MS
  }

  function Evicted(b: Bucket): Bucket {
    b.(sourceId := INVALID_SOURCE_ID, tokens := BURST_CAPACITY, dropCount := 0, passCount := 0, active := false)
  }

  function EvictIn(table: Table, now: nat): (r: Table)
    ensures |r| == |table|
  {
    seq(|table|, i requires 0 <= i < |table| => if Idle(table[i], now) then Evicted(table[i]) else table[i])
  }

  // ------------------------------------------------------------------
  // Runs
  // ------------------------------------------------------------------

  datatype Op =
    | Admit(sourceId: nat, allocMs: nat, seenMs: nat)
    | RefillAll(now: nat)
    | EvictIdle(now: nat)
  {
    function Ends(): nat {
      match this
      case Admit(_, _, seen) => seen
      case RefillAll(now) => now
      case EvictIdle(now) => now
    }

    ghost predicate NotBefore(t: nat) {
      match this
      case Admit(_, alloc, seen) => t <= alloc <= seen
      case RefillAll(now) => t <= now
      case EvictIdle(now) => t <= now
    }
  }

  function Apply(table: Table, op: Op): Table {
    match op
    case Admit(id, alloc, seen) => AdmitIn(table, id, alloc, seen).0
    case RefillAll(now) => RefillIn(table, now)
    case EvictIdle(now) => EvictIn(table, now)
  }

  /** 1 if the operation admits a packet of the source. */
  function Admits(table: Table, op: Op, source: nat): nat {
    if op.Admit? && op.sourceId == source && AdmitIn(table, source, op.allocMs, op.seenMs).1 == Ok then 1 else 0
  }

  function Run(table: Table, ops: seq<Op>): Table
    decreases |ops|
  {
    if ops == [] then table else Run(Apply(table, ops[0]), ops[1..])
  }

  /** Packets of the source admitted during the run. */
  function Passes(table: Table, ops: seq<Op>, source: nat): nat
    decreases |ops|
  {
    if ops == [] then 0 else Admits(table, ops[0], source) + Passes(Apply(table, ops[0]), ops[1..], source)
  }

  /** The clock never runs backwards. */
  ghost predicate Monotone(ops: seq<Op>, start: nat)
    decreases |ops|
  {
    ops == [] || (ops[0].NotBefore(start) && Monotone(ops[1..], ops[0].Ends()))
  }

  function EndTime(ops: seq<Op>, start: nat): nat {
    if ops == [] then start else ops[|ops| - 1].Ends()
  }

  // ------------------------------------------------------------------
  // Invariant
  // ------------------------------------------------------------------

  /** Tokens in range, stamps in the past, and refills since the last packet still in the bucket. */
  ghost predicate Sound(b: Bucket, now: nat) {
    b.active ==>
      && 0 <= b.tokens <= BURST_CAPACITY
      && b.lastRefillMs <= now
      && b.lastSeenMs <= now
      && b.tokens >= Min(BURST_CAPACITY, REFILL_RATE_PER_MS * (b.lastRefillMs - b.lastSeenMs))
  }

  ghost predicate Valid(table: Table, now: nat) {
    && |table| == MAX_TRACKED_SOURCES
    && (forall i :: 0 <= i < |table| ==> Sound(table[i], now))
    && (forall i, j :: 0 <= i < j < |table| && table[i].active && table[j].active
          ==> table[i].sourceId != table[j].sourceId)
  }

  /** The table Init leaves behind. */
  function InitialTable(now: nat): Table {
    seq(MAX_TRACKED_SOURCES, _ => Bucket(INVALID_SOURCE_ID, BURST_CAPACITY, now, now, 0, 0, false))
  }

  lemma InitialValid(now: nat)
    ensures Valid(InitialTable(now), now)
  {
  }

  lemma LookupIs(table: Table, source: nat, now: nat, i: nat)
    requires Valid(table, now) && i < |table| && table[i].active && table[i].sourceId == source
    ensures Lookup(table, source) == i
  {
  }

  lemma AdmitValid(table: Table, source: nat, alloc: nat, seen: nat, now: nat)
    requires Valid(table, now) && now <= alloc <= seen
    ensures Valid(AdmitIn(table, source, alloc, seen).0, seen)
  {
    hide Lookup, FreeSlot;
    var t := AllocateIn(table, source, alloc);
    assert Valid(t, seen);
  }

  lemma RefillValid(table: Table, t: nat, now: nat)
    requires Valid(table, now) && now <= t
    ensures Valid(RefillIn(table, t), t)
  {
  }

  lemma ApplyValid(table: Table, op: Op, now: nat)
    requires Valid(table, now) && op.NotBefore(now)
    ensures Valid(Apply(table, op), op.Ends())
  {
    hide Lookup, FreeSlot;
    match op
    case Admit(id, alloc, seen) => AdmitValid(table, id, alloc, seen, now);
    case RefillAll(t) => RefillValid(table, t, now);
    case EvictIdle(t) =>
  }

  // ------------------------------------------------------------------
  // What eviction frees and whom admission turns away
  // ------------------------------------------------------------------

  /** A source has a bucket. */
  predicate Tracked(table: Table, source: nat) {
    exists i :: 0 <= i < |table| && table[i].active && table[i].sourceId == source
  }

  /** Eviction frees exactly the buckets last seen more than 5000 ms before, and leaves the others as they are. */
  lemma EvictExactly(table: Table, i: nat, t: nat, now: nat)
    requires Valid(table, now) && now <= t && i < 32 && table[i].active
    ensures var b := Apply(table, EvictIdle(t));
      && |b| == 32
      && (t > table[i].lastSeenMs + 5000 ==> !b[i].active && !Tracked(b, table[i].sourceId))
      && (t <= table[i].lastSeenMs + 5000 ==> b[i] == table[i])
      && forall k :: 0 <= k < 32 && !table[k].active ==> b[k] == table[k]
  {
    var b := Apply(table, EvictIdle(t));
    forall k | 0 <= k < 32 && b[k].active ensures b[k] == table[k] {
    }
  }

  /**
    A packet is admitted if and only if its source has a bucket with a token, or has none
    and some bucket is free; it is refused for the table only when the source has no
    bucket and none is free.
   */
  lemma AdmitExactly(table: Table, source: nat, alloc: nat, seen: nat, now: nat)
    requires Valid(table, now)
    ensures var r := AdmitIn(table, source, alloc, seen).1;
      && (r == Ok <==>
            (exists i :: 0 <= i < 32 && table[i].active && table[i].sourceId == source && table[i].tokens > 0)
            || (!Tracked(table, source) && exists i :: 0 <= i < 32 && !table[i].active))
      && (r == Err(RegistryFull) <==> !Tracked(table, source) && forall i :: 0 <= i < 32 ==> table[i].active)
      && (r == Ok || r == Err(RegistryFull) || r == Err(QueueFull))
  {
    hide Lookup, FreeSlot;
    var i := Lookup(table, source);
    if i < |table| {
      assert Tracked(table, source);
      forall k | 0 <= k < 32 && table[k].active && table[k].sourceId == source ensures k == i {
        LookupIs(table, source, now, k);
      }
    } else {
      assert !Tracked(table, source);
      var t := AllocateIn(table, source, alloc);
      if FreeSlot(table) < |table| {
        assert t[FreeSlot(table)].active && t[FreeSlot(table)].sourceId == source;
        assert Lookup(t, source) == FreeSlot(table);
      }
    }
  }

  /** Once some source has been silent for over 5000 ms, an eviction lets a new source in. */
  lemma EvictionMakesRoom(table: Table, i: nat, source: nat, t: nat, now: nat)
    requires Valid(table, now) && now <= t && i < 32 && table[i].active && t > table[i].lastSeenMs + 5000
    requires !Tracked(table, source)
    ensures Passes(table, [EvictIdle(t), Admit(source, t, t)], source) == 1
  {
    hide Lookup, AdmitIn, Valid, Tracked;
    var ops := [EvictIdle(t), Admit(source, t, t)];
    var b := Apply(table, ops[0]);
    ApplyValid(table, ops[0], now);
    EvictExactly(table, i, t, now);
    StillUntracked(table, source, t);
    AdmitExactly(b, source, t, t, t);
    assert ops[1..] == [ops[1]] && ops[1..][1..] == [];
    assert Passes(b, ops[1..], source) == Admits(b, ops[1], source) + Passes(Apply(b, ops[1]), [], source);
  }

  lemma StillUntracked(table: Table, source: nat, t: nat)
    requires !Tracked(table, source)
    ensures !Tracked(EvictIn(table, t), source)
  {
    var b := EvictIn(table, t);
    forall k | 0 <= k < |b| && b[k].active ensures b[k].sourceId != source {
      assert table[k] == b[k];
    }
  }

  // ------------------------------------------------------------------
  // The potential
  // ------------------------------------------------------------------

  /**
    How many packets the source could get through at once at time now: the tokens it
    has, and those the next refill would add on top once these are spent.
   */
  function Room(table: Table, source: nat, now: int): int {
    var i := Lookup(table, source);
    if i == |table| then BURST_CAPACITY
    else table[i].tokens + Min(BURST_CAPACITY, REFILL_RATE_PER_MS * (now - table[i].lastRefillMs))
  }

  /** Time alone gives at most five packets per millisecond. */
  lemma RoomGrows(table: Table, source: nat, now: nat, later: nat)
    requires now <= later
    ensures Room(table, source, later) <= Room(table, source, now) + REFILL_RATE_PER_MS * (later - now)
  {
    hide Lookup;
  }

  lemma AllocateRoom(table: Table, source: nat, id: nat, now: nat, alloc: nat)
    requires Valid(table, now) && now <= alloc
    ensures Room(AllocateIn(table, id, alloc), source, alloc)
            <= Room(table, source, now) + REFILL_RATE_PER_MS * (alloc - now)
  {
    hide Lookup, FreeSlot;
    var t := AllocateIn(table, id, alloc);
    RoomGrows(table, source, now, alloc);
    if t != table {
      var k := FreeSlot(table);
      if id != source {
        var i := Lookup(table, source);
        assert i < |table| ==> t[i] == table[i];
        assert forall j :: 0 <= j < |t| && j != k ==> t[j] == table[j];
        assert Lookup(t, source) == i;
      }
    }
  }

  lemma AdmitRoom(table: Table, source: nat, op: Op, now: nat)
    requires Valid(table, now) && op.Admit? && op.NotBefore(now)
    ensures Admits(table, op, source) + Room(Apply(table, op), source, op.seenMs)
            <= Room(table, source, now) + REFILL_RATE_PER_MS * (op.seenMs - now)
  {
    hide Lookup, FreeSlot, AllocateIn;
    var t := AllocateIn(table, op.sourceId, op.allocMs);
    AllocateRoom(table, source, op.sourceId, now, op.allocMs);
    RoomGrows(t, source, op.allocMs, op.seenMs);
    var k, i := Lookup(t, op.sourceId), Lookup(t, source);
    var t' := Apply(table, op);
    if k < |t| {
      assert forall j :: 0 <= j < |t| ==> t'[j].active == t[j].active && t'[j].sourceId == t[j].sourceId;
      assert Lookup(t', source) == i;
    }
  }

  lemma RefillRoom(table: Table, source: nat, t: nat, now: nat)
    requires Valid(table, now) && now <= t
    ensures Room(RefillIn(table, t), source, t) <= Room(table, source, now) + REFILL_RATE_PER_MS * (t - now)
  {
    hide Lookup;
    var i, t' := Lookup(table, source), RefillIn(table, t);
    assert forall j :: 0 <= j < |table| ==> t'[j].active == table[j].active && t'[j].sourceId == table[j].sourceId;
    assert Lookup(t', source) == i;
  }

  /** Eviction gives nothing away: a bucket idle for over five seconds is as good as full. */
  lemma EvictRoom(table: Table, source: nat, t: nat, now: nat)
    requires Valid(table, now) && now <= t
    ensures Room(EvictIn(table, t), source, t) <= Room(table, source, now) + REFILL_RATE_PER_MS * (t - now)
  {
    hide Lookup;
    var i, t' := Lookup(table, source), EvictIn(table, t);
    RoomGrows(table, source, now, t);
    if i < |table| && Idle(table[i], t) {
      assert forall j :: 0 <= j < |table| && t'[j].active ==> table[j].active && table[j].sourceId == t'[j].sourceId;
      assert Lookup(t', source) == |table|;
    } else {
      assert forall j :: 0 <= j < |table| && t'[j].active ==> table[j].active && table[j].sourceId == t'[j].sourceId;
      assert Lookup(t', source) == i;
    }
  }

  lemma StepRoom(table: Table, source: nat, op: Op, now: nat)
    requires Valid(table, now) && op.NotBefore(now)
    ensures Admits(table, op, source) + Room(Apply(table, op), source, op.Ends())
            <= Room(table, source, now) + REFILL_RATE_PER_MS * (op.Ends() - now)
  {
    hide Lookup, Room;
    match op
    case Admit(_, _, _) => AdmitRoom(table, source, op, now);
    case RefillAll(t) => RefillRoom(table, source, t, now);
    case EvictIdle(t) => EvictRoom(table, source, t, now);
  }

  // ------------------------------------------------------------------
  // Whole runs
  // ------------------------------------------------------------------

  lemma {:induction false} RunRoom(table: Table, ops: seq<Op>, source: nat, now: nat)
    requires Valid(table, now) && Monotone(ops, now)
    ensures Valid(Run(table, ops), EndTime(ops, now)) && now <= EndTime(ops, now)
    ensures Passes(table, ops, source) + Room(Run(table, ops), source, EndTime(ops, now))
            <= Room(table, source, now) + REFILL_RATE_PER_MS * (EndTime(ops, now) - now)
    decreases |ops|
  {
    hide Room, Valid, Apply, Admits;
    if ops != [] {
      var op := ops[0];
      ApplyValid(table, op, now);
      StepRoom(table, source, op, now);
      RunRoom(Apply(table, op), ops[1..], source, op.Ends());
    }
  }

  lemma RoomNotNegative(table: Table, source: nat, now: nat)
    requires Valid(table, now)
    ensures Room(table, source, now) >= 0
  {
    hide Lookup;
  }

  /**
    From any state of the table on, across any number of evictions and re-allocations, a
    source gets at most its room at the start plus five packets per millisecond.
   */
  lemma {:induction false} WindowBound(table: Table, ops: seq<Op>, source: nat, now: nat)
    requires Valid(table, now) && Monotone(ops, now)
    ensures Passes(table, ops, source) <= Room(table, source, now) + REFILL_RATE_PER_MS * (EndTime(ops, now) - now)
  {
    RunRoom(table, ops, source, now);
    RoomNotNegative(Run(table, ops), source, EndTime(ops, now));
  }

  /** The first operation that leaves the source in the table, or |ops|. */
  function FirstAllocation(table: Table, ops: seq<Op>, source: nat): (i: nat)
    ensures i <= |ops|
    decreases |ops|
  {
    if ops == [] then 0
    else
      var t := Apply(table, ops[0]);
      if Lookup(t, source) < |t| then 0 else 1 + FirstAllocation(t, ops[1..], source)
  }

  /** Only an Admit of the source brings it into the table; until then nothing of it passes. */
  lemma Untracked(table: Table, op: Op, source: nat, now: nat)
    requires Valid(table, now) && op.NotBefore(now) && Lookup(table, source) == |table|
    ensures var t := Apply(table, op);
      && (Lookup(t, source) < |t| ==> op.Admit? && op.sourceId == source)
      && (Lookup(t, source) == |t| ==> Admits(table, op, source) == 0)
  {
    hide Lookup, FreeSlot;
    ApplyValid(table, op, now);
    var t := Apply(table, op);
    if op.Admit? && op.sourceId == source {
      var k := Lookup(AllocateIn(table, source, op.allocMs), source);
      assert k < |t| ==> t[k].active && t[k].sourceId == source;
    } else {
      assert forall j :: 0 <= j < |t| && t[j].active && t[j].sourceId == source
                         ==> table[j].active && table[j].sourceId == source;
    }
  }

  lemma {:induction false} RunConcat(table: Table, a: seq<Op>, b: seq<Op>, source: nat)
    ensures Run(table, a + b) == Run(Run(table, a), b)
    ensures Passes(table, a + b, source) == Passes(table, a, source) + Passes(Run(table, a), b, source)
    decreases |a|
  {
    hide Apply, Admits;
    if a == [] {
      assert a + b == b;
    } else {
      assert (a + b)[1..] == a[1..] + b;
      RunConcat(Apply(table, a[0]), a[1..], b, source);
    }
  }

  lemma {:induction false} BoundFromAllocation(table: Table, ops: seq<Op>, source: nat, now: nat)
    requires Valid(table, now) && Monotone(ops, now) && Lookup(table, source) == |table|
    ensures var i := FirstAllocation(table, ops, source);
      && (i == |ops| ==> Passes(table, ops, source) == 0)
      && (i < |ops| ==>
            && ops[i].Admit? && ops[i].sourceId == source
            && Passes(table, ops, source)
               <= BURST_CAPACITY + REFILL_RATE_PER_MS * (EndTime(ops, now) - ops[i].allocMs))
    decreases |ops|
  {
    hide Lookup, Apply, Admits, Valid;
    if ops != [] {
      var op := ops[0];
      var t := Apply(table, op);
      Untracked(table, op, source, now);
      ApplyValid(table, op, now);
      if Lookup(t, source) < |t| {
        ValidLater(table, now, op.allocMs);
        WindowBound(table, ops, source, op.allocMs);
      } else {
        BoundFromAllocation(t, ops[1..], source, op.Ends());
      }
    }
  }

  /**
    For every run from Init: a source that never gets a bucket has nothing admitted; any
    other has had at most 20 + 5 * (t - a) packets admitted by time t, where a is the time
    its first bucket was allocated.  The calls are whole ones; module TokenRace says when a
    refill that is under way at the allocation breaks the bound.
   */
  lemma {:induction false} AdmissionBound(start: nat, ops: seq<Op>, source: nat)
    requires Monotone(ops, start)
    ensures var t0 := InitialTable(start);
      var i := FirstAllocation(t0, ops, source);
      && (i == |ops| ==> Passes(t0, ops, source) == 0)
      && (i < |ops| ==>
            && ops[i].Admit? && ops[i].sourceId == source
            && Passes(t0, ops, source)
               <= BURST_CAPACITY + REFILL_RATE_PER_MS * (EndTime(ops, start) - ops[i].allocMs))
  {
    InitialValid(start);
    BoundFromAllocation(InitialTable(start), ops, source, start);
  }

  lemma ValidLater(table: Table, now: nat, later: nat)
    requires Valid(table, now) && now <= later
    ensures Valid(table, later)
  {
  }

  // ------------------------------------------------------------------
  // Any window: 20 + 5 per millisecond is not the bound, and when it is
  // ------------------------------------------------------------------

  /** n packets of one source at one instant. */
  function Volley(source: nat, now: nat, n: nat): (ops: seq<Op>)
    ensures |ops| == n
  {
    if n == 0 then [] else [Admit(source, now, now)] + Volley(source, now, n - 1)
  }

  lemma {:induction false} VolleyPasses(table: Table, source: nat, now: nat, n: nat)
    requires Valid(table, now) && Lookup(table, source) < |table|
    requires table[Lookup(table, source)].tokens >= n
    ensures var ops, i := Volley(source, now, n), Lookup(table, source);
      var t := Run(table, ops);
      && Monotone(ops, now) && EndTime(ops, now) == now && Passes(table, ops, source) == n
      && Valid(t, now) && Lookup(t, source) == i < |t|
      && t[i].tokens == table[i].tokens - n && t[i].lastRefillMs == table[i].lastRefillMs
    decreases n
  {
    hide Lookup, Apply, Admits, Valid;
    var ops := Volley(source, now, n);
    if n > 0 {
      OnePasses(table, source, now);
      assert ops[1..] == Volley(source, now, n - 1);
      VolleyPasses(Apply(table, ops[0]), source, now, n - 1);
      assert EndTime(ops, now) == now;
    }
  }

  lemma OnePasses(table: Table, source: nat, now: nat)
    requires Valid(table, now) && Lookup(table, source) < |table|
    requires table[Lookup(table, source)].tokens >= 1
    ensures var op, i := Admit(source, now, now), Lookup(table, source);
      var t := Apply(table, op);
      && Admits(table, op, source) == 1 && Valid(t, now) && Lookup(t, source) == i < |t|
      && t[i].tokens == table[i].tokens - 1 && t[i].lastRefillMs == table[i].lastRefillMs
  {
    hide Lookup, FreeSlot;
    var op := Admit(source, now, now);
    ApplyValid(table, op, now);
    LookupIs(Apply(table, op), source, now, Lookup(table, source));
  }

  /** All the room a tracked source has can be used up in one instant: a volley, a refill, a volley. */
  lemma {:induction false} RoomIsReached(table: Table, source: nat, now: nat) returns (ops: seq<Op>)
    requires Valid(table, now) && Lookup(table, source) < |table|
    ensures Monotone(ops, now) && EndTime(ops, now) == now
    ensures Passes(table, ops, source) == Room(table, source, now)
  {
    hide Lookup, Run, Passes, Monotone, Valid, Volley;
    var i := Lookup(table, source);
    SoundAt(table, i, now);
    var n, m := table[i].tokens, Min(BURST_CAPACITY, REFILL_RATE_PER_MS * (now - table[i].lastRefillMs));
    var a, r, b := Volley(source, now, n), [RefillAll(now)], Volley(source, now, m);
    VolleyPasses(table, source, now, n);
    var t1 := Run(table, a);
    RefillOnce(t1, source, now);
    var t2 := Run(t1, r);
    VolleyPasses(t2, source, now, m);
    RunConcat(table, a, r, source);
    RunConcat(table, a + r, b, source);
    MonotoneJoin(a, r, now);
    MonotoneJoin(a + r, b, now);
    ops := a + r + b;
  }

  lemma SoundAt(table: Table, i: nat, now: nat)
    requires Valid(table, now) && i < |table| && table[i].active
    ensures 0 <= table[i].tokens <= BURST_CAPACITY && table[i].lastRefillMs <= now
  {
  }

  lemma RefillOnce(table: Table, source: nat, now: nat)
    requires Valid(table, now) && Lookup(table, source) < |table|
    ensures var r, i := [RefillAll(now)], Lookup(table, source);
      var t := Run(table, r);
      && Monotone(r, now) && EndTime(r, now) == now && Passes(table, r, source) == 0
      && Valid(t, now) && Lookup(t, source) == i < |t|
      && t[i].tokens == Min(BURST_CAPACITY, table[i].tokens + REFILL_RATE_PER_MS * (now - table[i].lastRefillMs))
  {
    hide Lookup;
    var r, i := [RefillAll(now)], Lookup(table, source);
    RefillValid(table, now, now);
    LookupIs(RefillIn(table, now), source, now, i);
    assert r[1..] == [];
    assert Run(table, r) == RefillIn(table, now);
  }

  lemma {:induction false} MonotoneJoin(a: seq<Op>, b: seq<Op>, start: nat)
    requires Monotone(a, start) && Monotone(b, EndTime(a, start))
    ensures Monotone(a + b, start)
    ensures EndTime(a + b, start) == EndTime(b, EndTime(a, start))
    decreases |a|
  {
    if a == [] {
      assert a + b == b;
    } else {
      assert (a + b)[1..] == a[1..] + b;
      MonotoneJoin(a[1..], b, a[0].Ends());
    }
  }

  /**
    Seen from an arbitrary moment, a source stays within 20 + 5 per millisecond on every
    continuation if and only if its tokens and its outstanding refill together do not
    exceed the capacity at that moment.
   */
  lemma WindowBoundExact(table: Table, source: nat, now: nat)
    requires Valid(table, now)
    ensures (forall ops: seq<Op> | Monotone(ops, now) ::
               Passes(table, ops, source) <= BURST_CAPACITY + REFILL_RATE_PER_MS * (EndTime(ops, now) - now))
            <==> Room(table, source, now) <= BURST_CAPACITY
  {
    hide Passes, Lookup, Valid, Monotone;
    if Room(table, source, now) <= BURST_CAPACITY {
      forall ops: seq<Op> | Monotone(ops, now)
        ensures Passes(table, ops, source) <= BURST_CAPACITY + REFILL_RATE_PER_MS * (EndTime(ops, now) - now)
      {
        WindowBound(table, ops, source, now);
      }
    } else {
      var ops := RoomIsReached(table, source, now);
    }
  }

  /** Four milliseconds after a source's first packet, 39 more get through in one instant. */
  lemma WindowBoundFails() returns (ops: seq<Op>)
    ensures var t := Run(InitialTable(0), [Admit(7, 0, 0)]);
      Valid(t, 4) && Monotone(ops, 4) && EndTime(ops, 4) == 4 && Passes(t, ops, 7) == 39
  {
    hide Valid;
    var op, t0 := Admit(7, 0, 0), InitialTable(0);
    var first := [op];
    InitialValid(0);
    ApplyValid(t0, op, 0);
    assert first[1..] == [];
    assert Run(t0, first) == Apply(t0, op);
    var t := Apply(t0, op);
    ValidLater(t, 0, 4);
    assert Lookup(t, 7) == 0;
    ops := RoomIsReached(t, 7, 4);
  }

  /**
    The other side of the bound: after a refill, five packets for every millisecond since the
    previous one get through in one instant, up to 20 of them, whatever was spent before.
   */
  lemma {:induction false} RefillGuarantees(table: Table, i: nat, now: nat, n: nat)
    requires Valid(table, now) && i < |table| && table[i].active
    requires n <= 20 && n <= 5 * (now - table[i].lastRefillMs)
    ensures var source := table[i].sourceId;
      Passes(table, [RefillAll(now)] + Volley(source, now, n), source) == n
  {
    var source := table[i].sourceId;
    LookupIs(table, source, now, i);
    SoundAt(table, i, now);
    RefillOnce(table, source, now);
    VolleyPasses(Run(table, [RefillAll(now)]), source, now, n);
    RunConcat(table, [RefillAll(now)], Volley(source, now, n), source);
  }

  // ------------------------------------------------------------------
  // Refilling
  // ------------------------------------------------------------------

  /** The source keeps its bucket throughout the run. */
  ghost predicate Kept(table: Table, ops: seq<Op>, source: nat)
    decreases |ops|
  {
    Lookup(table, source) < |table| && (ops == [] || Kept(Apply(table, ops[0]), ops[1..], source))
  }

  function BucketOf(table: Table, source: nat): Bucket
    requires Lookup(table, source) < |table|
  {
    table[Lookup(table, source)]
  }

  lemma StepBalance(table: Table, op: Op, source: nat, now: nat)
    requires Valid(table, now) && op.NotBefore(now)
    requires Lookup(table, source) < |table| && Lookup(Apply(table, op), source) < |Apply(table, op)|
    ensures var b, b' := BucketOf(table, source), BucketOf(Apply(table, op), source);
      && b.lastRefillMs <= b'.lastRefillMs
      && Admits(table, op, source) + b'.tokens <= b.tokens + REFILL_RATE_PER_MS * (b'.lastRefillMs - b.lastRefillMs)
  {
    hide Lookup, FreeSlot;
    var i, t' := Lookup(table, source), Apply(table, op);
    ApplyValid(table, op, now);
    var j := Lookup(t', source);
    if op.EvictIdle? {
      assert t'[j].active && t'[j] == table[j];
      LookupIs(table, source, now, j);
    } else {
      assert t'[i].active && t'[i].sourceId == source;
      LookupIs(t', source, op.Ends(), i);
    }
  }

  /** Within one life of a bucket, packets passed and tokens left are at most its first tokens and five per ms. */
  lemma {:induction false} LifetimeBalance(table: Table, ops: seq<Op>, source: nat, now: nat)
    requires Valid(table, now) && Monotone(ops, now) && Kept(table, ops, source)
    ensures Lookup(Run(table, ops), source) < |Run(table, ops)|
    ensures var b, b' := BucketOf(table, source), BucketOf(Run(table, ops), source);
      && b.lastRefillMs <= b'.lastRefillMs
      && Passes(table, ops, source) + b'.tokens
         <= b.tokens + REFILL_RATE_PER_MS * (b'.lastRefillMs - b.lastRefillMs)
    decreases |ops|
  {
    hide Lookup, Apply, Admits, Valid, BucketOf;
    if ops != [] {
      ApplyValid(table, ops[0], now);
      StepBalance(table, ops[0], source, now);
      LifetimeBalance(Apply(table, ops[0]), ops[1..], source, ops[0].Ends());
    }
  }

  /** 1 if the operation turns a packet of the source away for want of tokens. */
  function Drops(table: Table, op: Op, source: nat): nat {
    if op.Admit? && op.sourceId == source && AdmitIn(table, source, op.allocMs, op.seenMs).1 == Err(QueueFull)
    then 1 else 0
  }

  /** Packets of the source turned away during the run. */
  function Dropped(table: Table, ops: seq<Op>, source: nat): nat
    decreases |ops|
  {
    if ops == [] then 0 else Drops(table, ops[0], source) + Dropped(Apply(table, ops[0]), ops[1..], source)
  }

  lemma StepCounts(table: Table, op: Op, source: nat, now: nat)
    requires Valid(table, now) && op.NotBefore(now)
    requires Lookup(table, source) < |table| && Lookup(Apply(table, op), source) < |Apply(table, op)|
    ensures var b, b' := BucketOf(table, source), BucketOf(Apply(table, op), source);
      && b'.passCount == (if Admits(table, op, source) == 1 then Increment32(b.passCount) else b.passCount)
      && b'.dropCount == (if Drops(table, op, source) == 1 then Increment32(b.dropCount) else b.dropCount)
      && (op.Admit? && op.sourceId == source ==> b'.lastSeenMs == op.seenMs)
  {
    hide Lookup, FreeSlot;
    var i, t' := Lookup(table, source), Apply(table, op);
    ApplyValid(table, op, now);
    var j := Lookup(t', source);
    if op.EvictIdle? {
      assert t'[j].active && t'[j] == table[j];
      LookupIs(table, source, now, j);
    } else {
      assert t'[i].active && t'[i].sourceId == source;
      LookupIs(t', source, op.Ends(), i);
    }
  }

  /** Within one life of a bucket its two counters count the packets admitted and the packets turned away. */
  lemma {:induction false} LifetimeCounts(table: Table, ops: seq<Op>, source: nat, now: nat)
    requires Valid(table, now) && Monotone(ops, now) && Kept(table, ops, source)
    requires BucketOf(table, source).passCount + |ops| < TWO_32 && BucketOf(table, source).dropCount + |ops| < TWO_32
    ensures Lookup(Run(table, ops), source) < |Run(table, ops)|
    ensures var b, b' := BucketOf(table, source), BucketOf(Run(table, ops), source);
      && b'.passCount == b.passCount + Passes(table, ops, source)
      && b'.dropCount == b.dropCount + Dropped(table, ops, source)
    decreases |ops|
  {
    hide Lookup, Apply, AdmitIn, Valid, BucketOf;
    if ops != [] {
      ApplyValid(table, ops[0], now);
      StepCounts(table, ops[0], source, now);
      LifetimeCounts(Apply(table, ops[0]), ops[1..], source, ops[0].Ends());
    }
  }

  /** A source whose last packet, admitted or turned away, is at most 5000 ms old keeps its bucket. */
  lemma SeenSourceStays(table: Table, op: Op, t: nat, now: nat)
    requires Valid(table, now) && op.NotBefore(now) && op.Admit? && op.seenMs <= t <= op.seenMs + 5000
    requires AdmitIn(table, op.sourceId, op.allocMs, op.seenMs).1 != Err(RegistryFull)
    ensures Tracked(Run(table, [op, EvictIdle(t)]), op.sourceId)
  {
    hide FreeSlot, Lookup, Valid;
    var ops := [op, EvictIdle(t)];
    var b := Apply(table, op);
    ApplyValid(table, op, now);
    var a := AllocateIn(table, op.sourceId, op.allocMs);
    var i := Lookup(a, op.sourceId);
    assert b[i].active && b[i].sourceId == op.sourceId && b[i].lastSeenMs == op.seenMs;
    ValidSize(b, op.seenMs);
    EvictExactly(b, i, t, op.seenMs);
    assert ops[1..] == [EvictIdle(t)] && ops[1..][1..] == [];
    var c := Apply(b, EvictIdle(t));
    assert Run(table, ops) == Run(b, ops[1..]) == Run(c, []) == c;
    assert c[i] == b[i];
  }

  lemma ValidSize(table: Table, now: nat)
    requires Valid(table, now)
    ensures |table| == 32
  {
  }

  function RefillAt(b: Bucket, times: seq<nat>): Bucket
    decreases |times|
  {
    if times == [] then b else RefillAt(Refilled(b, times[0]), times[1..])
  }

  /** Without packets in between, any schedule of refills ends like one refill at the last instant. */
  lemma {:induction false} RefillSchedule(b: Bucket, times: seq<nat>)
    requires times != [] && forall i, j :: 0 <= i < j < |times| ==> times[i] <= times[j]
    ensures RefillAt(b, times) == Refilled(b, times[|times| - 1])
    decreases |times|
  {
    var rest := times[1..];
    if rest != [] {
      RefillSchedule(Refilled(b, times[0]), rest);
      var last := times[|times| - 1];
      assert rest[|rest| - 1] == last && times[0] <= last;
    } else {
      assert RefillAt(Refilled(b, times[0]), rest) == Refilled(b, times[0]);
    }
  }
}
