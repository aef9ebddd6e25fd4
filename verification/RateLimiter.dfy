/** The class of src/RateLimiter.cpp: the loops over the source table, in place. */
module RateLimiter {
  import opened GatewayTypes
  import opened TokenBuckets

  class Limiter {
    const buckets: array<Bucket>
    var initialised: bool

    constructor ()
      ensures !initialised && fresh(buckets) && InRange()
    {
      buckets := new Bucket[MAX_TRACKED_SOURCES](_ => Bucket(INVALID_SOURCE_ID, BURST_CAPACITY, 0, 0, 0, 0, false));
      initialised := false;
    }

    /** Every active bucket holds between 0 and 20 tokens. */
    ghost predicate InRange()
      reads this, buckets
    {
      && buckets.Length == MAX_TRACKED_SOURCES
      && forall i :: 0 <= i < buckets.Length && buckets[i].active ==> 0 <= buckets[i].tokens <= BURST_CAPACITY
    }

    /** src/RateLimiter.cpp, Init. */
    method Init(now: nat) returns (r: VoidResult)
      requires buckets.Length == MAX_TRACKED_SOURCES
      modifies this`initialised, buckets
      ensures initialised
      ensures r == if old(initialised) then Err(AlreadyRegistered) else Ok
      ensures r == Ok ==> buckets[..] == InitialTable(now) && InRange()
      ensures r != Ok ==> unchanged(buckets)
    {
      if initialised { return Err(AlreadyRegistered); }
      initialised := true;
      var i := 0;
      while i < MAX_TRACKED_SOURCES
        invariant 0 <= i <= MAX_TRACKED_SOURCES && initialised
        invariant forall k :: 0 <= k < i ==> buckets[k] == InitialTable(now)[k]
      {
        buckets[i] := Bucket(INVALID_SOURCE_ID, BURST_CAPACITY, now, now, 0, 0, false);
        i := i + 1;
      }
      assert buckets[..] == InitialTable(now);
      return Ok;
    }

    /** src/RateLimiter.cpp, FindOrAllocate: MAX_TRACKED_SOURCES when the table is full. */
    method FindOrAllocate(sourceId: nat, now: nat) returns (idx: nat)
      requires InRange()
      modifies buckets
      ensures InRange()
      ensures buckets[..] == AllocateIn(old(buckets[..]), sourceId, now)
      ensures idx == Lookup(buckets[..], sourceId)
    {
      hide Lookup, FreeSlot;
      ghost var before := buckets[..];
      var i := 0;
      while i < MAX_TRACKED_SOURCES
        invariant 0 <= i <= MAX_TRACKED_SOURCES && buckets[..] == before
        invariant forall k :: 0 <= k < i ==> !(buckets[k].active && buckets[k].sourceId == sourceId)
      {
        if buckets[i].active && buckets[i].sourceId == sourceId {
          assert before[i].active;
          return i;
        }
        i := i + 1;
      }
      i := 0;
      while i < MAX_TRACKED_SOURCES
        invariant 0 <= i <= MAX_TRACKED_SOURCES && buckets[..] == before
        invariant forall k :: 0 <= k < i ==> before[k].active
      {
        if !buckets[i].active {
          assert FreeSlot(before) == i;
          buckets[i] := Opened(sourceId, now);
          assert buckets[..] == before[i := Opened(sourceId, now)];
          return i;
        }
        i := i + 1;
      }
      return MAX_TRACKED_SOURCES;
    }

    /** src/RateLimiter.cpp, RefillBucket: the 1000 ms clamp never changes the result. */
    method RefillBucket(i: nat, now: nat)
      requires InRange() && i < buckets.Length && buckets[i].active
      modifies buckets
      ensures buckets[..] == old(buckets[..])[i := Refilled(old(buckets[i]), now)]
    {
      var lastMs := buckets[i].lastRefillMs;
      if now <= lastMs { return; }
      var elapsedMs := now - lastMs;
      var clampedMs := if elapsedMs > 1000 then 1000 else elapsedMs;
      var newTokens := clampedMs * REFILL_RATE_PER_MS;
      var current := buckets[i].tokens;
      var updated := if current + newTokens > BURST_CAPACITY then BURST_CAPACITY else current + newTokens;
      buckets[i] := buckets[i].(tokens := updated);
      buckets[i] := buckets[i].(lastRefillMs := now);
    }

    /** src/RateLimiter.cpp, Admit. */
    method Admit(sourceId: nat, allocMs: nat, seenMs: nat) returns (r: VoidResult)
      requires InRange()
      modifies buckets
      ensures InRange()
      ensures r == if !initialised then Err(NotInitialized)
                   else AdmitIn(old(buckets[..]), sourceId, allocMs, seenMs).1
      ensures buckets[..] == if !initialised then old(buckets[..])
                             else AdmitIn(old(buckets[..]), sourceId, allocMs, seenMs).0
    {
      hide Lookup, FreeSlot, AllocateIn;
      if !initialised { return Err(NotInitialized); }
      var idx := FindOrAllocate(sourceId, allocMs);
      if idx >= MAX_TRACKED_SOURCES { return Err(RegistryFull); }
      ghost var t := buckets[..];
      buckets[idx] := buckets[idx].(lastSeenMs := seenMs);
      var current := buckets[idx].tokens;
      if current <= 0 {
        buckets[idx] := buckets[idx].(dropCount := Increment32(buckets[idx].dropCount));
        assert buckets[..] == t[idx := Charged(t[idx], seenMs)];
        return Err(QueueFull);
      }
      buckets[idx] := buckets[idx].(tokens := current - 1);
      buckets[idx] := buckets[idx].(passCount := Increment32(buckets[idx].passCount));
      assert buckets[..] == t[idx := Charged(t[idx], seenMs)];
      return Ok;
    }

    /** src/RateLimiter.cpp, RefillAll. */
    method RefillAll(now: nat)
      requires InRange()
      modifies buckets
      ensures InRange()
      ensures buckets[..] == if initialised then RefillIn(old(buckets[..]), now) else old(buckets[..])
    {
      if !initialised { return; }
      ghost var before := buckets[..];
      var i := 0;
      while i < MAX_TRACKED_SOURCES
        invariant 0 <= i <= MAX_TRACKED_SOURCES && InRange()
        invariant forall k :: 0 <= k < i ==> buckets[k] == RefillIn(before, now)[k]
        invariant forall k :: i <= k < MAX_TRACKED_SOURCES ==> buckets[k] == before[k]
      {
        if buckets[i].active {
          ghost var mid := buckets[..];
          RefillBucket(i, now);
          assert forall k :: 0 <= k < MAX_TRACKED_SOURCES && k != i ==> buckets[k] == mid[k];
          assert buckets[i] == Refilled(before[i], now);
        }
        i := i + 1;
      }
    }

    /** src/RateLimiter.cpp, EvictIdle. */
    method EvictIdle(now: nat)
      requires InRange()
      modifies buckets
      ensures InRange()
      ensures buckets[..] == if initialised then EvictIn(old(buckets[..]), now) else old(buckets[..])
    {
      if !initialised { return; }
      ghost var before := buckets[..];
      var i := 0;
      while i < MAX_TRACKED_SOURCES
        invariant 0 <= i <= MAX_TRACKED_SOURCES
        invariant InRange()
        invariant forall k :: 0 <= k < i ==> buckets[k] == EvictIn(before, now)[k]
        invariant forall k :: i <= k < MAX_TRACKED_SOURCES ==> buckets[k] == before[k]
      {
        if buckets[i].active {
          var lastSeen := buckets[i].lastSeenMs;
          if now >= lastSeen && now - lastSeen > SOURCE_EVICT_AFTER_MS {
            buckets[i] := buckets[i].(sourceId := INVALID_SOURCE_ID);
            buckets[i] := buckets[i].(tokens := BURST_CAPACITY);
            buckets[i] := buckets[i].(dropCount := 0);
            buckets[i] := buckets[i].(passCount := 0);
            buckets[i] := buckets[i].(active := false);
          }
        }
        i := i + 1;
      }
    }
  }
}
