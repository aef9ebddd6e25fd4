/**
  The liveness table of src/DeadSubscriberMonitor.cpp.  An on-death callback may call back
  into the monitor: the calls that the n-th callback of a scan makes are an input of the
  scan, with clock readings not before the scan's own.
 */
module DeadSubscriberMonitor {
  import opened GatewayTypes

  const MAX_MONITORED_SUBS: nat := 32
  const HEARTBEAT_INTERVAL_MS: nat := 500
  const DEAD_TIMEOUT_MS: nat := 2000
  const INVALID_SERVICE_ID: nat := 0xFFFF

  datatype Health = Alive | Warning | Dead

  /** A callback is known by a number; 0 stands for the null pointer. */
  datatype Entry = Entry(
    serviceId: nat, eventId: nat, lastBeatMs: nat, health: Health, onDead: nat, active: bool)

  type Table = seq<Entry>

  predicate HasKey(e: Entry, serviceId: nat, eventId: nat) {
    e.active && e.serviceId == serviceId && e.eventId == eventId
  }

  /** The first active entry with the key, or |table|. */
  function Find(table: Table, serviceId: nat, eventId: nat): (i: nat)
    ensures i <= |table|
    ensures i < |table| ==> HasKey(table[i], serviceId, eventId)
    ensures forall k :: 0 <= k < i ==> !HasKey(table[k], serviceId, eventId)
  {
    if table == [] || HasKey(table[0], serviceId, eventId) then 0
    else
      var i := Find(table[1..], serviceId, eventId);
      assert forall k :: 1 <= k <= i ==> table[k] == table[1..][k - 1];
      i + 1
  }

  function FreeEntry(table: Table): (i: nat)
    ensures i <= |table|
    ensures i < |table| ==> !table[i].active
    ensures forall k :: 0 <= k < i ==> table[k].active
  {
    if table == [] || !table[0].active then 0
    else
      var i := FreeEntry(table[1..]);
      assert forall k :: 1 <= k <= i ==> table[k] == table[1..][k - 1];
      i + 1
  }

  // ------------------------------------------------------------------
  // Calls on the table
  // ------------------------------------------------------------------

  datatype Call =
    | Register(serviceId: nat, eventId: nat, onDead: nat, now: nat)
    | Heartbeat(serviceId: nat, eventId: nat, now: nat)
    | Deregister(serviceId: nat, eventId: nat)

  function Freed(e: Entry): Entry {
    e.(serviceId := INVALID_SERVICE_ID, eventId := 0, onDead := 0, active := false)
  }

  function Effect(table: Table, call: Call): (Table, VoidResult) {
    match call
    case Register(s, e, onDead, now) =>
      if onDead == 0 then (table, Err(NullPointer))
      else if Find(table, s, e) < |table| then (table, Err(AlreadyRegistered))
      else
        var i := FreeEntry(table);
        if i < |table| then (table[i := Entry(s, e, now, Alive, onDead, true)], Ok)
        else (table, Err(RegistryFull))
    case Heartbeat(s, e, now) =>
      var i := Find(table, s, e);
      if i < |table| then (table[i := table[i].(lastBeatMs := now, health := Alive)], Ok)
      else (table, Err(ServiceNotFound))
    case Deregister(s, e) =>
      var i := Find(table, s, e);
      if i < |table| then (table[i := Freed(table[i])], Ok) else (table, Err(ServiceNotFound))
  }

  /** No two active entries share a key; every active entry has a callback and is not marked dead. */
  ghost predicate Valid(table: Table) {
    && |table| == MAX_MONITORED_SUBS
    && (forall i :: 0 <= i < |table| && table[i].active ==> table[i].onDead != 0 && table[i].health != Dead)
    && (forall i, j :: 0 <= i < j < |table| && table[i].active && table[j].active
          ==> table[i].serviceId != table[j].serviceId || table[i].eventId != table[j].eventId)
  }

  lemma EffectValid(table: Table, call: Call)
    requires Valid(table)
    ensures Valid(Effect(table, call).0)
  {
    hide Find, FreeEntry;
    if call.Register? {
      var i := FreeEntry(table);
      assert forall k :: 0 <= k < |table| && Find(table, call.serviceId, call.eventId) == |table|
                         ==> !HasKey(table[k], call.serviceId, call.eventId);
    }
  }

  /** Active entries among the first n with the given health. */
  function CountOf(table: Table, n: nat, health: Health): nat
    requires n <= |table|
  {
    if n == 0 then 0
    else CountOf(table, n - 1, health) + (if table[n - 1].active && table[n - 1].health == health then 1 else 0)
  }

  /** A dead entry is freed in the same breath, so none is ever counted. */
  lemma {:induction false} NoneDead(table: Table, n: nat)
    requires Valid(table) && n <= |table|
    ensures CountOf(table, n, Dead) == 0
    decreases n
  {
    if n > 0 { NoneDead(table, n - 1); }
  }

  // ------------------------------------------------------------------
  // The scan without callbacks
  // ------------------------------------------------------------------

  predicate Stale(e: Entry, now: nat) {
    e.active && now >= e.lastBeatMs && now - e.lastBeatMs > DEAD_TIMEOUT_MS
  }

  function ScannedEntry(e: Entry, now: nat): Entry {
    if Stale(e, now) then Freed(e).(health := Dead)
    else if e.active && now >= e.lastBeatMs && now - e.lastBeatMs > HEARTBEAT_INTERVAL_MS then e.(health := Warning)
    else e
  }

  /** One eviction: where the entry stood, and the entry itself. */
  datatype Eviction = Eviction(index: nat, entry: Entry)

  /** The stale entries among the first n, in table order. */
  function StaleAmong(table: Table, now: nat, n: nat): (r: seq<Eviction>)
    requires n <= |table|
  {
    if n == 0 then []
    else StaleAmong(table, now, n - 1)
         + (if Stale(table[n - 1], now) then [Eviction(n - 1, table[n - 1])] else [])
  }

  // ------------------------------------------------------------------
  // The scan with callbacks
  // ------------------------------------------------------------------

  /** The table after the calls, made one after the other. */
  function CallsOn(table: Table, calls: seq<Call>): (t: Table)
    ensures |t| == |table|
  {
    if calls == [] then table
    else
      var most := |calls| - 1;
      Effect(CallsOn(table, calls[..most]), calls[most]).0
  }

  lemma NextCall(table: Table, calls: seq<Call>, k: nat)
    requires k < |calls|
    ensures CallsOn(table, calls[..k + 1]) == Effect(CallsOn(table, calls[..k]), calls[k]).0
  {
    assert calls[..k + 1][..k] == calls[..k];
  }

  lemma NoCallsMade(table: Table)
    ensures CallsOn(table, []) == table
  {
  }

  /** The calls of the n-th callback; a scan may see more callbacks than the script describes. */
  function CallsOfNth(script: seq<seq<Call>>, n: nat): seq<Call> {
    if n < |script| then script[n] else []
  }

  /** One pass of the scan's loop: entry i is looked at, and a callback may make calls. */
  function Passed(table: Table, i: nat, now: nat, calls: seq<Call>): (t: Table)
    requires i < |table|
    ensures |t| == |table|
  {
    var t := table[i := ScannedEntry(table[i], now)];
    if Stale(table[i], now) && table[i].onDead != 0 then CallsOn(t, calls) else t
  }

  datatype Progress = Progress(table: Table, evictions: seq<Eviction>)

  /** The pass over entry i of a scan that has come to p. */
  function OnePass(p: Progress, i: nat, now: nat, script: seq<seq<Call>>): (q: Progress)
    requires i < |p.table|
    ensures |q.table| == |p.table|
  {
    Progress(Passed(p.table, i, now, CallsOfNth(script, |p.evictions|)),
             if Stale(p.table[i], now) then p.evictions + [Eviction(i, p.table[i])] else p.evictions)
  }

  /** The first n passes of a scan. */
  function Scanning(start: Table, n: nat, now: nat, script: seq<seq<Call>>): (p: Progress)
    requires n <= |start|
    ensures |p.table| == |start|
  {
    if n == 0 then Progress(start, []) else OnePass(Scanning(start, n - 1, now, script), n - 1, now, script)
  }

  // ------------------------------------------------------------------
  // What calls made during a scan cannot undo
  // ------------------------------------------------------------------

  /** Equal up to the health field. */
  predicate SameEntry(a: Entry, b: Entry) {
    a == b.(health := a.health)
  }

  /** Each active entry was already there at the start of the scan, or has been written since. */
  ghost predicate SinceStart(table: Table, start: Table, now: nat)
    requires |table| == |start|
  {
    forall k :: 0 <= k < |table| && table[k].active ==> SameEntry(table[k], start[k]) || table[k].lastBeatMs >= now
  }

  /** Calls whose clock readings are not before the scan's. */
  ghost predicate NotBefore(calls: seq<Call>, now: nat) {
    forall k :: 0 <= k < |calls| ==> !calls[k].Deregister? ==> calls[k].now >= now
  }

  lemma EffectSinceStart(table: Table, start: Table, now: nat, call: Call)
    requires |table| == |start| && SinceStart(table, start, now)
    requires !call.Deregister? ==> call.now >= now
    ensures var t := Effect(table, call).0; |t| == |table| && SinceStart(t, start, now)
  {
    hide Find, FreeEntry;
  }

  /** The entries the scan has passed are not stale. */
  ghost predicate FreshBelow(table: Table, n: nat, now: nat)
    requires n <= |table|
  {
    forall k :: 0 <= k < n ==> !Stale(table[k], now)
  }

  lemma EffectFresh(table: Table, n: nat, now: nat, call: Call)
    requires n <= |table| && FreshBelow(table, n, now)
    requires !call.Deregister? ==> call.now >= now
    ensures |Effect(table, call).0| == |table| && FreshBelow(Effect(table, call).0, n, now)
  {
    hide Find, FreeEntry;
  }

  lemma BeginScan(table: Table, now: nat)
    ensures SinceStart(table, table, now) && FreshBelow(table, 0, now) && StaleAmong(table, now, 0) == []
  {
  }

  lemma BeginEvictions(start: Table, now: nat)
    ensures StaleAtStart([], start, now, 0) && StaleAtStart([], start, now, |start|) && CallsFor([]) == []
  {
  }

  lemma BeginScanning(start: Table, now: nat, script: seq<seq<Call>>)
    ensures Scanning(start, 0, now, script) == Progress(start, [])
  {
  }

  lemma ScanningNext(start: Table, i: nat, now: nat, script: seq<seq<Call>>)
    requires i < |start|
    ensures Scanning(start, i + 1, now, script) == OnePass(Scanning(start, i, now, script), i, now, script)
  {
    hide OnePass;
  }

  /** Without calls from the callbacks every entry is judged as it stood when the scan began. */
  lemma {:induction false} QuietScan(start: Table, n: nat, now: nat)
    requires n <= |start|
    ensures var p := Scanning(start, n, now, []);
      && p.evictions == StaleAmong(start, now, n)
      && (forall k :: 0 <= k < n ==> p.table[k] == ScannedEntry(start[k], now))
      && (forall k :: n <= k < |start| ==> p.table[k] == start[k])
    decreases n
  {
    if n > 0 {
      QuietScan(start, n - 1, now);
      hide Stale, ScannedEntry;
      NoCalls(Scanning(start, n - 1, now, []).table, n - 1, now);
    }
  }

  lemma NthNotBefore(script: seq<seq<Call>>, n: nat, now: nat)
    requires forall m :: 0 <= m < |script| ==> NotBefore(script[m], now)
    ensures NotBefore(CallsOfNth(script, n), now)
  {
  }

  lemma NoCalls(table: Table, i: nat, now: nat)
    requires i < |table|
    ensures Passed(table, i, now, []) == table[i := ScannedEntry(table[i], now)]
  {
  }

  lemma PassFresh(table: Table, i: nat, now: nat)
    requires i < |table| && FreshBelow(table, i, now)
    ensures !Stale(table[i], now) ==> FreshBelow(table, i + 1, now)
  {
  }

  /** A stale entry cannot have been written during the scan. */
  lemma FromStart(table: Table, start: Table, now: nat, i: nat)
    requires |table| == |start| && SinceStart(table, start, now) && i < |table|
    ensures Stale(table[i], now) ==> SameEntry(table[i], start[i])
  {
  }

  lemma WarnKeeps(table: Table, start: Table, now: nat, i: nat)
    requires |table| == |start| && i < |table| && SinceStart(table, start, now) && FreshBelow(table, i, now)
    requires Valid(table) && !Stale(table[i], now)
    ensures var t := table[i := table[i].(health := Warning)];
      SinceStart(t, start, now) && FreshBelow(t, i + 1, now) && Valid(t)
  {
  }

  lemma FreeKeeps(table: Table, start: Table, now: nat, i: nat)
    requires |table| == |start| && i < |table| && SinceStart(table, start, now) && FreshBelow(table, i, now)
    requires Valid(table) && Stale(table[i], now)
    ensures var t := table[i := ScannedEntry(table[i], now)];
      SinceStart(t, start, now) && FreshBelow(t, i + 1, now) && Valid(t)
  {
  }

  /** The callbacks that evictions give rise to. */
  function CallsFor(evictions: seq<Eviction>): (r: seq<(nat, nat, nat)>)
    ensures |r| == |evictions|
  {
    seq(|evictions|, n requires 0 <= n < |evictions| =>
      (evictions[n].entry.onDead, evictions[n].entry.serviceId, evictions[n].entry.eventId))
  }

  /** Stale entries of the start table among its first n, in table order, each at most once. */
  ghost predicate StaleAtStart(evictions: seq<Eviction>, start: Table, now: nat, n: nat)
    requires n <= |start|
  {
    && (forall k :: 0 <= k < |evictions| ==>
          && evictions[k].index < n && Stale(evictions[k].entry, now)
          && SameEntry(evictions[k].entry, start[evictions[k].index]))
    && (forall k, l :: 0 <= k < l < |evictions| ==> evictions[k].index < evictions[l].index)
  }

  lemma StaleAtStartGrows(evictions: seq<Eviction>, start: Table, now: nat, n: nat, e: Entry)
    requires n < |start| && StaleAtStart(evictions, start, now, n)
    ensures StaleAtStart(evictions, start, now, n + 1)
    ensures Stale(e, now) && SameEntry(e, start[n]) ==> StaleAtStart(evictions + [Eviction(n, e)], start, now, n + 1)
    ensures CallsFor(evictions + [Eviction(n, e)]) == CallsFor(evictions) + [(e.onDead, e.serviceId, e.eventId)]
  {
  }

  lemma AllFresh(table: Table, now: nat)
    requires FreshBelow(table, |table|, now)
    ensures forall k :: 0 <= k < |table| ==> !Stale(table[k], now)
  {
  }

  class Monitor {
    const entries: array<Entry>
    var evictedTotal: nat
    var initialised: bool
    ghost var evictions: seq<Eviction>
    ghost var callbacks: seq<(nat, nat, nat)>

    constructor ()
      ensures fresh(entries) && !initialised && Good() && evictions == [] && callbacks == []
    {
      entries := new Entry[MAX_MONITORED_SUBS](_ => Entry(INVALID_SERVICE_ID, 0, 0, Alive, 0, false));
      evictedTotal, initialised := 0, false;
      evictions, callbacks := [], [];
    }

    ghost predicate Good()
      reads this, entries
    {
      Valid(entries[..]) && evictedTotal < TWO_32
    }

    /** src/DeadSubscriberMonitor.cpp, Init. */
    method Init(now: nat) returns (r: VoidResult)
      requires Good()
      modifies `evictedTotal, `initialised, entries
      ensures Good() && initialised
      ensures r == if old(initialised) then Err(AlreadyRegistered) else Ok
      ensures r == Ok ==> evictedTotal == 0 && forall i :: 0 <= i < entries.Length ==>
                            entries[i] == Entry(INVALID_SERVICE_ID, 0, now, Alive, 0, false)
      ensures r != Ok ==> evictedTotal == old(evictedTotal) && entries[..] == old(entries[..])
    {
      if initialised { return Err(AlreadyRegistered); }
      initialised := true;
      forall i | 0 <= i < entries.Length { entries[i] := Entry(INVALID_SERVICE_ID, 0, now, Alive, 0, false); }
      evictedTotal := 0;
      return Ok;
    }

    /** src/DeadSubscriberMonitor.cpp, FindIndex. */
    method FindIndex(serviceId: nat, eventId: nat) returns (idx: nat)
      ensures idx == Find(entries[..], serviceId, eventId)
    {
      hide Find;
      idx := 0;
      while idx < entries.Length
        invariant 0 <= idx <= entries.Length
        invariant forall k :: 0 <= k < idx ==> !HasKey(entries[k], serviceId, eventId)
      {
        if entries[idx].active && entries[idx].serviceId == serviceId && entries[idx].eventId == eventId {
          assert HasKey(entries[..][idx], serviceId, eventId);
          return;
        }
        idx := idx + 1;
      }
    }

    /** src/DeadSubscriberMonitor.cpp, Register. */
    method RegisterSubscriber(serviceId: nat, eventId: nat, onDead: nat, now: nat) returns (r: VoidResult)
      requires Good()
      modifies entries
      ensures Good()
      ensures r == if !initialised then Err(NotInitialized)
                   else Effect(old(entries[..]), Register(serviceId, eventId, onDead, now)).1
      ensures entries[..] == if !initialised then old(entries[..])
                             else Effect(old(entries[..]), Register(serviceId, eventId, onDead, now)).0
    {
      hide Find, FreeEntry;
      if !initialised { return Err(NotInitialized); }
      if onDead == 0 { return Err(NullPointer); }
      ghost var before := entries[..];
      EffectValid(before, Register(serviceId, eventId, onDead, now));
      var dummy := FindIndex(serviceId, eventId);
      if dummy < entries.Length { return Err(AlreadyRegistered); }
      var i := 0;
      while i < entries.Length
        invariant 0 <= i <= entries.Length && entries[..] == before
        invariant forall k :: 0 <= k < i ==> before[k].active
      {
        if !entries[i].active {
          assert FreeEntry(before) == i;
          entries[i] := Entry(serviceId, eventId, now, Alive, onDead, true);
          assert entries[..] == before[i := Entry(serviceId, eventId, now, Alive, onDead, true)];
          return Ok;
        }
        i := i + 1;
      }
      return Err(RegistryFull);
    }

    /** src/DeadSubscriberMonitor.cpp, RecordHeartbeat. */
    method RecordHeartbeat(serviceId: nat, eventId: nat, now: nat) returns (r: VoidResult)
      requires Good()
      modifies entries
      ensures Good()
      ensures r == if !initialised then Err(NotInitialized)
                   else Effect(old(entries[..]), Heartbeat(serviceId, eventId, now)).1
      ensures entries[..] == if !initialised then old(entries[..])
                             else Effect(old(entries[..]), Heartbeat(serviceId, eventId, now)).0
    {
      hide Find;
      if !initialised { return Err(NotInitialized); }
      ghost var before := entries[..];
      EffectValid(before, Heartbeat(serviceId, eventId, now));
      var idx := FindIndex(serviceId, eventId);
      if idx >= entries.Length { return Err(ServiceNotFound); }
      entries[idx] := entries[idx].(lastBeatMs := now);
      entries[idx] := entries[idx].(health := Alive);
      assert entries[..] == before[idx := before[idx].(lastBeatMs := now, health := Alive)];
      return Ok;
    }

    /** src/DeadSubscriberMonitor.cpp, Deregister. */
    method DeregisterSubscriber(serviceId: nat, eventId: nat) returns (r: VoidResult)
      requires Good()
      modifies entries
      ensures Good()
      ensures r == if !initialised then Err(NotInitialized)
                   else Effect(old(entries[..]), Deregister(serviceId, eventId)).1
      ensures entries[..] == if !initialised then old(entries[..])
                             else Effect(old(entries[..]), Deregister(serviceId, eventId)).0
    {
      hide Find;
      if !initialised { return Err(NotInitialized); }
      ghost var before := entries[..];
      EffectValid(before, Deregister(serviceId, eventId));
      var idx := FindIndex(serviceId, eventId);
      if idx >= entries.Length { return Err(ServiceNotFound); }
      FreeSlot(idx);
      return Ok;
    }

    /** src/DeadSubscriberMonitor.cpp, GetStats: between calls the count of dead entries is always zero. */
    method GetStats() returns (totalActive: nat, totalAlive: nat, totalWarning: nat, totalDead: nat)
      requires Good()
      ensures totalAlive == CountOf(entries[..], entries.Length, Alive)
      ensures totalWarning == CountOf(entries[..], entries.Length, Warning)
      ensures totalDead == 0 && totalActive == totalAlive + totalWarning
    {
      totalActive, totalAlive, totalWarning, totalDead := 0, 0, 0, 0;
      var i := 0;
      while i < entries.Length
        invariant 0 <= i <= entries.Length
        invariant totalAlive == CountOf(entries[..], i, Alive)
        invariant totalWarning == CountOf(entries[..], i, Warning)
        invariant totalDead == CountOf(entries[..], i, Dead)
        invariant totalActive == totalAlive + totalWarning + totalDead
      {
        if entries[i].active {
          totalActive := totalActive + 1;
          match entries[i].health {
            case Alive => totalAlive := totalAlive + 1;
            case Warning => totalWarning := totalWarning + 1;
            case Dead => totalDead := totalDead + 1;
          }
        }
        i := i + 1;
      }
      NoneDead(entries[..], entries.Length);
    }

    method FreeSlot(idx: nat)
      requires idx < entries.Length
      modifies entries
      ensures entries[..] == old(entries[..])[idx := Freed(old(entries[idx]))]
    {
      entries[idx] := entries[idx].(serviceId := INVALID_SERVICE_ID);
      entries[idx] := entries[idx].(eventId := 0);
      entries[idx] := entries[idx].(onDead := 0);
      entries[idx] := entries[idx].(active := false);
    }

    /** An on-death callback: it makes its calls on the monitor one after the other. */
    method Callback(calls: seq<Call>, ghost start: Table, ghost passed: nat, ghost now: nat)
      requires Good() && initialised && NotBefore(calls, now)
      requires |start| == entries.Length && SinceStart(entries[..], start, now)
      requires passed <= entries.Length && FreshBelow(entries[..], passed, now)
      modifies entries
      ensures Good() && SinceStart(entries[..], start, now) && FreshBelow(entries[..], passed, now)
      ensures entries[..] == CallsOn(old(entries[..]), calls)
    {
      hide Effect, SinceStart, FreshBelow, Valid, CallsOn;
      ghost var before := entries[..];
      assert CallsOn(before, calls[..0]) == before by { NoCallsMade(before); }
      var k := 0;
      while k < |calls|
        invariant 0 <= k <= |calls| && Good()
        invariant SinceStart(entries[..], start, now) && FreshBelow(entries[..], passed, now)
        invariant entries[..] == CallsOn(before, calls[..k])
      {
        var call := calls[k];
        NextCall(before, calls, k);
        EffectSinceStart(entries[..], start, now, call);
        EffectFresh(entries[..], passed, now, call);
        match call {
          case Register(s, e, onDead, t) => var _ := RegisterSubscriber(s, e, onDead, t);
          case Heartbeat(s, e, t) => var _ := RecordHeartbeat(s, e, t);
          case Deregister(s, e) => var _ := DeregisterSubscriber(s, e);
        }
        k := k + 1;
      }
      assert calls[..k] == calls;
    }

    /** The death branch of the scan: mark, free the slot, call back, count. */
    method Evict(i: nat, calls: seq<Call>, ghost start: Table, ghost now: nat)
      requires Good() && initialised && i < entries.Length && Stale(entries[i], now)
      requires |start| == entries.Length && SinceStart(entries[..], start, now) && FreshBelow(entries[..], i, now)
      requires NotBefore(calls, now)
      modifies `evictedTotal, `evictions, `callbacks, entries
      ensures Good() && SinceStart(entries[..], start, now) && FreshBelow(entries[..], i + 1, now)
      ensures evictedTotal == Increment32(old(evictedTotal))
      ensures evictions == old(evictions) + [Eviction(i, old(entries[i]))]
      ensures callbacks == old(callbacks) +
        [(old(entries[i]).onDead, old(entries[i]).serviceId, old(entries[i]).eventId)]
      ensures entries[..] == Passed(old(entries[..]), i, now, calls)
    {
      ghost var before := entries[..];
      FreeKeeps(before, start, now, i);
      assert before[i].onDead != 0;
      hide SinceStart, FreshBelow, Valid, CallsOn;
      entries[i] := entries[i].(health := Dead);
      var cb, sid, eid := entries[i].onDead, entries[i].serviceId, entries[i].eventId;
      FreeSlot(i);
      evictions := evictions + [Eviction(i, before[i])];
      assert entries[..] == before[i := ScannedEntry(before[i], now)];
      if cb != 0 {
        callbacks := callbacks + [(cb, sid, eid)];
        Callback(calls, start, i + 1, now);
      }
      evictedTotal := Increment32(evictedTotal);
    }

    /** One pass of the scan's loop. */
    method ScanOne(i: nat, calls: seq<Call>, ghost start: Table, now: nat) returns (died: bool)
      requires Good() && initialised && i < entries.Length && NotBefore(calls, now)
      requires |start| == entries.Length && SinceStart(entries[..], start, now) && FreshBelow(entries[..], i, now)
      modifies `evictedTotal, `evictions, `callbacks, entries
      ensures Good() && SinceStart(entries[..], start, now) && FreshBelow(entries[..], i + 1, now)
      ensures died == Stale(old(entries[i]), now)
      ensures died ==>
        && SameEntry(old(entries[i]), start[i])
        && evictedTotal == Increment32(old(evictedTotal))
        && evictions == old(evictions) + [Eviction(i, old(entries[i]))]
        && callbacks == old(callbacks) +
             [(old(entries[i]).onDead, old(entries[i]).serviceId, old(entries[i]).eventId)]
      ensures !died ==>
        evictedTotal == old(evictedTotal) && evictions == old(evictions) && callbacks == old(callbacks)
      ensures entries[..] == Passed(old(entries[..]), i, now, calls)
    {
      hide SinceStart, FreshBelow, Valid, CallsOn;
      ghost var before := entries[..];
      PassFresh(before, i, now);
      died := false;
      if !entries[i].active { return; }
      var lastBeat := entries[i].lastBeatMs;
      if now < lastBeat { return; }
      var ageMs := now - lastBeat;
      if ageMs > DEAD_TIMEOUT_MS {
        FromStart(before, start, now, i);
        Evict(i, calls, start, now);
        died := true;
      } else if ageMs > HEARTBEAT_INTERVAL_MS {
        WarnKeeps(before, start, now, i);
        entries[i] := entries[i].(health := Warning);
        assert entries[..] == before[i := before[i].(health := Warning)];
      }
    }

    /**
      src/DeadSubscriberMonitor.cpp, ScanAndEvict; the n-th callback makes the calls script[n].

      Only entries silent for over 2000 ms are evicted; each was in the table, unchanged,
      when the scan began, so none registered or refreshed during the scan is; there is one
      callback per eviction, for the evicted key; keys stay unique; and no active entry is
      left that is older than 2000 ms.  Table and evictions are those of Scanning, whose laws
      are in SubscriberLiveness.
     */
    method ScanAndEvict(now: nat, script: seq<seq<Call>>) returns (evicted: nat)
      requires Good() && forall n :: 0 <= n < |script| ==> NotBefore(script[n], now)
      modifies `evictedTotal, `evictions, `callbacks, entries
      ensures Good() && old(evictions) <= evictions
      ensures var mine := evictions[|old(evictions)|..];
        && evicted == |mine|
        && callbacks == old(callbacks) + CallsFor(mine)
        && StaleAtStart(mine, old(entries[..]), now, entries.Length)
      ensures evictedTotal == (old(evictedTotal) + evicted) % TWO_32
      ensures !initialised ==> evicted == 0 && entries[..] == old(entries[..])
      ensures initialised ==> forall k :: 0 <= k < entries.Length ==> !Stale(entries[k], now)
      ensures initialised ==>
                && entries[..] == Scanning(old(entries[..]), entries.Length, now, script).table
                && evictions == old(evictions) + Scanning(old(entries[..]), entries.Length, now, script).evictions
      ensures initialised && script == [] ==>
                && evictions == old(evictions) + StaleAmong(old(entries[..]), now, entries.Length)
                && forall k :: 0 <= k < entries.Length ==> entries[k] == ScannedEntry(old(entries[..])[k], now)
    {
      hide SinceStart, FreshBelow, StaleAmong, StaleAtStart, CallsFor, Stale, ScannedEntry, Passed, Scanning;
      hide NotBefore, CallsOfNth, Valid;
      evicted := 0;
      ghost var start, mine := entries[..], [];
      ghost var evictions0, callbacks0, total0 := evictions, callbacks, evictedTotal;
      BeginScan(start, now);
      BeginEvictions(start, now);
      BeginScanning(start, now, script);
      assert callbacks0 + CallsFor([]) == callbacks0;
      if !initialised { return; }
      var i := 0;
      while i < entries.Length
        invariant 0 <= i <= entries.Length && Good() && initialised
        invariant SinceStart(entries[..], start, now) && FreshBelow(entries[..], i, now)
        invariant evictions == evictions0 + mine && callbacks == callbacks0 + CallsFor(mine)
        invariant evicted == |mine| && evictedTotal == (total0 + evicted) % TWO_32
        invariant StaleAtStart(mine, start, now, i)
        invariant Progress(entries[..], mine) == Scanning(start, i, now, script)
      {
        ghost var before := entries[..];
        ScanningNext(start, i, now, script);
        StaleAtStartGrows(mine, start, now, i, before[i]);
        var calls := CallsOfNth(script, evicted);
        NthNotBefore(script, evicted, now);
        var died := ScanOne(i, calls, start, now);
        if died {
          evicted := evicted + 1;
          mine := mine + [Eviction(i, before[i])];
        }
        i := i + 1;
      }
      AllFresh(entries[..], now);
      QuietScan(start, entries.Length, now);
      assert evictions[|evictions0|..] == mine;
    }
  }
}
