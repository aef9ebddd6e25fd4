/**
  One bucket of src/RateLimiter.cpp under the compare-and-swap loops of Admit and
  RefillBucket: any number of admitting threads and one refiller, interleaved at
  single memory accesses, from allocation to eviction.

  FindOrAllocate marks a bucket active before it stores its tokens and its stamp, so the
  refiller, on another core, may be anywhere inside RefillBucket when the stamp is stored.
 */
module TokenRace {
  import opened GatewayTypes
  import opened Modulo
  import opened TokenBuckets

  /** Where a thread stands inside Admit. */
  datatype Thread =
    | Outside
    | Loaded(current: int)
    | Taken   // swapped a token out, pass counter not yet incremented

  /** Where the refiller stands inside RefillBucket. */
  datatype Refiller =
    | Resting
    | Computed(now: nat, newTokens: nat)
    | Trying(now: nat, newTokens: nat, current: int)
    | Credited(now: nat)

  /** The shared fields, the private states, the clock, and the history: tokens added and taken. */
  datatype State = State(
    tokens: int, lastRefillMs: nat, passCount: nat,
    threads: seq<Thread>, refiller: Refiller, clock: nat, openedMs: nat,
    added: int, taken: nat)

  datatype Step =
    | Enter(thread: nat)
    | Swap(thread: nat, spurious: bool)
    | CountPass(thread: nat)
    | StartRefill(now: nat)
    | LoadTokens
    | SwapRefill(spurious: bool)
    | StoreStamp

  /** The refiller's own clock reading, if it is inside RefillBucket. */
  function ReadAt(r: Refiller): nat {
    match r
    case Resting => 0
    case Computed(now, _) => now
    case Trying(now, _, _) => now
    case Credited(now) => now
  }

  function Latest(a: nat, b: nat): nat {
    if a < b then b else a
  }

  /** The bucket as its allocation has stored the stamp, wherever the refiller stands. */
  function Open(now: nat, threads: nat, refiller: Refiller): State {
    State(BURST_CAPACITY, now, 0, seq(threads, _ => Outside), refiller, Latest(now, ReadAt(refiller)), now, 0, 0)
  }

  function Next(s: State, step: Step): State {
    match step
    case Enter(i) =>
      if i < |s.threads| && s.threads[i].Outside? then s.(threads := s.threads[i := Loaded(s.tokens)]) else s
    case Swap(i, spurious) =>
      if i < |s.threads| && s.threads[i].Loaded? then
        var current := s.threads[i].current;
        if current <= 0 then s.(threads := s.threads[i := Outside])
        else if s.tokens == current && !spurious then
          s.(tokens := current - 1, taken := s.taken + 1, threads := s.threads[i := Taken])
        else s.(threads := s.threads[i := Loaded(s.tokens)])
      else s
    case CountPass(i) =>
      if i < |s.threads| && s.threads[i].Taken? then
        s.(passCount := Increment32(s.passCount), threads := s.threads[i := Outside])
      else s
    case StartRefill(now) =>
      // One reading serves all buckets, so it may be older than the clock.
      if s.refiller.Resting? then
        var clock := Latest(s.clock, now);
        if now <= s.lastRefillMs then s.(clock := clock)
        else
          var elapsed := now - s.lastRefillMs;
          var clamped := if elapsed > 1000 then 1000 else elapsed;
          s.(clock := clock, refiller := Computed(now, clamped * REFILL_RATE_PER_MS))
      else s
    case LoadTokens =>
      if s.refiller.Computed? then s.(refiller := Trying(s.refiller.now, s.refiller.newTokens, s.tokens)) else s
    case SwapRefill(spurious) =>
      if s.refiller.Trying? then
        var current := s.refiller.current;
        var updated := if current + s.refiller.newTokens > BURST_CAPACITY then BURST_CAPACITY
                       else current + s.refiller.newTokens;
        if s.tokens == current && !spurious then
          s.(tokens := updated, added := s.added + (updated - current), refiller := Credited(s.refiller.now))
        else s.(refiller := Trying(s.refiller.now, s.refiller.newTokens, s.tokens))
      else s
    case StoreStamp =>
      if s.refiller.Credited? then s.(lastRefillMs := s.refiller.now, refiller := Resting) else s
  }

  function Run(s: State, steps: seq<Step>): State
    decreases |steps|
  {
    if steps == [] then s else Run(Next(s, steps[0]), steps[1..])
  }

  /** Threads between their swap and their pass count. */
  function InFlight(threads: seq<Thread>): nat {
    if threads == [] then 0 else (if threads[0].Taken? then 1 else 0) + InFlight(threads[1..])
  }

  function Mark(t: Thread): nat {
    if t.Taken? then 1 else 0
  }

  lemma {:induction false} InFlightUpdate(threads: seq<Thread>, i: nat, t: Thread)
    requires i < |threads|
    ensures InFlight(threads[i := t]) == InFlight(threads) - Mark(threads[i]) + Mark(t)
    decreases |threads|
  {
    if i > 0 {
      assert threads[i := t][1..] == threads[1..][i - 1 := t];
      InFlightUpdate(threads[1..], i - 1, t);
    } else {
      assert threads[i := t][1..] == threads[1..];
    }
  }

  lemma {:induction false} NoneInFlight(n: nat)
    ensures InFlight(seq(n, _ => Outside)) == 0
    decreases n
  {
    if n > 0 {
      assert seq<Thread>(n, _ => Outside)[1..] == seq<Thread>(n - 1, _ => Outside);
      NoneInFlight(n - 1);
    }
  }

  /** Tokens that the refiller may have added beyond what the stamp shows. */
  function Unstamped(s: State): nat {
    if s.refiller.Credited? && s.refiller.now >= s.lastRefillMs
    then REFILL_RATE_PER_MS * (s.refiller.now - s.lastRefillMs) else 0
  }

  /** Tokens in range and accounted for, the pass counter behind by the threads in flight. */
  ghost predicate Inv(s: State) {
    && 0 <= s.tokens <= BURST_CAPACITY
    && BURST_CAPACITY + s.added - s.taken == s.tokens
    && InFlight(s.threads) <= s.taken
    && s.passCount == (s.taken - InFlight(s.threads)) % TWO_32
  }

  /** What the refiller may still add is covered by the time since the stamp. */
  predicate Covered(r: Refiller, stamp: nat) {
    match r
    case Resting => true
    case Computed(now, n) => Min(BURST_CAPACITY, n) <= REFILL_RATE_PER_MS * (now - stamp)
    case Trying(now, n, _) => Min(BURST_CAPACITY, n) <= REFILL_RATE_PER_MS * (now - stamp)
    case Credited(now) => now >= stamp
  }

  ghost predicate RateInv(s: State) {
    && Inv(s)
    && s.openedMs <= s.lastRefillMs <= s.clock && ReadAt(s.refiller) <= s.clock
    && Covered(s.refiller, s.lastRefillMs)
    && s.added <= REFILL_RATE_PER_MS * (s.lastRefillMs - s.openedMs) + Unstamped(s)
  }

  lemma SwapKeeps(s: State, i: nat, spurious: bool)
    requires Inv(s) && i < |s.threads|
    ensures Inv(Next(s, Swap(i, spurious)))
  {
    InFlightUpdate(s.threads, i, Outside);
    InFlightUpdate(s.threads, i, Taken);
    InFlightUpdate(s.threads, i, Loaded(s.tokens));
  }

  lemma CountKeeps(s: State, i: nat)
    requires Inv(s) && i < |s.threads|
    ensures Inv(Next(s, CountPass(i))) && Inv(Next(s, Enter(i)))
  {
    InFlightUpdate(s.threads, i, Outside);
    InFlightUpdate(s.threads, i, Loaded(s.tokens));
    ModStep(s.taken - InFlight(s.threads), TWO_32);
  }

  predicate ByRefiller(step: Step) {
    step.StartRefill? || step.LoadTokens? || step.SwapRefill? || step.StoreStamp?
  }

  lemma RefillKeeps(s: State, step: Step)
    requires Inv(s) && ByRefiller(step)
    ensures Inv(Next(s, step))
    ensures RateInv(s) ==> RateInv(Next(s, step))
  {
    hide InFlight;
  }

  /** Admitting threads touch nothing that the rate depends on. */
  lemma AdmitKeepsRate(s: State, step: Step)
    requires !ByRefiller(step)
    ensures var t := Next(s, step);
      && t.refiller == s.refiller && t.lastRefillMs == s.lastRefillMs && t.openedMs == s.openedMs
      && t.clock == s.clock && t.added == s.added
  {
  }

  lemma NextKeeps(s: State, step: Step)
    requires Inv(s)
    ensures Inv(Next(s, step))
    ensures RateInv(s) ==> RateInv(Next(s, step))
  {
    hide Inv, Next, Covered, InFlight;
    if ByRefiller(step) {
      RefillKeeps(s, step);
    } else {
      AdmitKeepsRate(s, step);
      match step
      case Enter(i) => if i < |s.threads| { CountKeeps(s, i); } else { NoSuchThread(s, step, i); }
      case Swap(i, spurious) => if i < |s.threads| { SwapKeeps(s, i, spurious); } else { NoSuchThread(s, step, i); }
      case CountPass(i) => if i < |s.threads| { CountKeeps(s, i); } else { NoSuchThread(s, step, i); }
      case _ =>
    }
  }

  lemma NoSuchThread(s: State, step: Step, i: nat)
    requires (step.Enter? || step.Swap? || step.CountPass?) && step.thread == i >= |s.threads|
    ensures Next(s, step) == s
  {
  }

  lemma {:induction false} RunKeeps(s: State, steps: seq<Step>)
    requires Inv(s)
    ensures Inv(Run(s, steps)) && Run(s, steps).openedMs == s.openedMs
    ensures RateInv(s) ==> RateInv(Run(s, steps))
    decreases |steps|
  {
    hide Inv, RateInv;
    if steps != [] {
      NextKeeps(s, steps[0]);
      RunKeeps(Next(s, steps[0]), steps[1..]);
    }
  }

  lemma OpenInv(now: nat, threads: nat, refiller: Refiller)
    ensures Inv(Open(now, threads, refiller))
    ensures Covered(refiller, now) ==> RateInv(Open(now, threads, refiller))
  {
    NoneInFlight(threads);
  }

  /**
    Under every interleaving, wherever the refiller stands at allocation: the bucket holds
    between 0 and 20 tokens, every token taken is accounted for, and the pass counter lags
    the successful swaps by exactly the threads in flight.  If the refiller's work under way
    is covered, the swaps stay within 20 + 5 per millisecond since allocation.
   */
  lemma {:induction false} TokenSafety(now: nat, threads: nat, refiller: Refiller, steps: seq<Step>)
    ensures var s := Run(Open(now, threads, refiller), steps);
      && 0 <= s.tokens <= BURST_CAPACITY
      && BURST_CAPACITY + s.added - s.taken == s.tokens
      && InFlight(s.threads) <= s.taken
      && s.passCount == (s.taken - InFlight(s.threads)) % TWO_32
      && (Covered(refiller, now) ==> s.taken <= BURST_CAPACITY + REFILL_RATE_PER_MS * (s.clock - now))
  {
    OpenInv(now, threads, refiller);
    RunKeeps(Open(now, threads, refiller), steps);
  }

  // ------------------------------------------------------------------
  // The rate
  // ------------------------------------------------------------------

  /** Packets since allocation stay within 20 + 5 per millisecond. */
  predicate WithinRate(s: State) {
    s.taken <= BURST_CAPACITY + REFILL_RATE_PER_MS * (s.clock - s.openedMs)
  }

  /** RefillBucket adds at least the tokens of one millisecond. */
  predicate Plausible(r: Refiller) {
    (r.Computed? || r.Trying?) ==> r.newTokens >= REFILL_RATE_PER_MS
  }

  lemma RateWithin(s: State)
    requires RateInv(s)
    ensures WithinRate(s)
  {
  }

  /** n packets by the first thread, one after another. */
  function Takes(n: nat): seq<Step> {
    if n == 0 then [] else [Enter(0), Swap(0, false), CountPass(0)] + Takes(n - 1)
  }

  lemma {:induction false} RunOn(s: State, a: seq<Step>, b: seq<Step>)
    ensures Run(s, a + b) == Run(Run(s, a), b)
    decreases |a|
  {
    hide Next;
    if a == [] {
      assert a + b == b;
    } else {
      assert (a + b)[1..] == a[1..] + b;
      RunOn(Next(s, a[0]), a[1..], b);
    }
  }

  lemma RunOne(s: State, a: Step)
    ensures Run(s, [a]) == Next(s, a)
  {
    hide Next;
    assert [a][1..] == [];
    assert Run(s, [a]) == Run(Next(s, a), []);
  }

  lemma RunThree(s: State, a: Step, b: Step, c: Step)
    ensures Run(s, [a, b, c]) == Next(Next(Next(s, a), b), c)
  {
    hide Next;
    assert [a, b, c] == [a] + [b] + [c];
    RunOn(s, [a] + [b], [c]);
    RunOn(s, [a], [b]);
    RunOne(s, a);
    RunOne(Next(s, a), b);
    RunOne(Next(Next(s, a), b), c);
  }

  /** Two states that differ in tokens, taken and pass count only by n packets taken. */
  predicate TookFrom(s: State, t: State, n: nat) {
    && t.tokens == s.tokens - n && t.taken == s.taken + n && t.threads == s.threads && t.refiller == s.refiller
    && t.lastRefillMs == s.lastRefillMs && t.clock == s.clock && t.openedMs == s.openedMs && t.added == s.added
  }

  lemma TakeOne(s: State)
    requires s.threads != [] && s.threads[0].Outside? && s.tokens >= 1
    ensures TookFrom(s, Run(s, [Enter(0), Swap(0, false), CountPass(0)]), 1)
  {
    RunThree(s, Enter(0), Swap(0, false), CountPass(0));
    assert s.threads[0 := Loaded(s.tokens)][0 := Taken][0 := Outside] == s.threads;
  }

  lemma {:induction false} TakeMany(s: State, n: nat)
    requires s.threads != [] && s.threads[0].Outside? && s.tokens >= n
    ensures TookFrom(s, Run(s, Takes(n)), n)
    decreases n
  {
    hide Next;
    if n > 0 {
      var one := [Enter(0), Swap(0, false), CountPass(0)];
      TakeOne(s);
      RunOn(s, one, Takes(n - 1));
      TakeMany(Run(s, one), n - 1);
    }
  }

  /** All 20 tokens go, the refiller credits what it had computed, and that goes as well: nothing covers it. */
  lemma CreditTwice(now: nat, threads: nat, refiller: Refiller) returns (steps: seq<Step>)
    requires threads >= 1 && (refiller.Computed? || refiller.Trying?)
    ensures var s := Run(Open(now, threads, refiller), steps);
      && s.taken == BURST_CAPACITY + Min(BURST_CAPACITY, refiller.newTokens)
      && s.clock == Latest(now, refiller.now) && s.openedMs == now
  {
    hide Next;
    var s0 := Open(now, threads, refiller);
    TakeMany(s0, BURST_CAPACITY);
    var s1 := Run(s0, Takes(BURST_CAPACITY));
    var reload := if refiller.Computed? then LoadTokens else SwapRefill(true);
    var credit := [reload, SwapRefill(false)];
    RunOn(s1, [reload], [SwapRefill(false)]);
    RunOne(s1, reload);
    RunOne(Next(s1, reload), SwapRefill(false));
    assert credit == [reload] + [SwapRefill(false)];
    CreditFromEmpty(s1);
    var s2 := Run(s1, credit);
    var n := Min(BURST_CAPACITY, refiller.newTokens);
    TakeMany(s2, n);
    RunOn(s0, Takes(BURST_CAPACITY), credit);
    RunOn(s0, Takes(BURST_CAPACITY) + credit, Takes(n));
    steps := Takes(BURST_CAPACITY) + credit + Takes(n);
  }

  lemma CreditFromEmpty(s: State)
    requires s.tokens == 0 && (s.refiller.Computed? || s.refiller.Trying?)
    ensures var reload := if s.refiller.Computed? then LoadTokens else SwapRefill(true);
      var t := Next(Next(s, reload), SwapRefill(false));
      && t.tokens == Min(BURST_CAPACITY, s.refiller.newTokens) && t.threads == s.threads
      && t.taken == s.taken && t.clock == s.clock && t.openedMs == s.openedMs
  {
  }

  /** A refiller that stores an older stamp over the allocation's is paid again for the time in between. */
  lemma OldStamp(now: nat, threads: nat, refiller: Refiller) returns (steps: seq<Step>)
    requires threads >= 1 && refiller.Credited? && refiller.now < now
    ensures var s := Run(Open(now, threads, refiller), steps);
      s.taken > BURST_CAPACITY && s.clock == now && s.openedMs == now
  {
    hide Next;
    var s0 := Open(now, threads, refiller);
    TakeMany(s0, BURST_CAPACITY);
    var s1 := Run(s0, Takes(BURST_CAPACITY));
    var again := [StoreStamp, StartRefill(now), LoadTokens];
    RunThree(s1, StoreStamp, StartRefill(now), LoadTokens);
    var s2 := Run(s1, again);
    RunOne(s2, SwapRefill(false));
    PaidAgain(s1, now);
    var s3 := Next(s2, SwapRefill(false));
    TakeMany(s3, 1);
    RunOn(s0, Takes(BURST_CAPACITY), again);
    RunOn(s0, Takes(BURST_CAPACITY) + again, [SwapRefill(false)]);
    RunOn(s0, Takes(BURST_CAPACITY) + again + [SwapRefill(false)], Takes(1));
    steps := Takes(BURST_CAPACITY) + again + [SwapRefill(false)] + Takes(1);
  }

  lemma PaidAgain(s: State, now: nat)
    requires s.tokens == 0 && s.refiller.Credited? && s.refiller.now < now == s.clock
    ensures var t := Next(Next(Next(Next(s, StoreStamp), StartRefill(now)), LoadTokens), SwapRefill(false));
      && t.tokens >= 1 && t.threads == s.threads && t.taken == s.taken && t.clock == s.clock && t.openedMs == s.openedMs
  {
  }

  /**
    The rate holds on every continuation from allocation if and only if what the refiller
    has under way at that moment is covered: it is at rest; or it has computed or is
    trying to add no more than the time from the new stamp to its own reading pays for; or
    it has added already and its stamp is not older than the new one.
   */
  lemma {:induction false} RateExactly(now: nat, threads: nat, refiller: Refiller)
    requires threads >= 1 && Plausible(refiller)
    ensures (forall steps: seq<Step> :: WithinRate(Run(Open(now, threads, refiller), steps)))
            <==> Covered(refiller, now)
  {
    hide Run, Next, RateInv, Inv;
    var s0 := Open(now, threads, refiller);
    OpenInv(now, threads, refiller);
    if Covered(refiller, now) {
      forall steps: seq<Step> ensures WithinRate(Run(s0, steps)) {
        RunKeeps(s0, steps);
        RateWithin(Run(s0, steps));
      }
    } else if refiller.Credited? {
      var steps := OldStamp(now, threads, refiller);
      assert !WithinRate(Run(s0, steps));
    } else {
      var steps := CreditTwice(now, threads, refiller);
      assert !WithinRate(Run(s0, steps));
    }
  }

  /** A refiller whose reading is not after the allocation is covered only at rest, or done with the same stamp. */
  lemma CoveredEarly(now: nat, refiller: Refiller)
    requires ReadAt(refiller) <= now && Plausible(refiller)
    ensures Covered(refiller, now) <==> refiller.Resting? || (refiller.Credited? && refiller.now == now)
  {
  }

  // ------------------------------------------------------------------
  // Allocation under a running refill
  // ------------------------------------------------------------------

  predicate RefillerOnly(steps: seq<Step>) {
    forall k :: 0 <= k < |steps| ==> ByRefiller(steps[k])
  }

  /** FindOrAllocate's store of the tokens; the store of the stamp leads to Open. */
  function Filled(s: State): State {
    s.(tokens := BURST_CAPACITY)
  }

  /** Whatever the refiller does between the two stores, the bucket is full when its stamp is stored. */
  lemma {:induction false} FullAtStamp(s: State, steps: seq<Step>)
    requires RefillerOnly(steps) && s.tokens == BURST_CAPACITY
    ensures Run(s, steps).tokens == BURST_CAPACITY && Run(s, steps).threads == s.threads
    decreases |steps|
  {
    if steps != [] {
      assert ByRefiller(steps[0]);
      assert RefillerOnly(steps[1..]);
      FullAtStamp(Next(s, steps[0]), steps[1..]);
    }
  }

  /**
    The refiller finds the bucket active, reads the old stamp and the tokens; then the
    allocation stores the stamp.  Forty packets pass in that one millisecond.
   */
  lemma FortyAtOnce(free: State, now: nat, threads: nat) returns (steps: seq<Step>)
    requires free.refiller.Resting? && now >= free.lastRefillMs + 4 && threads >= 1
    ensures var caught := Run(Filled(free), [StartRefill(now), LoadTokens]);
      var s := Run(Open(now, threads, caught.refiller), steps);
      && caught.tokens == BURST_CAPACITY && caught.refiller.Trying?
      && s.taken == 40 && s.clock == now && s.openedMs == now
  {
    var f := Filled(free);
    assert [StartRefill(now), LoadTokens] == [StartRefill(now)] + [LoadTokens];
    RunOn(f, [StartRefill(now)], [LoadTokens]);
    RunOne(f, StartRefill(now));
    RunOne(Next(f, StartRefill(now)), LoadTokens);
    var caught := Run(f, [StartRefill(now), LoadTokens]);
    assert caught.refiller.now == now && caught.refiller.newTokens >= BURST_CAPACITY;
    steps := CreditTwice(now, threads, caught.refiller);
  }
}
