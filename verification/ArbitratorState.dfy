/**
  The state of src/SafetyArbitrator.cpp as a value, what each entry point does to it, and
  what holds over whole runs: the matrix is in force, losses are detected in time, lost
  domains stay lost without a nominal report, and the log is the end of the history.

  Clock readings and the outcome of the send are inputs.
 */
module ArbitratorState {
  import opened GatewayTypes
  import opened Modulo
  import opened DegradationMatrix

  const SENSOR_TIMEOUT_MS: nat := 100
  const SAFE_STATE_TRANSITION_MS: nat := 50
  const MAX_TRANSITION_LOG: nat := 32
  const ARBITRATOR_MAGIC: nat := 0x5AFE_0001

  /** Speed and deceleration are carried as the 32 bits of their IEEE 754 single values. */
  datatype Command = Command(
    magic: U32, state: SafeState, activeDomains: bv8, faultBitmask: bv8,
    maxSpeed: U32, maxDecel: U32, transitionMs: U32, sequenceNum: U32)

  datatype Transition = Transition(
    fromState: SafeState, toState: SafeState, trigger: nat,
    timestampMs: nat, transitionMs: nat, sequenceNum: nat)

  datatype Arbitrator = Arbitrator(
    domains: seq<Domain>, current: SafeState, faults: bv8, actives: bv8,
    sequenceNum: nat, transitionCount: nat, mandatory: bv8,
    lastCommand: Command, log: seq<Transition>, logHead: nat)
  {
    ghost predicate Shape() {
      && |domains| == MAX_SENSOR_DOMAINS && |log| == MAX_TRANSITION_LOG
      && logHead < MAX_TRANSITION_LOG && transitionCount < TWO_32 && sequenceNum < TWO_32
    }
  }

  /** The four clock readings of one Arbitrate. */
  datatype Clock = Clock(scanMs: nat, startMs: nat, endMs: nat, logMs: nat)
  {
    function Latency(): U32 {
      if endMs >= startMs then (endMs - startMs) % TWO_32 else 0
    }
  }

  // ------------------------------------------------------------------
  // Entry points
  // ------------------------------------------------------------------

  function MaxSpeed(s: SafeState): U32 {
    match s
    case FullOperation => 0x4302_0000         // 130
    case RadarCameraFallback => 0x42C8_0000   // 100
    case LidarCameraFallback => 0x42C8_0000
    case LidarRadarFallback => 0x41F0_0000    // 30
    case DeadReckoningMode => 0x41F0_0000
    case ReducedDynamics => 0x41F0_0000
    case MinimalRiskCondition => 0x41A0_0000  // 20
    case EmergencyStop => 0
  }

  function MaxDecel(s: SafeState): U32 {
    match s
    case DeadReckoningMode => 0x40DB_BE77     // 9.81 * 0.7
    case ReducedDynamics => 0x409C_F5C3       // 9.81 * 0.5
    case MinimalRiskCondition => 0x403C_5A1E  // 9.81 * 0.3
    case _ => 0x411C_F5C3                     // 9.81
  }

  function FirstCommand(): Command {
    Command(ARBITRATOR_MAGIC, FullOperation, 0xFF, 0x00, MaxSpeed(FullOperation), MaxDecel(FullOperation), 0, 0)
  }

  function BlankTransition(): Transition {
    Transition(FullOperation, EmergencyStop, INVALID_DOMAIN, 0, 0, 0)
  }

  function Initial(mandatory: bv8, now: nat): (a: Arbitrator)
    ensures a.Shape()
  {
    Arbitrator(seq(MAX_SENSOR_DOMAINS, _ => Domain(UNKNOWN, now, 0, 0)), FullOperation, 0, 0xFF, 0, 0, mandatory,
               FirstCommand(), seq(MAX_TRANSITION_LOG, _ => BlankTransition()), 0)
  }

  function FaultOn(d: Domain, health: Byte, dtc: nat, now: nat): Domain {
    if health == NOMINAL then Domain(NOMINAL, now, 0, dtc)
    else Domain(health, d.lastHeartbeat, Increment32(d.faultCount), dtc)
  }

  function IngestIn(a: Arbitrator, domain: Byte, health: Byte, dtc: nat, now: nat): (Arbitrator, VoidResult)
    requires a.Shape()
  {
    if domain >= NUM_SENSOR_DOMAINS then (a, Err(InvalidArgument))
    else (a.(domains := a.domains[domain := FaultOn(a.domains[domain], health, dtc, now)]), Ok)
  }

  function BeatOn(d: Domain, now: nat): Domain {
    d.(lastHeartbeat := now, health := if d.faultCount == 0 then NOMINAL else d.health)
  }

  function HeartbeatIn(a: Arbitrator, domain: Byte, now: nat): (Arbitrator, VoidResult)
    requires a.Shape()
  {
    if domain >= NUM_SENSOR_DOMAINS then (a, Err(InvalidArgument))
    else (a.(domains := a.domains[domain := BeatOn(a.domains[domain], now)]), Ok)
  }

  predicate TimedOut(d: Domain, now: nat) {
    now >= d.lastHeartbeat && now - d.lastHeartbeat > SENSOR_TIMEOUT_MS
  }

  function Scanned(d: Domain, now: nat): Domain {
    if TimedOut(d, now) && d.health != FAILED
    then d.(health := FAILED, faultCount := Increment32(d.faultCount))
    else d
  }

  function ScanIn(domains: seq<Domain>, now: nat): (r: seq<Domain>)
    ensures |r| == |domains|
  {
    seq(|domains|, i requires 0 <= i < |domains| => Scanned(domains[i], now))
  }

  /** ScanTimeouts and UpdateBitmasks. */
  function Refreshed(a: Arbitrator, now: nat): (r: Arbitrator)
    requires a.Shape()
    ensures r.Shape()
  {
    var domains := ScanIn(a.domains, now);
    a.(domains := domains, faults := HealthMask(domains, FAILED), actives := HealthMask(domains, NOMINAL))
  }

  /** The first failed domain, or kInvalid. */
  function Trigger(faults: bv8, i: nat): nat
    requires i <= 8
    decreases 8 - i
  {
    if i == 8 then INVALID_DOMAIN else if Has(faults, i) then i else Trigger(faults, i + 1)
  }

  /** The command as it is handed to the bridge: its transition time is still zero. */
  function CommandFor(a: Arbitrator, target: SafeState): (cmd: Command)
    ensures cmd.state == target
  {
    Command(ARBITRATOR_MAGIC, target, a.actives, a.faults, MaxSpeed(target), MaxDecel(target), 0,
            Increment32(a.sequenceNum))
  }

  function EntryFor(a: Arbitrator, target: SafeState, clock: Clock): Transition {
    Transition(a.current, target, Trigger(a.faults, 0), clock.logMs, clock.Latency(), Increment32(a.transitionCount))
  }

  /** The start of ExecuteTransition: the sequence number is taken before the command is sent. */
  function Claimed(a: Arbitrator): (r: Arbitrator)
    requires a.Shape()
    ensures r.Shape()
  {
    a.(sequenceNum := Increment32(a.sequenceNum))
  }

  /** What ExecuteTransition stores once the send has returned: the new state does not depend on its outcome. */
  function CommitIn(a: Arbitrator, cmd: Command, clock: Clock): (r: Arbitrator)
    requires a.Shape()
    ensures r.Shape() && r.domains == a.domains
  {
    a.(current := cmd.state,
       lastCommand := cmd.(transitionMs := clock.Latency()),
       transitionCount := Increment32(a.transitionCount),
       log := a.log[a.logHead := EntryFor(a, cmd.state, clock)],
       logHead := (a.logHead + 1) % MAX_TRANSITION_LOG)
  }

  /** ExecuteTransition. */
  function ExecuteIn(a: Arbitrator, target: SafeState, clock: Clock): (r: Arbitrator)
    requires a.Shape()
    ensures r.Shape() && r.domains == a.domains
  {
    CommitIn(Claimed(a), CommandFor(a, target), clock)
  }

  /** Whether an Arbitrate that has refreshed its masks goes on to a transition. */
  predicate Moves(a: Arbitrator)
    requires a.Shape()
  {
    RequiredState(a.faults, a.mandatory, a.domains) != a.current && a.current != EmergencyStop
  }

  function ArbitrateIn(a: Arbitrator, clock: Clock): (r: Arbitrator)
    requires a.Shape()
    ensures r.Shape()
  {
    var b := Refreshed(a, clock.scanMs);
    if Moves(b) then ExecuteIn(b, RequiredState(b.faults, b.mandatory, b.domains), clock) else b
  }

  function ArbitrateResult(a: Arbitrator, clock: Clock, sent: bool): VoidResult
    requires a.Shape()
  {
    if !Moves(Refreshed(a, clock.scanMs)) then Ok
    else if clock.Latency() > SAFE_STATE_TRANSITION_MS then Err(Timeout)
    else if !sent then Err(E2eViolation)
    else Ok
  }

  // ------------------------------------------------------------------
  // Runs
  // ------------------------------------------------------------------

  datatype Op =
    | Ingest(domain: Byte, health: Byte, dtc: nat, now: nat)
    | Heartbeat(domain: Byte, now: nat)
    | Arbitrate(clock: Clock)

  function Apply(a: Arbitrator, op: Op): (r: Arbitrator)
    requires a.Shape()
    ensures r.Shape()
  {
    match op
    case Ingest(d, h, dtc, now) => IngestIn(a, d, h, dtc, now).0
    case Heartbeat(d, now) => HeartbeatIn(a, d, now).0
    case Arbitrate(clock) => ArbitrateIn(a, clock)
  }

  function Run(a: Arbitrator, ops: seq<Op>): (r: Arbitrator)
    requires a.Shape()
    ensures r.Shape()
    decreases |ops|
  {
    if ops == [] then a else Run(Apply(a, ops[0]), ops[1..])
  }

  lemma {:induction false} RunSnoc(a: Arbitrator, ops: seq<Op>, op: Op)
    requires a.Shape()
    ensures Run(a, ops + [op]) == Apply(Run(a, ops), op)
    decreases |ops|
  {
    hide Apply;
    if ops == [] {
      assert ([] + [op])[1..] == [];
      assert Run(Apply(a, op), []) == Apply(a, op);
    } else {
      assert (ops + [op])[1..] == ops[1..] + [op];
      RunSnoc(Apply(a, ops[0]), ops[1..], op);
    }
  }

  // ------------------------------------------------------------------
  // The matrix is in force after every Arbitrate
  // ------------------------------------------------------------------

  lemma {:induction false} NeverLatched(a: Arbitrator, ops: seq<Op>)
    requires a.Shape() && a.current != EmergencyStop
    ensures Run(a, ops).current != EmergencyStop && Run(a, ops).mandatory == a.mandatory
    decreases |ops|
  {
    hide RequiredState, HealthMask, EntryFor, CommandFor;
    if ops != [] {
      var b := Apply(a, ops[0]);
      if ops[0].Arbitrate? {
        var c := Refreshed(a, ops[0].clock.scanMs);
        NeverEmergencyStop(c.faults, c.mandatory, c.domains);
      }
      NeverLatched(b, ops[1..]);
    }
  }

  /** Masks are exact and the state is the one the declarative matrix asks for. */
  ghost predicate InForce(a: Arbitrator, now: nat) {
    && |a.domains| == MAX_SENSOR_DOMAINS
    && a.current == Matrix(a.domains, a.mandatory)
    && (forall i :: 0 <= i < 8 ==> (Has(a.faults, i) <==> a.domains[i].health == FAILED))
    && (forall i :: 0 <= i < 8 ==> (Has(a.actives, i) <==> a.domains[i].health == NOMINAL))
    && a.faults & a.actives == 0
    && (a.current == FullOperation ==>
          forall i :: 0 <= i <= IMU ==> a.domains[i].health != FAILED && !TimedOut(a.domains[i], now))
  }

  lemma RefreshedMasks(a: Arbitrator, now: nat)
    requires a.Shape()
    ensures var b := Refreshed(a, now);
      && RequiredState(b.faults, b.mandatory, b.domains) == Matrix(b.domains, b.mandatory)
      && RequiredState(b.faults, b.mandatory, b.domains) != EmergencyStop
      && (forall i :: 0 <= i < 8 ==> (Has(b.faults, i) <==> b.domains[i].health == FAILED))
      && (forall i :: 0 <= i < 8 ==> (Has(b.actives, i) <==> b.domains[i].health == NOMINAL))
      && b.faults & b.actives == 0
      && (forall i :: 0 <= i < 8 ==> (TimedOut(b.domains[i], now) ==> b.domains[i].health == FAILED))
  {
    hide RequiredState, HealthMask, Has, Matrix;
    var b := Refreshed(a, now);
    RequiredIsMatrix(b.domains, b.mandatory);
    MasksDisjoint(b.domains);
    NeverEmergencyStop(b.faults, b.mandatory, b.domains);
    forall i | 0 <= i < 8
      ensures Has(b.faults, i) <==> b.domains[i].health == FAILED
      ensures Has(b.actives, i) <==> b.domains[i].health == NOMINAL
    {
      HealthMaskExact(b.domains, FAILED, i);
      HealthMaskExact(b.domains, NOMINAL, i);
    }
  }

  lemma ArbitrateFields(a: Arbitrator, clock: Clock)
    requires a.Shape() && a.current != EmergencyStop
    ensures var r, b := ArbitrateIn(a, clock), Refreshed(a, clock.scanMs);
      && r.domains == b.domains && r.faults == b.faults && r.actives == b.actives
      && r.mandatory == b.mandatory && r.current == RequiredState(b.faults, b.mandatory, b.domains)
  {
    hide RequiredState, Refreshed, EntryFor, CommandFor;
    RefreshedCurrent(a, clock.scanMs);
  }

  lemma ArbitrateInForce(a: Arbitrator, clock: Clock)
    requires a.Shape() && a.current != EmergencyStop
    ensures InForce(ArbitrateIn(a, clock), clock.scanMs)
  {
    hide RequiredState, Refreshed, Has, Matrix, TimedOut, ArbitrateIn;
    ArbitrateFields(a, clock);
    RefreshedMasks(a, clock.scanMs);
    var b := Refreshed(a, clock.scanMs);
    MatrixFull(b.domains, b.mandatory);
  }

  lemma RefreshedCurrent(a: Arbitrator, now: nat)
    requires a.Shape()
    ensures Refreshed(a, now).current == a.current
  {
  }

  lemma MatrixFull(domains: seq<Domain>, mandatory: bv8)
    requires |domains| == MAX_SENSOR_DOMAINS
    ensures Matrix(domains, mandatory) == FullOperation ==> forall i :: 0 <= i <= IMU ==> domains[i].health != FAILED
  {
    hide InMrc;
  }

  /**
    After any run from Init that ends in an Arbitrate: the state is what the declarative
    matrix says of the domains; the published masks are exact and disjoint; and full
    operation means none of the five matrix sensors is failed or silent for over 100 ms.
   */
  lemma {:induction false} MatrixInForce(mandatory: bv8, start: nat, ops: seq<Op>, clock: Clock)
    ensures var a := Run(Initial(mandatory, start), ops + [Arbitrate(clock)]);
      a.mandatory == mandatory && InForce(a, clock.scanMs)
  {
    hide Run, InForce, ArbitrateIn;
    var a0 := Initial(mandatory, start);
    NeverLatched(a0, ops);
    NeverLatched(a0, ops + [Arbitrate(clock)]);
    RunSnoc(a0, ops, Arbitrate(clock));
    ArbitrateInForce(Run(a0, ops), clock);
  }

  // ------------------------------------------------------------------
  // The domain nobody reports on
  // ------------------------------------------------------------------

  lemma InvalidDomainStep(a: Arbitrator, op: Op)
    requires a.Shape()
    ensures Apply(a, op).domains[INVALID_DOMAIN].lastHeartbeat == a.domains[INVALID_DOMAIN].lastHeartbeat
  {
    hide RequiredState, HealthMask, ExecuteIn;
    match op
    case Ingest(_, _, _, _) =>
    case Heartbeat(_, _) =>
    case Arbitrate(clock) => assert Apply(a, op).domains == ScanIn(a.domains, clock.scanMs);
  }

  lemma {:induction false} InvalidDomainUntouched(a: Arbitrator, ops: seq<Op>)
    requires a.Shape()
    ensures Run(a, ops).domains[INVALID_DOMAIN].lastHeartbeat == a.domains[INVALID_DOMAIN].lastHeartbeat
    decreases |ops|
  {
    hide Apply;
    if ops != [] {
      InvalidDomainStep(a, ops[0]);
      InvalidDomainUntouched(Apply(a, ops[0]), ops[1..]);
    }
  }

  /** Domain 7 is scanned but no report can refresh it: 100 ms after Init its bit is set for good. */
  lemma {:induction false} InvalidDomainLost(mandatory: bv8, start: nat, ops: seq<Op>, clock: Clock)
    requires clock.scanMs > start + SENSOR_TIMEOUT_MS
    ensures Has(Run(Initial(mandatory, start), ops + [Arbitrate(clock)]).faults, INVALID_DOMAIN)
  {
    hide Run, Has, HealthMask, RequiredState;
    var a0 := Initial(mandatory, start);
    InvalidDomainUntouched(a0, ops);
    RunSnoc(a0, ops, Arbitrate(clock));
    var b := Refreshed(Run(a0, ops), clock.scanMs);
    HealthMaskExact(b.domains, FAILED, INVALID_DOMAIN);
  }

  // ------------------------------------------------------------------
  // Recovery
  // ------------------------------------------------------------------

  /** Nominal means no counted fault, failed means at least one, and no count exceeds n. */
  ghost predicate Counted(a: Arbitrator, n: nat) {
    forall i :: 0 <= i < |a.domains| ==>
      && (a.domains[i].health == NOMINAL ==> a.domains[i].faultCount == 0)
      && (a.domains[i].health == FAILED ==> a.domains[i].faultCount >= 1)
      && a.domains[i].faultCount <= n
  }

  lemma ApplyCounted(a: Arbitrator, op: Op, n: nat)
    requires a.Shape() && Counted(a, n) && n + 1 < TWO_32
    ensures Counted(Apply(a, op), n + 1)
  {
    hide RequiredState, HealthMask, EntryFor, CommandFor;
  }

  lemma {:induction false} RunCounted(a: Arbitrator, ops: seq<Op>, n: nat)
    requires a.Shape() && Counted(a, n) && n + |ops| < TWO_32
    ensures Counted(Run(a, ops), n + |ops|)
    decreases |ops|
  {
    hide Apply, Counted;
    if ops != [] {
      ApplyCounted(a, ops[0], n);
      RunCounted(Apply(a, ops[0]), ops[1..], n + 1);
    }
  }

  /**
    In every state reached from Init in fewer than 2^32 operations.  The operations are
    whole calls, one after another; module DomainRace says exactly when calls that overlap
    on one domain keep this.
   */
  lemma {:induction false} HealthMatchesCount(mandatory: bv8, start: nat, ops: seq<Op>)
    requires |ops| < TWO_32
    ensures Counted(Run(Initial(mandatory, start), ops), |ops|)
  {
    RunCounted(Initial(mandatory, start), ops, 0);
  }

  ghost predicate NoNominalReport(ops: seq<Op>, d: nat) {
    forall k :: 0 <= k < |ops| && ops[k].Ingest? && ops[k].domain == d ==> ops[k].health != NOMINAL
  }

  lemma {:induction false} StaysCounted(a: Arbitrator, ops: seq<Op>, d: nat)
    requires a.Shape() && d < 8 && NoNominalReport(ops, d)
    requires 1 <= a.domains[d].faultCount && a.domains[d].faultCount + |ops| < TWO_32
    requires a.domains[d].health != NOMINAL
    ensures var b := Run(a, ops); b.domains[d].health != NOMINAL && b.domains[d].faultCount >= 1
    decreases |ops|
  {
    hide RequiredState, HealthMask, EntryFor, CommandFor;
    if ops != [] {
      assert NoNominalReport(ops[1..], d);
      StaysCounted(Apply(a, ops[0]), ops[1..], d);
    }
  }

  /**
    Once a domain has failed, no sequence of heartbeats, arbitrations and reports other
    than a nominal one makes it active again.  As above, the calls come one after another.
   */
  lemma {:induction false} RecoveryNeedsReport(
      mandatory: bv8, start: nat, ops: seq<Op>, more: seq<Op>, clock: Clock, d: nat)
    requires d < 8 && |ops| + |more| + 1 < TWO_32 && NoNominalReport(more, d)
    requires Run(Initial(mandatory, start), ops).domains[d].health == FAILED
    ensures var b := Run(Run(Initial(mandatory, start), ops), more + [Arbitrate(clock)]);
      b.domains[d].health != NOMINAL && !Has(b.actives, d)
  {
    hide RequiredState, HealthMask, EntryFor, CommandFor, Has;
    HealthMatchesCount(mandatory, start, ops);
    var a := Run(Initial(mandatory, start), ops);
    assert a.domains[d].faultCount <= |ops|;
    StaysCounted(a, more + [Arbitrate(clock)], d);
    RunSnoc(a, more, Arbitrate(clock));
    var c := Refreshed(Run(a, more), clock.scanMs);
    HealthMaskExact(c.domains, NOMINAL, d);
  }

  /** The 32-bit count is the limit: one more fault and a heartbeat clear a domain exactly when it wraps. */
  lemma WrapClears(a: Arbitrator, d: Byte, health: Byte, dtc: nat, now: nat)
    requires a.Shape() && d < NUM_SENSOR_DOMAINS && health != NOMINAL && a.domains[d].faultCount < TWO_32
    ensures var b := Run(a, [Ingest(d, health, dtc, now), Heartbeat(d, now)]);
      b.domains[d].health == NOMINAL <==> a.domains[d].faultCount == TWO_32 - 1
  {
    var ops := [Ingest(d, health, dtc, now), Heartbeat(d, now)];
    assert ops[1..] == [Heartbeat(d, now)] && ops[1..][1..] == [];
    var b := Apply(a, ops[0]);
    assert Run(a, ops) == Run(b, ops[1..]) == Run(Apply(b, ops[1]), []);
  }

  /** n reports of a lost domain. */
  function Losses(d: Byte, n: nat): (ops: seq<Op>)
    ensures |ops| == n
  {
    if n == 0 then [] else Losses(d, n - 1) + [Ingest(d, FAILED, 0, 0)]
  }

  lemma RunNothing(a: Arbitrator)
    requires a.Shape()
    ensures Run(a, []) == a
  {
  }

  lemma {:induction false} LossesCount(mandatory: bv8, start: nat, d: Byte, n: nat)
    requires d < NUM_SENSOR_DOMAINS
    ensures Run(Initial(mandatory, start), Losses(d, n)).domains[d].faultCount == n % TWO_32
    decreases n
  {
    hide Run, RequiredState, HealthMask, EntryFor, CommandFor, CommitIn;
    if n == 0 {
      RunNothing(Initial(mandatory, start));
    } else {
      LossesCount(mandatory, start, d, n - 1);
      RunSnoc(Initial(mandatory, start), Losses(d, n - 1), Ingest(d, FAILED, 0, 0));
      ModStep(n - 1, TWO_32);
    }
  }

  /** The limit is reached: after 2^32 reports of a loss and nothing else, a heartbeat makes the domain nominal. */
  lemma WrapIsReached(mandatory: bv8, start: nat, d: Byte, now: nat)
    requires d < NUM_SENSOR_DOMAINS
    ensures Run(Initial(mandatory, start), Losses(d, TWO_32 - 1)).domains[d].faultCount == TWO_32 - 1
    ensures Run(Initial(mandatory, start), Losses(d, TWO_32) + [Heartbeat(d, now)]).domains[d].health == NOMINAL
  {
    hide Run, Losses;
    var a0 := Initial(mandatory, start);
    LossesCount(mandatory, start, d, TWO_32 - 1);
    LossesCount(mandatory, start, d, TWO_32);
    RunSnoc(a0, Losses(d, TWO_32), Heartbeat(d, now));
  }

  // ------------------------------------------------------------------
  // The transition log
  // ------------------------------------------------------------------

  /** The transition an operation performs, as the log records it. */
  function TransitionOf(a: Arbitrator, op: Op): seq<Transition>
    requires a.Shape()
  {
    if !op.Arbitrate? then []
    else
      var b := Refreshed(a, op.clock.scanMs);
      if Moves(b) then [EntryFor(b, RequiredState(b.faults, b.mandatory, b.domains), op.clock)] else []
  }

  /** Every transition of a run, oldest first. */
  function History(a: Arbitrator, ops: seq<Op>): seq<Transition>
    requires a.Shape()
    decreases |ops|
  {
    if ops == [] then [] else TransitionOf(a, ops[0]) + History(Apply(a, ops[0]), ops[1..])
  }

  /** Consecutive transitions join up, start at full operation, and number themselves from one. */
  ghost predicate Chained(h: seq<Transition>) {
    && (forall k :: 0 <= k < |h| ==> h[k].fromState != h[k].toState && h[k].sequenceNum == (k + 1) % TWO_32)
    && (forall k :: 0 <= k < |h| - 1 ==> h[k].toState == h[k + 1].fromState)
    && (h != [] ==> h[0].fromState == FullOperation)
  }

  function Reached(h: seq<Transition>): SafeState {
    if h == [] then FullOperation else h[|h| - 1].toState
  }

  ghost predicate LogHolds(a: Arbitrator, h: seq<Transition>) {
    && a.transitionCount == |h| % TWO_32
    && a.sequenceNum == |h| % TWO_32
    && a.logHead == |h| % MAX_TRANSITION_LOG
    && |a.log| == MAX_TRANSITION_LOG
    && a.current == Reached(h)
    && Chained(h)
    && (forall k :: 0 <= k < |h| && |h| - MAX_TRANSITION_LOG <= k ==> a.log[k % MAX_TRANSITION_LOG] == h[k])
  }

  lemma ExecuteLogs(a: Arbitrator, target: SafeState, clock: Clock, h: seq<Transition>)
    requires a.Shape() && LogHolds(a, h) && target != a.current
    ensures LogHolds(ExecuteIn(a, target, clock), h + [EntryFor(a, target, clock)])
  {
    hide CommandFor, Trigger;
    var n := |h|;
    var h' := h + [EntryFor(a, target, clock)];
    ModStep(n, TWO_32);
    ModStep(n, MAX_TRANSITION_LOG);
    forall k | 0 <= k < |h'| && |h'| - MAX_TRANSITION_LOG <= k
      ensures ExecuteIn(a, target, clock).log[k % MAX_TRANSITION_LOG] == h'[k]
    {
      if k < n { ModDistinct(k, n, MAX_TRANSITION_LOG); }
    }
  }

  lemma ApplyLogs(a: Arbitrator, op: Op, h: seq<Transition>)
    requires a.Shape() && LogHolds(a, h)
    ensures LogHolds(Apply(a, op), h + TransitionOf(a, op))
  {
    hide RequiredState, HealthMask, EntryFor, ExecuteIn;
    if TransitionOf(a, op) == [] {
      assert h + TransitionOf(a, op) == h;
    } else {
      var b := Refreshed(a, op.clock.scanMs);
      ExecuteLogs(b, RequiredState(b.faults, b.mandatory, b.domains), op.clock, h);
    }
  }

  lemma {:induction false} RunLogs(a: Arbitrator, ops: seq<Op>, h: seq<Transition>)
    requires a.Shape() && LogHolds(a, h)
    ensures LogHolds(Run(a, ops), h + History(a, ops))
    decreases |ops|
  {
    hide Apply, TransitionOf, LogHolds;
    if ops == [] {
      assert h + [] == h;
    } else {
      ApplyLogs(a, ops[0], h);
      RunLogs(Apply(a, ops[0]), ops[1..], h + TransitionOf(a, ops[0]));
      assert h + TransitionOf(a, ops[0]) + History(Apply(a, ops[0]), ops[1..]) == h + History(a, ops);
    }
  }

  /** What DrainTransitionLog copies, newest first. */
  function Drained(a: Arbitrator, bufferSize: nat): (r: seq<Transition>)
    requires a.Shape()
    ensures |r| == Min(Min(a.transitionCount, MAX_TRANSITION_LOG), bufferSize)
  {
    seq(Min(Min(a.transitionCount, MAX_TRANSITION_LOG), bufferSize), i =>
      a.log[(a.logHead + MAX_TRANSITION_LOG - 1 - i) % MAX_TRANSITION_LOG])
  }

  /** d is the end of h, newest first, as much of it as the count (modulo 2^32), the log and the buffer allow. */
  ghost predicate IsEnd(d: seq<Transition>, h: seq<Transition>, bufferSize: nat) {
    && |d| == Min(Min(|h| % TWO_32, MAX_TRANSITION_LOG), bufferSize)
    && |d| <= |h|
    && forall i :: 0 <= i < |d| ==> d[i] == h[|h| - 1 - i]
  }

  /**
    After any run from Init, draining returns the last transitions of the full history,
    newest first, as many as the count (modulo 2^32), the log and the buffer allow; and
    the history itself is a chain from full operation to the current state.  The drain is a
    whole call here; module LogRace lets commits fall between its accesses.
   */
  lemma {:induction false} DrainIsEndOfHistory(mandatory: bv8, start: nat, ops: seq<Op>, bufferSize: nat)
    ensures var a, h := Run(Initial(mandatory, start), ops), History(Initial(mandatory, start), ops);
      IsEnd(Drained(a, bufferSize), h, bufferSize) && Chained(h) && a.current == Reached(h)
  {
    hide Run, History, LogHolds, Initial, Drained, Chained, Reached, IsEnd;
    var a0 := Initial(mandatory, start);
    InitialLogs(mandatory, start);
    RunLogs(a0, ops, []);
    var a, h := Run(a0, ops), History(a0, ops);
    assert [] + h == h;
    DrainMatches(a, h, bufferSize);
  }

  lemma InitialLogs(mandatory: bv8, start: nat)
    ensures LogHolds(Initial(mandatory, start), [])
  {
  }

  lemma DrainMatches(a: Arbitrator, h: seq<Transition>, bufferSize: nat)
    requires a.Shape() && LogHolds(a, h)
    ensures IsEnd(Drained(a, bufferSize), h, bufferSize) && Chained(h) && a.current == Reached(h)
  {
    ModAtMost(|h|, TWO_32);
    var d := Drained(a, bufferSize);
    forall i | 0 <= i < |d| ensures d[i] == h[|h| - 1 - i] {
      LogPosition(|h|, i);
    }
  }

  lemma ModAtMost(n: nat, m: nat)
    requires m > 0
    ensures n % m <= n
  {
    MulAtLeast(m, n / m);
  }

  lemma LogPosition(n: nat, i: nat)
    requires i < MAX_TRANSITION_LOG && i < n
    ensures (n % MAX_TRANSITION_LOG + MAX_TRANSITION_LOG - 1 - i) % MAX_TRANSITION_LOG
            == (n - 1 - i) % MAX_TRANSITION_LOG
  {
  }
}
