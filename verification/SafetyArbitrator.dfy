/** The class of src/SafetyArbitrator.cpp, over the bridge class it sends through. */
module SafetyArbitrator {
  import opened GatewayTypes
  import opened Bytes
  import opened IpcBridge
  import opened DegradationMatrix
  import opened ArbitratorState
  import opened CommandCodec

  class Arbiter {
    const ipc: Bridge?
    const domains: array<Domain>
    const transitionLog: array<Transition>
    var currentState: SafeState
    var faultBitmask: bv8
    var activeBitmask: bv8
    var sequenceNum: nat
    var transitionCount: nat
    var mandatoryMask: bv8
    var lastCommand: Command
    var logHead: nat
    var initialised: bool

    constructor (bridge: Bridge?)
      ensures ipc == bridge && !initialised && fresh(domains) && fresh(transitionLog) && Laid()
    {
      ipc := bridge;
      domains := new Domain[MAX_SENSOR_DOMAINS](_ => Domain(UNKNOWN, 0, 0, 0));
      transitionLog := new Transition[MAX_TRANSITION_LOG](_ => BlankTransition());
      currentState, faultBitmask, activeBitmask := FullOperation, 0, 0xFF;
      sequenceNum, transitionCount, mandatoryMask, logHead := 0, 0, 0, 0;
      lastCommand := FirstCommand();
      initialised := false;
    }

    /** Array sizes and counter ranges. */
    ghost predicate Laid()
      reads this
    {
      && domains.Length == MAX_SENSOR_DOMAINS && transitionLog.Length == MAX_TRANSITION_LOG
      && logHead < MAX_TRANSITION_LOG && transitionCount < TWO_32 && sequenceNum < TWO_32
      && (initialised ==> ipc != null)
    }

    /** The state as a value. */
    ghost function View(): (a: Arbitrator)
      requires Laid()
      reads this, domains, transitionLog
      ensures a.Shape()
    {
      Arbitrator(domains[..], currentState, faultBitmask, activeBitmask, sequenceNum, transitionCount,
                 mandatoryMask, lastCommand, transitionLog[..], logHead)
    }

    /** src/SafetyArbitrator.cpp, Init. */
    method Init(mandatory: bv8, now: nat) returns (r: VoidResult)
      requires Laid()
      modifies this, domains
      ensures Laid()
      ensures r == if old(initialised) then Err(AlreadyRegistered)
                   else if ipc == null then Err(NullPointer) else Ok
      ensures r == Ok ==> initialised && View() == Initial(mandatory, now).(log := old(transitionLog[..]))
      ensures r != Ok ==> unchanged(this) && unchanged(domains)
    {
      if initialised { return Err(AlreadyRegistered); }
      if ipc == null { return Err(NullPointer); }
      mandatoryMask := mandatory;
      logHead, sequenceNum, transitionCount := 0, 0, 0;
      currentState, faultBitmask, activeBitmask := FullOperation, 0, 0xFF;
      forall i | 0 <= i < domains.Length { domains[i] := Domain(UNKNOWN, now, 0, 0); }
      lastCommand := FirstCommand();
      initialised := true;
      assert domains[..] == Initial(mandatory, now).domains;
      return Ok;
    }

    /** src/SafetyArbitrator.cpp, IngestFault. */
    method IngestFault(domain: Byte, health: Byte, dtc: nat, now: nat) returns (r: VoidResult)
      requires Laid()
      modifies domains
      ensures r == if !initialised then Err(NotInitialized) else IngestIn(old(View()), domain, health, dtc, now).1
      ensures View() == if !initialised then old(View()) else IngestIn(old(View()), domain, health, dtc, now).0
    {
      if !initialised { return Err(NotInitialized); }
      if domain >= NUM_SENSOR_DOMAINS { return Err(InvalidArgument); }
      ghost var before := domains[..];
      domains[domain] := domains[domain].(health := health);
      domains[domain] := domains[domain].(dtcCode := dtc);
      if health == NOMINAL {
        domains[domain] := domains[domain].(faultCount := 0);
        domains[domain] := domains[domain].(lastHeartbeat := now);
      } else {
        domains[domain] := domains[domain].(faultCount := Increment32(domains[domain].faultCount));
      }
      assert domains[..] == before[domain := FaultOn(before[domain], health, dtc, now)];
      return Ok;
    }

    /** src/SafetyArbitrator.cpp, RecordHeartbeat. */
    method RecordHeartbeat(domain: Byte, now: nat) returns (r: VoidResult)
      requires Laid()
      modifies domains
      ensures r == if !initialised then Err(NotInitialized) else HeartbeatIn(old(View()), domain, now).1
      ensures View() == if !initialised then old(View()) else HeartbeatIn(old(View()), domain, now).0
    {
      if !initialised { return Err(NotInitialized); }
      if domain >= NUM_SENSOR_DOMAINS { return Err(InvalidArgument); }
      ghost var before := domains[..];
      domains[domain] := domains[domain].(lastHeartbeat := now);
      if domains[domain].faultCount == 0 {
        domains[domain] := domains[domain].(health := NOMINAL);
      }
      assert domains[..] == before[domain := BeatOn(before[domain], now)];
      return Ok;
    }

    /** src/SafetyArbitrator.cpp, IngestSoaEvent: neither byte is validated beyond the domain check of IngestFault. */
    method IngestSoaEvent(event: SoaEvent, now: nat) returns (r: VoidResult)
      requires Laid() && |event.payload| == MAX_PAYLOAD_BYTES
      modifies domains
      ensures var report := ReportOf(event.payload);
        && r == (if !initialised then Err(NotInitialized)
                 else if event.payloadLen < 12 then Err(InvalidArgument)
                 else IngestIn(old(View()), report.domain, report.health, report.faultCode, now).1)
        && View() == (if !initialised || event.payloadLen < 12 then old(View())
                      else IngestIn(old(View()), report.domain, report.health, report.faultCode, now).0)
    {
      if !initialised { return Err(NotInitialized); }
      if event.payloadLen < 12 { return Err(InvalidArgument); }
      var p := event.payload;
      r := IngestFault(NatOf(p[0]), NatOf(p[1]), NatOfWord(p[4..8]), now);
    }

    /** src/SafetyArbitrator.cpp, ScanTimeouts. */
    method ScanTimeouts(now: nat)
      requires Laid()
      modifies domains
      ensures domains[..] == ScanIn(old(domains[..]), now)
    {
      ghost var before := domains[..];
      var i := 0;
      while i < MAX_SENSOR_DOMAINS
        invariant 0 <= i <= MAX_SENSOR_DOMAINS
        invariant forall k :: 0 <= k < i ==> domains[k] == Scanned(before[k], now)
        invariant forall k :: i <= k < MAX_SENSOR_DOMAINS ==> domains[k] == before[k]
      {
        var lastBeat := domains[i].lastHeartbeat;
        if now >= lastBeat {
          var ageMs := now - lastBeat;
          if ageMs > SENSOR_TIMEOUT_MS {
            if domains[i].health != FAILED {
              domains[i] := domains[i].(health := FAILED);
              domains[i] := domains[i].(faultCount := Increment32(domains[i].faultCount));
            }
          }
        }
        i := i + 1;
      }
    }

    /** src/SafetyArbitrator.cpp, UpdateBitmasks. */
    method UpdateBitmasks()
      requires Laid()
      modifies `faultBitmask, `activeBitmask
      ensures faultBitmask == HealthMask(domains[..], FAILED)
      ensures activeBitmask == HealthMask(domains[..], NOMINAL)
    {
      hide MaskOf, MaskBit;
      ghost var failed, nominal := Flags(domains[..], FAILED), Flags(domains[..], NOMINAL);
      var faults: bv8 := 0;
      var actives: bv8 := 0;
      MaskOfNone();
      var i := 0;
      while i < MAX_SENSOR_DOMAINS
        invariant 0 <= i <= MAX_SENSOR_DOMAINS
        invariant faults == MaskOf(failed[..i]) && actives == MaskOf(nominal[..i])
      {
        MaskOfSnoc(failed, i);
        MaskOfSnoc(nominal, i);
        var h := domains[i].health;
        if h == NOMINAL {
          actives := actives | MaskBit(i);
        } else if h == FAILED {
          faults := faults | MaskBit(i);
        }
        i := i + 1;
      }
      assert failed[..8] == failed && nominal[..8] == nominal;
      faultBitmask := faults;
      activeBitmask := actives;
    }

    /** src/SafetyArbitrator.cpp, ComputeRequiredState. */
    method ComputeRequiredState() returns (required: SafeState)
      requires Laid()
      ensures required == RequiredState(faultBitmask, mandatoryMask, domains[..])
    {
      hide Has;
      var faults := faultBitmask;
      if Has(faults, LIDAR) && Has(faults, RADAR) { return MinimalRiskCondition; }
      if faults & mandatoryMask != 0 {
        var i := 0;
        while i < MAX_SENSOR_DOMAINS
          invariant 0 <= i <= MAX_SENSOR_DOMAINS
          invariant ThresholdReached(mandatoryMask, domains[..], 0) == ThresholdReached(mandatoryMask, domains[..], i)
        {
          if Has(mandatoryMask, i) {
            if domains[i].faultCount >= FAULT_THRESHOLD { return MinimalRiskCondition; }
          }
          i := i + 1;
        }
      }
      if Has(faults, LIDAR) { return RadarCameraFallback; }
      if Has(faults, RADAR) { return LidarCameraFallback; }
      if Has(faults, CAMERA) { return LidarRadarFallback; }
      if Has(faults, GNSS) && !Has(faults, IMU) { return DeadReckoningMode; }
      if Has(faults, IMU) { return ReducedDynamics; }
      return FullOperation;
    }

    /** src/SafetyArbitrator.cpp, LogTransition. */
    method LogTransition(from: SafeState, to: SafeState, trigger: nat, latencyMs: nat, now: nat)
      requires Laid()
      modifies `logHead, transitionLog
      ensures Laid() && logHead == (old(logHead) + 1) % MAX_TRANSITION_LOG
      ensures transitionLog[..] == old(transitionLog[..])[old(logHead) :=
                Transition(from, to, trigger, now, latencyMs, transitionCount)]
    {
      var head := logHead;
      var nextHead := (head + 1) % MAX_TRANSITION_LOG;
      transitionLog[head] := Transition(from, to, trigger, now, latencyMs, transitionCount);
      logHead := nextHead;
    }

    /** The bridge can take one more event. */
    ghost predicate BridgeReady()
      requires ipc != null && ipc.Valid()
      reads ipc, ipc.ring, if ipc.ring == null then {} else {ipc.ring.slots}
    {
      ipc.initialised && ipc.ring.Unread() < RING_SLOTS - 1
    }

    /** Everything a send may touch. */
    ghost function BridgeFrame(): set<object>
      reads this, ipc
    {
      if ipc == null then {}
      else if ipc.ring == null then {ipc}
      else {ipc, ipc.ring}
    }

    /** The arbitrator's own arrays are not the bridge's. */
    ghost predicate Apart()
      reads this, ipc, if ipc == null || ipc.ring == null then {} else {ipc.ring}
    {
      && (this as object) !in BridgeFrame() && (domains as object) !in BridgeFrame()
      && (transitionLog as object) !in BridgeFrame()
      && (ipc != null && ipc.ring != null ==>
            (ipc.ring.slots as object) != domains && (ipc.ring.slots as object) != transitionLog
            && (ipc.ring.slots as object) != this)
    }

    /** src/SafetyArbitrator.cpp, SendCommandToM7. */
    method SendCommandToM7(cmd: Command) returns (r: VoidResult)
      requires Laid() && Apart() && (ipc != null ==> ipc.Valid())
      modifies if ipc == null then {} else {ipc},
               if ipc == null || ipc.ring == null then {} else {ipc.ring},
               if ipc == null || ipc.ring == null then {} else {ipc.ring.slots}
      ensures Laid() && Apart() && View() == old(View()) && (ipc != null ==> ipc.Valid())
      ensures ipc != null ==> ipc.ring == old(ipc.ring) && ipc.initialised == old(ipc.initialised)
      ensures ipc != null && ipc.ring != null ==> ipc.ring.slots == old(ipc.ring.slots)
      ensures r == Ok <==> ipc != null && old(BridgeReady())
      ensures r == Ok ==> ipc.ring != null && ipc.ring.sent == old(ipc.ring.sent) + [CommandEvent(cmd)]
      ensures r != Ok && ipc != null && ipc.ring != null ==> ipc.ring.sent == old(ipc.ring.sent)
    {
      hide CommandEvent;
      if ipc == null { return Err(NullPointer); }
      var ev := CommandEvent(cmd);
      CommandLength(ev);
      r := ipc.Send(ev);
    }

    /** The loop of ExecuteTransition that looks for the primary trigger domain. */
    method FindTrigger() returns (trigger: nat)
      ensures trigger == Trigger(faultBitmask, 0)
    {
      hide Has;
      trigger := INVALID_DOMAIN;
      var i := 0;
      while i < MAX_SENSOR_DOMAINS
        invariant 0 <= i <= MAX_SENSOR_DOMAINS && trigger == INVALID_DOMAIN
        invariant Trigger(faultBitmask, 0) == Trigger(faultBitmask, i)
      {
        if Has(faultBitmask, i) {
          trigger := i;
          break;
        }
        i := i + 1;
      }
    }

    /** src/SafetyArbitrator.cpp, ExecuteTransition. */
    method ExecuteTransition(target: SafeState, clock: Clock) returns (r: VoidResult)
      requires Laid() && ipc != null && Apart() && ipc.Valid()
      modifies this, transitionLog, ipc,
               if ipc.ring == null then {} else {ipc.ring}, if ipc.ring == null then {} else {ipc.ring.slots}
      ensures Laid() && Apart() && ipc.Valid() && initialised == old(initialised)
      ensures View() == ExecuteIn(old(View()), target, clock)
      ensures r == if clock.Latency() > SAFE_STATE_TRANSITION_MS then Err(Timeout)
                   else if !old(BridgeReady()) then Err(E2eViolation) else Ok
      ensures ipc.ring == old(ipc.ring)
      ensures old(BridgeReady()) ==>
        ipc.ring.sent == old(ipc.ring.sent) + [CommandEvent(CommandFor(old(View()), target))]
      ensures !old(BridgeReady()) && ipc.ring != null ==> ipc.ring.sent == old(ipc.ring.sent)
    {
      hide CommandEvent, Trigger, CommandFor, Bridge.Valid;
      var from := currentState;
      var cmd := Prepare(target);
      var trigger := FindTrigger();
      label Sending:
      var sendResult := SendCommandToM7(cmd);
      assert sendResult == Ok <==> old@Sending(BridgeReady());
      assert old@Sending(BridgeReady()) == old(BridgeReady());
      var latencyMs := clock.Latency();
      cmd := cmd.(transitionMs := latencyMs);
      Commit(from, target, cmd, trigger, latencyMs, clock.logMs);
      if latencyMs > SAFE_STATE_TRANSITION_MS { return Err(Timeout); }
      if sendResult != Ok { return Err(E2eViolation); }
      return Ok;
    }

    /** The command for the bridge, numbered one above the last. */
    method Prepare(target: SafeState) returns (cmd: Command)
      requires Laid() && Apart()
      modifies `sequenceNum
      ensures Laid() && Apart() && cmd == CommandFor(old(View()), target)
      ensures View() == old(View()).(sequenceNum := Increment32(old(View()).sequenceNum))
    {
      sequenceNum := Increment32(sequenceNum);
      cmd := Command(ARBITRATOR_MAGIC, target, activeBitmask, faultBitmask,
                     MaxSpeed(target), MaxDecel(target), 0, sequenceNum);
    }

    /** The state changes after the send. */
    method Commit(from: SafeState, target: SafeState, cmd: Command, trigger: nat, latencyMs: nat, now: nat)
      requires Laid() && Apart()
      modifies `currentState, `lastCommand, `transitionCount, `logHead, transitionLog
      ensures Laid() && Apart()
      ensures View() == old(View()).(
                current := target, lastCommand := cmd,
                transitionCount := Increment32(old(View()).transitionCount),
                log := old(View()).log[old(View()).logHead :=
                  Transition(from, target, trigger, now, latencyMs, Increment32(old(View()).transitionCount))],
                logHead := (old(View()).logHead + 1) % MAX_TRANSITION_LOG)
    {
      currentState := target;
      lastCommand := cmd;
      transitionCount := Increment32(transitionCount);
      LogTransition(from, target, trigger, latencyMs, now);
    }

    /** src/SafetyArbitrator.cpp, Arbitrate. */
    method Arbitrate(clock: Clock) returns (r: VoidResult)
      requires Laid() && Apart() && (ipc != null ==> ipc.Valid())
      modifies this, domains, transitionLog, if ipc == null then {} else {ipc},
               if ipc == null || ipc.ring == null then {} else {ipc.ring},
               if ipc == null || ipc.ring == null then {} else {ipc.ring.slots}
      ensures Laid() && Apart() && (ipc != null ==> ipc.Valid()) && initialised == old(initialised)
      ensures r == if !initialised then Err(NotInitialized)
                   else ArbitrateResult(old(View()), clock, old(BridgeReady()))
      ensures View() == if !initialised then old(View()) else ArbitrateIn(old(View()), clock)
      ensures initialised ==> ipc.ring == old(ipc.ring)
      ensures initialised && ipc.ring != null ==>
        var b := Refreshed(old(View()), clock.scanMs);
        ipc.ring.sent == old(ipc.ring.sent) +
          (if Moves(b) && old(BridgeReady())
           then [CommandEvent(CommandFor(b, RequiredState(b.faults, b.mandatory, b.domains)))] else [])
    {
      hide CommandEvent, HealthMask, RequiredState, ExecuteIn, CommandFor;
      if !initialised { return Err(NotInitialized); }
      ScanTimeouts(clock.scanMs);
      UpdateBitmasks();
      var required := ComputeRequiredState();
      assert View() == Refreshed(old(View()), clock.scanMs);
      if required == currentState { return Ok; }
      if currentState == EmergencyStop { return Ok; }
      r := ExecuteTransition(required, clock);
    }

    /** src/SafetyArbitrator.cpp, DrainTransitionLog: as many of the newest transitions as fit the buffer. */
    method DrainTransitionLog(buffer: array?<Transition>) returns (toCopy: nat)
      requires Laid() && buffer != transitionLog
      modifies if buffer == null then {} else {buffer}
      ensures buffer == null ==> toCopy == 0
      ensures buffer != null ==>
        && toCopy <= buffer.Length && buffer[..toCopy] == Drained(View(), buffer.Length)
        && forall k :: toCopy <= k < buffer.Length ==> buffer[k] == old(buffer[k])
    {
      if buffer == null { return 0; }
      ghost var log, drained := transitionLog[..], Drained(View(), buffer.Length);
      var head := logHead;
      var count := if transitionCount > MAX_TRANSITION_LOG then MAX_TRANSITION_LOG else transitionCount;
      toCopy := if count < buffer.Length then count else buffer.Length;
      var i := 0;
      while i < toCopy
        invariant 0 <= i <= toCopy && transitionLog[..] == log
        invariant forall k :: 0 <= k < i ==> buffer[k] == drained[k]
        invariant forall k :: i <= k < buffer.Length ==> buffer[k] == old(buffer[k])
      {
        var idx := (head + MAX_TRANSITION_LOG - 1 - i) % MAX_TRANSITION_LOG;
        assert log[idx] == drained[i];
        buffer[i] := transitionLog[idx];
        i := i + 1;
      }
      assert buffer[..toCopy] == drained;
    }
  }

  lemma MaskOfNone()
    ensures MaskOf([]) == 0
  {
  }

  lemma MaskOfSnoc(flags: seq<bool>, i: nat)
    requires i < |flags| <= 8
    ensures MaskOf(flags[..i + 1]) == if flags[i] then MaskOf(flags[..i]) | MaskBit(i) else MaskOf(flags[..i])
  {
    assert flags[..i + 1][..i] == flags[..i];
  }
}
