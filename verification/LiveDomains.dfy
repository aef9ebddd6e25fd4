/**
  What src/SafetyArbitrator.cpp owes to sensors that work: a domain that keeps giving signs
  of life is never taken for lost, and while all do the gateway keeps full operation.  And
  what one Arbitrate leaves behind, in numbers: who is timed out, which state follows, what
  the command and the log say.
 */
module LiveDomains {
  import opened GatewayTypes
  import opened DegradationMatrix
  import opened ArbitratorState

  // ------------------------------------------------------------------
  // One Arbitrate
  // ------------------------------------------------------------------

  /**
    The scan of an Arbitrate: a domain that had not failed fails, and counts one fault, if
    and only if its last sign of life is more than 100 ms old; otherwise it is left alone.
   */
  lemma ScanExactly(a: Arbitrator, clock: Clock, i: nat)
    requires a.Shape() && i < 8
    ensures var d, r := a.domains[i], ArbitrateIn(a, clock).domains[i];
      && r.lastHeartbeat == d.lastHeartbeat && r.dtcCode == d.dtcCode
      && (d.health == 2 ==> r == d)
      && (d.health != 2 && clock.scanMs > d.lastHeartbeat + 100 ==>
            r.health == 2 && r.faultCount == (d.faultCount + 1) % 0x1_0000_0000)
      && (d.health != 2 && clock.scanMs <= d.lastHeartbeat + 100 ==> r == d)
  {
    hide RequiredState, HealthMask, ExecuteIn;
    assert ArbitrateIn(a, clock).domains == ScanIn(a.domains, clock.scanMs);
  }

  /** Lidar and radar lost, or a mandatory domain lost and a mandatory domain with three faults, perhaps another. */
  ghost predicate MinimalRisk(domains: seq<Domain>, mandatory: bv8)
    requires |domains| == 8
  {
    || (domains[0].health == 2 && domains[1].health == 2)
    || ((exists i :: 0 <= i < 8 && Has(mandatory, i) && domains[i].health == 2)
        && (exists j :: 0 <= j < 8 && Has(mandatory, j) && domains[j].faultCount >= 3))
  }

  /** The state after an Arbitrate, by the domains as the scan leaves them. */
  lemma StateExactly(a: Arbitrator, clock: Clock)
    requires a.Shape() && a.current != EmergencyStop
    ensures var r := ArbitrateIn(a, clock);
      var lidar, radar, camera := Failed(r.domains, 0), Failed(r.domains, 1), Failed(r.domains, 2);
      var gnss, imu, mrc := Failed(r.domains, 3), Failed(r.domains, 4), MinimalRisk(r.domains, a.mandatory);
      && (r.current == MinimalRiskCondition <==> mrc)
      && (r.current == RadarCameraFallback <==> !mrc && lidar)
      && (r.current == LidarCameraFallback <==> !mrc && !lidar && radar)
      && (r.current == LidarRadarFallback <==> !mrc && !lidar && !radar && camera)
      && (r.current == ReducedDynamics <==> !mrc && !lidar && !radar && !camera && imu)
      && (r.current == DeadReckoningMode <==> !mrc && !lidar && !radar && !camera && !imu && gnss)
      && (r.current == FullOperation <==> !mrc && !lidar && !radar && !camera && !imu && !gnss)
  {
    hide RequiredState, HealthMask, Has, Refreshed, ArbitrateIn, Matrix, InMrc, MinimalRisk;
    ArbitrateFields(a, clock);
    RefreshedMasks(a, clock.scanMs);
    RefreshedMandatory(a, clock.scanMs);
    MatrixByState(ArbitrateIn(a, clock).domains, a.mandatory);
    MrcByFaults(ArbitrateIn(a, clock).domains, a.mandatory);
  }

  lemma RefreshedMandatory(a: Arbitrator, now: nat)
    requires a.Shape()
    ensures Refreshed(a, now).mandatory == a.mandatory
  {
  }

  lemma MrcByFaults(domains: seq<Domain>, mandatory: bv8)
    requires |domains| == 8
    ensures InMrc(domains, mandatory) <==> MinimalRisk(domains, mandatory)
  {
    hide Has;
    assert forall i :: 0 <= i < 8 ==> (Failed(domains, i) <==> domains[i].health == 2);
  }

  lemma MatrixByState(domains: seq<Domain>, mandatory: bv8)
    requires |domains| == 8
    ensures var lidar, radar, camera := Failed(domains, 0), Failed(domains, 1), Failed(domains, 2);
      var gnss, imu, mrc := Failed(domains, 3), Failed(domains, 4), InMrc(domains, mandatory);
      var s := Matrix(domains, mandatory);
      && (s == MinimalRiskCondition <==> mrc)
      && (s == RadarCameraFallback <==> !mrc && lidar)
      && (s == LidarCameraFallback <==> !mrc && !lidar && radar)
      && (s == LidarRadarFallback <==> !mrc && !lidar && !radar && camera)
      && (s == ReducedDynamics <==> !mrc && !lidar && !radar && !camera && imu)
      && (s == DeadReckoningMode <==> !mrc && !lidar && !radar && !camera && !imu && gnss)
      && (s == FullOperation <==> !mrc && !lidar && !radar && !camera && !imu && !gnss)
  {
    hide InMrc;
  }

  /** The value of an IEEE 754 single between 1 and 2^23, from its bits. */
  function Single(bits: U32): real {
    var exponent, mantissa := bits / 0x80_0000 % 256, bits % 0x80_0000;
    if 127 <= exponent <= 150
    then (0x80_0000 + mantissa) as real / Pow2(150 - exponent) as real
    else 0.0
  }

  function Pow2(n: nat): (r: nat)
    ensures r > 0
  {
    if n == 0 then 1 else 2 * Pow2(n - 1)
  }

  /** The speed each state allows, in km/h, and the deceleration, in m/s^2, to a millionth. */
  lemma StateLimits()
    ensures Single(MaxSpeed(FullOperation)) == 130.0
    ensures Single(MaxSpeed(RadarCameraFallback)) == 100.0 && Single(MaxSpeed(LidarCameraFallback)) == 100.0
    ensures Single(MaxSpeed(LidarRadarFallback)) == 30.0 && Single(MaxSpeed(DeadReckoningMode)) == 30.0
    ensures Single(MaxSpeed(ReducedDynamics)) == 30.0 && Single(MaxSpeed(MinimalRiskCondition)) == 20.0
    ensures MaxSpeed(EmergencyStop) == 0
    ensures forall s :: s != DeadReckoningMode && s != ReducedDynamics && s != MinimalRiskCondition
                        ==> 9.809999 < Single(MaxDecel(s)) < 9.810001
    ensures 6.866999 < Single(MaxDecel(DeadReckoningMode)) < 6.867001
    ensures 4.904999 < Single(MaxDecel(ReducedDynamics)) < 4.905001
    ensures 2.942999 < Single(MaxDecel(MinimalRiskCondition)) < 2.943001
  {
    Powers();
    hide Single, Pow2;
    SingleValue(0x4302_0000, 134, 0x02_0000);
    SingleValue(0x42C8_0000, 133, 0x48_0000);
    SingleValue(0x41F0_0000, 131, 0x70_0000);
    SingleValue(0x41A0_0000, 131, 0x20_0000);
    SingleValue(0x411C_F5C3, 130, 0x1C_F5C3);
    SingleValue(0x40DB_BE77, 129, 0x5B_BE77);
    SingleValue(0x409C_F5C3, 129, 0x1C_F5C3);
    SingleValue(0x403C_5A1E, 128, 0x3C_5A1E);
  }

  lemma SingleValue(bits: U32, exponent: nat, mantissa: nat)
    requires 127 <= exponent <= 150 && mantissa < 0x80_0000 && bits == 0x80_0000 * exponent + mantissa
    ensures Single(bits) == (0x80_0000 + mantissa) as real / Pow2(150 - exponent) as real
  {
    hide Pow2;
    assert bits / 0x80_0000 == exponent && bits % 0x80_0000 == mantissa;
  }

  lemma Powers()
    ensures Pow2(16) == 65536 && Pow2(17) == 131072 && Pow2(19) == 524288
    ensures Pow2(20) == 1048576 && Pow2(21) == 2097152 && Pow2(22) == 4194304
  {
    assert Pow2(2) == 4;
    assert Pow2(4) == 16;
    assert Pow2(6) == 64;
    assert Pow2(8) == 256;
    assert Pow2(10) == 1024;
    assert Pow2(12) == 4096;
    assert Pow2(14) == 16384;
    assert Pow2(16) == 65536;
    assert Pow2(18) == 262144;
    assert Pow2(20) == 1048576;
  }

  /** The trigger in the log is the failed domain with the lowest number, or 7 if none below 7 has failed. */
  lemma {:induction false} TriggerFrom(domains: seq<Domain>, i: nat)
    requires |domains| == 8 && i <= 8
    ensures var t := Trigger(HealthMask(domains, FAILED), i);
      && t <= 7 && (i <= 7 ==> i <= t)
      && (forall k :: i <= k < t ==> domains[k].health != 2)
      && (i <= t < 7 ==> domains[t].health == 2)
    decreases 8 - i
  {
    hide HealthMask, Has;
    if i < 8 {
      HealthMaskExact(domains, FAILED, i);
      TriggerFrom(domains, i + 1);
    }
  }

  /** How long the send took, as the 32-bit difference of the readings around it. */
  function Took(clock: Clock): nat {
    if clock.endMs >= clock.startMs then (clock.endMs - clock.startMs) % 0x1_0000_0000 else 0
  }

  /**
    What a transition puts into the log: from the old state to the new one, the failed
    domain with the lowest number, the reading taken for the log, and how long the send
    took.  The last command repeats state and time and carries the published masks.
   */
  lemma TransitionRecorded(a: Arbitrator, clock: Clock, buffer: nat)
    requires a.Shape() && ArbitrateIn(a, clock).current != a.current && buffer >= 1 && a.transitionCount + 1 < TWO_32
    ensures var r := ArbitrateIn(a, clock);
      && Drained(r, buffer) != []
      && Recorded(Drained(r, buffer)[0], a.current, r, clock)
      && r.lastCommand.state == r.current && r.lastCommand.transitionMs == Took(clock)
      && r.lastCommand.faultBitmask == r.faults && r.lastCommand.activeDomains == r.actives
  {
    hide RequiredState, HealthMask, MaxSpeed, MaxDecel, Trigger;
    var b := Refreshed(a, clock.scanMs);
    TriggerFrom(b.domains, 0);
    var entry := EntryFor(b, RequiredState(b.faults, b.mandatory, b.domains), clock);
    var r := ArbitrateIn(a, clock);
    NewestIndex(a.logHead);
    assert r.log[a.logHead].fromState == entry.fromState;
  }

  lemma NewestIndex(head: nat)
    requires head < MAX_TRANSITION_LOG
    ensures ((head + 1) % MAX_TRANSITION_LOG + MAX_TRANSITION_LOG - 1 - 0) % MAX_TRANSITION_LOG == head
  {
  }

  ghost predicate Recorded(entry: Transition, before: SafeState, r: Arbitrator, clock: Clock) {
    && entry.fromState == before && entry.toState == r.current
    && entry.timestampMs == clock.logMs && entry.transitionMs == Took(clock)
    && |r.domains| == 8 && entry.trigger <= 7
    && (forall k :: 0 <= k < entry.trigger ==> r.domains[k].health != 2)
    && (entry.trigger < 7 ==> r.domains[entry.trigger].health == 2)
  }

  /** Arbitrate reports a time-out exactly when it changes the state and the send took more than 50 ms, sent or not. */
  lemma TimeoutExactly(a: Arbitrator, clock: Clock, sent: bool)
    requires a.Shape() && clock.endMs < 0x1_0000_0000
    ensures ArbitrateResult(a, clock, sent) == Err(Timeout)
            <==> ArbitrateIn(a, clock).current != a.current && clock.endMs > clock.startMs + 50
    ensures ArbitrateResult(a, clock, sent) == Err(E2eViolation)
            <==> ArbitrateIn(a, clock).current != a.current && clock.endMs <= clock.startMs + 50 && !sent
  {
    hide RequiredState, HealthMask, EntryFor, CommandFor;
  }

  // ------------------------------------------------------------------
  // Domains that keep giving signs of life
  // ------------------------------------------------------------------

  /**
    Domain d, last heard of at h, stays within 100 ms: every scan reads the clock at most
    100 ms after its latest heartbeat or nominal report, and no other report on it comes in.
   */
  ghost predicate Lively(ops: seq<Op>, d: nat, h: nat)
    decreases |ops|
  {
    ops == [] ||
    match ops[0]
    case Heartbeat(domain, now) => Lively(ops[1..], d, if domain == d then now else h)
    case Ingest(domain, health, _, now) =>
      (domain == d ==> health == 0) && Lively(ops[1..], d, if domain == d then now else h)
    case Arbitrate(clock) => clock.scanMs <= h + 100 && Lively(ops[1..], d, h)
  }

  /** Nominal, nothing counted, last heard of at h. */
  ghost predicate Well(a: Arbitrator, d: nat, h: nat)
    requires a.Shape() && d < 8
  {
    a.domains[d].health == 0 && a.domains[d].faultCount == 0 && a.domains[d].lastHeartbeat == h
  }

  lemma ReportKeepsWell(a: Arbitrator, op: Op, d: nat, h: nat)
    requires a.Shape() && d < 7 && Well(a, d, h) && !op.Arbitrate?
    requires op.Ingest? && op.domain == d ==> op.health == 0
    ensures Well(Apply(a, op), d, if op.domain == d then op.now else h)
  {
  }

  lemma ArbitrateKeepsWell(a: Arbitrator, clock: Clock, d: nat, h: nat)
    requires a.Shape() && d < 7 && Well(a, d, h) && clock.scanMs <= h + 100
    ensures Well(ArbitrateIn(a, clock), d, h)
  {
    ScanExactly(a, clock, d);
    hide ArbitrateIn;
  }

  lemma {:induction false} RunKeepsWell(a: Arbitrator, ops: seq<Op>, d: nat, h: nat)
    requires a.Shape() && d < 7 && Well(a, d, h) && Lively(ops, d, h)
    ensures exists last :: Well(Run(a, ops), d, last)
    decreases |ops|
  {
    hide Apply, ArbitrateIn, Well;
    if ops == [] {
      assert Run(a, ops) == a;
    } else {
      var op := ops[0];
      if op.Arbitrate? {
        ArbitrateKeepsWell(a, op.clock, d, h);
        assert op == Arbitrate(op.clock);
        ApplyArbitrate(a, op.clock);
        RunKeepsWell(Apply(a, op), ops[1..], d, h);
        assert Run(a, ops) == Run(Apply(a, op), ops[1..]);
      } else {
        ReportKeepsWell(a, op, d, h);
        RunKeepsWell(Apply(a, op), ops[1..], d, if op.domain == d then op.now else h);
        assert Run(a, ops) == Run(Apply(a, op), ops[1..]);
      }
    }
  }

  lemma ApplyArbitrate(a: Arbitrator, clock: Clock)
    requires a.Shape()
    ensures Apply(a, Arbitrate(clock)) == ArbitrateIn(a, clock)
  {
  }

  /** A heartbeat while nothing is counted, or a nominal report, makes a domain well and stamps it. */
  lemma SignOfLife(a: Arbitrator, d: Byte, dtc: nat, h: nat)
    requires a.Shape() && d < 7
    ensures Well(Apply(a, Ingest(d, 0, dtc, h)), d, h)
    ensures a.domains[d].faultCount == 0 ==> Well(Apply(a, Heartbeat(d, h)), d, h)
  {
  }

  lemma MasksAfter(a: Arbitrator, clock: Clock, d: nat)
    requires a.Shape() && d < 8
    ensures var r := ArbitrateIn(a, clock);
      && (Has(r.actives, d) <==> r.domains[d].health == 0) && (Has(r.faults, d) <==> r.domains[d].health == 2)
  {
    hide RequiredState, HealthMask, Has, ExecuteIn;
    RefreshedMasks(a, clock.scanMs);
    var r, b := ArbitrateIn(a, clock), Refreshed(a, clock.scanMs);
    assert r.domains == b.domains && r.faults == b.faults && r.actives == b.actives by { ArbitratePublishes(a, clock); }
  }

  lemma ArbitratePublishes(a: Arbitrator, clock: Clock)
    requires a.Shape()
    ensures var r, b := ArbitrateIn(a, clock), Refreshed(a, clock.scanMs);
      r.domains == b.domains && r.faults == b.faults && r.actives == b.actives
  {
    hide RequiredState, HealthMask, EntryFor, CommandFor;
  }

  /**
    A domain that keeps giving signs of life is never taken for lost: after every Arbitrate
    its bit is in the active mask and not in the fault mask, whatever the other domains do.
   */
  lemma {:induction false} LiveDomainActive(a: Arbitrator, ops: seq<Op>, clock: Clock, d: nat, h: nat)
    requires a.Shape() && d < 7 && Well(a, d, h) && Lively(ops + [Arbitrate(clock)], d, h)
    ensures var r := Run(a, ops + [Arbitrate(clock)]);
      && Has(r.actives, d) && !Has(r.faults, d)
      && r.domains[d].health == 0 && r.domains[d].faultCount == 0
  {
    hide Run, Has, ArbitrateIn;
    RunKeepsWell(a, ops + [Arbitrate(clock)], d, h);
    RunSnoc(a, ops, Arbitrate(clock));
    ApplyArbitrate(Run(a, ops), clock);
    MasksAfter(Run(a, ops), clock, d);
  }

  /** Domain 7, which no report reaches, has counted at most one fault, and none before it failed. */
  ghost predicate OneLoss(a: Arbitrator)
    requires a.Shape()
  {
    a.domains[7].faultCount <= if a.domains[7].health == 2 then 1 else 0
  }

  lemma {:induction false} OneLossKept(a: Arbitrator, ops: seq<Op>)
    requires a.Shape() && OneLoss(a)
    ensures OneLoss(Run(a, ops))
    decreases |ops|
  {
    hide ArbitrateIn;
    if ops != [] {
      if ops[0].Arbitrate? {
        ScanExactly(a, ops[0].clock, 7);
        ApplyArbitrate(a, ops[0].clock);
      }
      OneLossKept(Apply(a, ops[0]), ops[1..]);
    }
  }

  /**
    And while all seven do, from whatever moment of a run since Init, the gateway is in full
    operation after every Arbitrate.
   */
  lemma {:induction false} AllLiveIsFull(
      mandatory: bv8, start: nat, before: seq<Op>, ops: seq<Op>, clock: Clock, heard: seq<nat>)
    requires |heard| == 7
    requires var a := Run(Initial(mandatory, start), before);
      forall d :: 0 <= d < 7 ==> Well(a, d, heard[d]) && Lively(ops + [Arbitrate(clock)], d, heard[d])
    ensures Run(Initial(mandatory, start), before + (ops + [Arbitrate(clock)])).current == FullOperation
  {
    OneLossKept(Initial(mandatory, start), before);
    NeverLatched(Initial(mandatory, start), before);
    RunJoin(Initial(mandatory, start), before, ops + [Arbitrate(clock)]);
    FullWhileLive(Run(Initial(mandatory, start), before), ops, clock, heard);
  }

  lemma {:induction false} FullWhileLive(a: Arbitrator, ops: seq<Op>, clock: Clock, heard: seq<nat>)
    requires a.Shape() && a.current != EmergencyStop && OneLoss(a) && |heard| == 7
    requires forall d :: 0 <= d < 7 ==> Well(a, d, heard[d]) && Lively(ops + [Arbitrate(clock)], d, heard[d])
    ensures Run(a, ops + [Arbitrate(clock)]).current == FullOperation
  {
    hide Run, Has, ArbitrateIn, Well, Lively;
    var r := Run(a, ops + [Arbitrate(clock)]);
    forall d | 0 <= d < 7 ensures r.domains[d].health == 0 && r.domains[d].faultCount == 0 {
      LiveDomainActive(a, ops, clock, d, heard[d]);
    }
    OneLossKept(a, ops + [Arbitrate(clock)]);
    NeverLatched(a, ops);
    RunSnoc(a, ops, Arbitrate(clock));
    ApplyArbitrate(Run(a, ops), clock);
    StateExactly(Run(a, ops), clock);
    assert forall i :: 0 <= i < 8 ==> r.domains[i].faultCount < 3;
  }

  /** From Init: after its first heartbeat or nominal report a domain that keeps on is active after every Arbitrate. */
  lemma {:induction false} LiveFromInit(
      mandatory: bv8, start: nat, before: seq<Op>, sign: Op, ops: seq<Op>, clock: Clock, d: Byte)
    requires d < 7 && !sign.Arbitrate? && sign.domain == d && (sign.Ingest? ==> sign.health == 0)
    requires sign.Heartbeat? ==> Run(Initial(mandatory, start), before).domains[d].faultCount == 0
    requires Lively(ops + [Arbitrate(clock)], d, sign.now)
    ensures var r := Run(Initial(mandatory, start), before + [sign] + (ops + [Arbitrate(clock)]));
      Has(r.actives, d) && !Has(r.faults, d)
  {
    hide Run, Has, Apply, Lively, Initial, Well;
    var a0 := Initial(mandatory, start);
    var a1 := Run(a0, before);
    var a2 := Apply(a1, sign);
    SignOfLife(a1, d, if sign.Ingest? then sign.dtc else 0, sign.now);
    RunSnoc(a0, before, sign);
    RunJoin(a0, before + [sign], ops + [Arbitrate(clock)]);
    LiveDomainActive(a2, ops, clock, d, sign.now);
  }

  lemma {:induction false} RunJoin(a: Arbitrator, x: seq<Op>, y: seq<Op>)
    requires a.Shape()
    ensures Run(a, x + y) == Run(Run(a, x), y)
    decreases |x|
  {
    hide Apply;
    if x == [] {
      assert x + y == y;
    } else {
      assert (x + y)[1..] == x[1..] + y;
      RunJoin(Apply(a, x[0]), x[1..], y);
    }
  }
  // ------------------------------------------------------------------
  // Domains that nothing has been heard of
  // ------------------------------------------------------------------

  /** No report on d, and no heartbeat of it. */
  ghost predicate Unheard(ops: seq<Op>, d: nat) {
    forall k :: 0 <= k < |ops| && !ops[k].Arbitrate? ==> ops[k].domain != d
  }

  /** Some scan read a clock over 100 ms past the start. */
  ghost predicate ScannedLate(ops: seq<Op>, start: nat) {
    exists k :: 0 <= k < |ops| && ops[k].Arbitrate? && ops[k].clock.scanMs > start + 100
  }

  lemma {:induction false} UnheardRun(mandatory: bv8, start: nat, ops: seq<Op>, d: nat)
    requires d < 8 && Unheard(ops, d)
    ensures var r := Run(Initial(mandatory, start), ops).domains[d];
      r.lastHeartbeat == start && r.health == if ScannedLate(ops, start) then 2 else 3
    decreases |ops|
  {
    if ops != [] {
      var most := |ops| - 1;
      var a, op := Run(Initial(mandatory, start), ops[..most]), ops[most];
      UnheardRun(mandatory, start, ops[..most], d);
      assert ops[..most] + [op] == ops;
      RunSnoc(Initial(mandatory, start), ops[..most], op);
      hide Run, ArbitrateIn;
      if op.Arbitrate? {
        ScanExactly(a, op.clock, d);
        ApplyArbitrate(a, op.clock);
        assert op == Arbitrate(op.clock);
      }
      LateSnoc(ops[..most], op, start);
    }
  }

  lemma LateSnoc(ops: seq<Op>, op: Op, start: nat)
    ensures ScannedLate(ops + [op], start)
            <==> ScannedLate(ops, start) || (op.Arbitrate? && op.clock.scanMs > start + 100)
  {
    if op.Arbitrate? && op.clock.scanMs > start + 100 { assert (ops + [op])[|ops|] == op; }
    forall k | 0 <= k < |ops| ensures (ops + [op])[k] == ops[k] {}
    if ScannedLate(ops, start) {
      var k :| 0 <= k < |ops| && ops[k].Arbitrate? && ops[k].clock.scanMs > start + 100;
      assert (ops + [op])[k] == ops[k];
    }
  }

  /**
    A domain of which nothing is ever heard is never active, and from Init on it counts as
    lost if and only if some scan came more than 100 ms after Init.
   */
  lemma {:induction false} SilentFromInit(mandatory: bv8, start: nat, ops: seq<Op>, clock: Clock, d: nat)
    requires d < 8 && Unheard(ops, d)
    ensures var r := Run(Initial(mandatory, start), ops + [Arbitrate(clock)]);
      && !Has(r.actives, d)
      && (Has(r.faults, d) <==> ScannedLate(ops + [Arbitrate(clock)], start))
  {
    hide Run, Has, ArbitrateIn, ScannedLate;
    var a0, op := Initial(mandatory, start), Arbitrate(clock);
    UnheardRun(mandatory, start, ops + [op], d);
    RunSnoc(a0, ops, op);
    ApplyArbitrate(Run(a0, ops), clock);
    MasksAfter(Run(a0, ops), clock, d);
  }
}
