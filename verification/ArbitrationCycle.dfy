/**
  Arbitrate of src/SafetyArbitrator.cpp in its three parts, scan, masks and decision, with
  any number of reports and heartbeats in between.

  The masks are taken from what the domains hold when UpdateBitmasks runs, so a report that
  arrives behind the scan can undo what the scan found.  Timed detection holds up to
  exactly that.
 */
module ArbitrationCycle {
  import opened GatewayTypes
  import opened DegradationMatrix
  import opened ArbitratorState

  /** One scan: its clock reading, the domains timed out at it, and the reports between it and the masks. */
  datatype Pass = Pass(scanMs: nat, lost: seq<bool>, gap: seq<Op>)

  datatype Phase = Resting | Scanned | Masked

  /** The arbitrator, where Arbitrate stands, its latest scan, and the scans behind the masks and the state in force. */
  datatype Cycle = Cycle(arb: Arbitrator, phase: Phase, pass: Pass, published: Pass, decided: Pass)

  datatype Move =
    | Report(op: Op)
    | Scan(now: nat)
    | Masks
    | Decide(startMs: nat, endMs: nat, logMs: nat)

  function LostAt(domains: seq<Domain>, now: nat): (r: seq<bool>)
    ensures |r| == |domains|
  {
    seq(|domains|, i requires 0 <= i < |domains| => TimedOut(domains[i], now))
  }

  function Begin(mandatory: bv8, start: nat): Cycle {
    var none := Pass(start, seq(MAX_SENSOR_DOMAINS, _ => false), []);
    Cycle(Initial(mandatory, start), Resting, none, none, none)
  }

  /** One part of Arbitrate, or one report.  Arbitrate runs in one thread, so a part out of turn changes nothing. */
  function Step(c: Cycle, m: Move): (r: Cycle)
    requires c.arb.Shape()
    ensures r.arb.Shape()
  {
    match m
    case Report(op) =>
      if op.Arbitrate? then c
      else c.(arb := Apply(c.arb, op),
              pass := if c.phase.Scanned? then c.pass.(gap := c.pass.gap + [op]) else c.pass)
    case Scan(now) =>
      if c.phase.Resting? then
        c.(arb := c.arb.(domains := ScanIn(c.arb.domains, now)), phase := Scanned,
           pass := Pass(now, LostAt(c.arb.domains, now), []))
      else c
    case Masks =>
      if c.phase.Scanned? then
        var domains := c.arb.domains;
        c.(arb := c.arb.(faults := HealthMask(domains, FAILED), actives := HealthMask(domains, NOMINAL)),
           phase := Masked, published := c.pass)
      else c
    case Decide(startMs, endMs, logMs) =>
      if c.phase.Masked? then
        var a, clock := c.arb, Clock(c.pass.scanMs, startMs, endMs, logMs);
        c.(arb := if Moves(a) then ExecuteIn(a, RequiredState(a.faults, a.mandatory, a.domains), clock) else a,
           phase := Resting, decided := c.published)
      else c
  }

  function Run(c: Cycle, moves: seq<Move>): (r: Cycle)
    requires c.arb.Shape()
    ensures r.arb.Shape()
    decreases |moves|
  {
    if moves == [] then c else Run(Step(c, moves[0]), moves[1..])
  }

  /** With nothing in between, the three parts are Arbitrate. */
  lemma UndisturbedPass(c: Cycle, clock: Clock)
    requires c.arb.Shape() && c.phase.Resting?
    ensures var r := Step(Step(Step(c, Scan(clock.scanMs)), Masks), Decide(clock.startMs, clock.endMs, clock.logMs));
      r.phase.Resting? && r.arb == ArbitrateIn(c.arb, clock)
  {
    hide RequiredState, HealthMask, ExecuteIn;
  }

  // ------------------------------------------------------------------
  // What a report behind the scan does
  // ------------------------------------------------------------------

  predicate Tells(op: Op, d: nat) {
    op.Ingest? && op.domain == d && d < NUM_SENSOR_DOMAINS
  }

  /** The health that the last report on a domain gives it; without a report it stays failed. */
  function LastReport(gap: seq<Op>, d: nat): Byte {
    if gap == [] then FAILED
    else
      var n := |gap| - 1;
      if Tells(gap[n], d) then gap[n].health else LastReport(gap[..n], d)
  }

  lemma LastReportSnoc(gap: seq<Op>, op: Op, d: nat)
    ensures LastReport(gap + [op], d) == if Tells(op, d) then op.health else LastReport(gap, d)
  {
    assert (gap + [op])[..|gap|] == gap;
  }

  /** A domain timed out at the scan holds what the last report behind it says, and is counted unless nominal. */
  ghost predicate Holds(c: Cycle, d: nat)
    requires c.arb.Shape() && d < 8
  {
    var dom := c.arb.domains[d];
    dom.health == LastReport(c.pass.gap, d) && (dom.health != NOMINAL ==> dom.faultCount >= 1)
  }

  ghost predicate PassInv(c: Cycle, d: nat, n: nat)
    requires d < 8
  {
    && c.arb.Shape() && Counted(c.arb, n)
    && |c.pass.lost| == |c.published.lost| == |c.decided.lost| == 8
    && (c.phase.Scanned? && c.pass.lost[d] ==> Holds(c, d))
    && (c.phase.Masked? ==> c.published == c.pass)
    && (c.published.lost[d] ==> (Has(c.arb.faults, d) <==> LastReport(c.published.gap, d) == FAILED))
    && (c.decided.lost[d] && LastReport(c.decided.gap, d) == FAILED && d <= IMU ==> c.arb.current != FullOperation)
  }

  lemma ReportKeeps(c: Cycle, op: Op, d: nat, n: nat)
    requires d < 8 && PassInv(c, d, n) && n + 1 < TWO_32
    ensures PassInv(Step(c, Report(op)), d, n + 1)
  {
    hide Has, LastReport;
    if !op.Arbitrate? {
      ApplyCounted(c.arb, op, n);
      LastReportSnoc(c.pass.gap, op, d);
    }
  }

  lemma ScanCounted(a: Arbitrator, now: nat, n: nat)
    requires a.Shape() && Counted(a, n) && n + 1 < TWO_32
    ensures Counted(a.(domains := ScanIn(a.domains, now)), n + 1)
  {
  }

  lemma ScanKeeps(c: Cycle, now: nat, d: nat, n: nat)
    requires d < 8 && PassInv(c, d, n) && n + 1 < TWO_32
    ensures PassInv(Step(c, Scan(now)), d, n + 1)
  {
    ScanCounted(c.arb, now, n);
    assert c.arb.domains[d].health == FAILED ==> c.arb.domains[d].faultCount >= 1;
    assert c.arb.domains[d].faultCount <= n;
    hide Has, Counted;
    if !c.phase.Resting? { CountedLater(c.arb, n); }
  }

  lemma CountedLater(a: Arbitrator, n: nat)
    requires Counted(a, n)
    ensures Counted(a, n + 1)
  {
  }

  lemma MasksKeep(c: Cycle, d: nat, n: nat)
    requires d < 8 && PassInv(c, d, n) && n + 1 < TWO_32
    ensures PassInv(Step(c, Masks), d, n + 1)
  {
    hide Has, HealthMask, LastReport;
    HealthMaskExact(c.arb.domains, FAILED, d);
  }

  lemma FaultIsNotFull(faults: bv8, mandatory: bv8, domains: seq<Domain>, d: nat)
    requires |domains| == MAX_SENSOR_DOMAINS && d <= IMU && Has(faults, d)
    ensures RequiredState(faults, mandatory, domains) != FullOperation
  {
    hide Has, ThresholdReached;
  }

  lemma DecideKeeps(c: Cycle, m: Move, d: nat, n: nat)
    requires d < 8 && PassInv(c, d, n) && n + 1 < TWO_32 && m.Decide?
    ensures PassInv(Step(c, m), d, n + 1)
  {
    hide Has, HealthMask, LastReport, RequiredState, EntryFor, CommandFor;
    if c.phase.Masked? && d <= IMU && Has(c.arb.faults, d) {
      FaultIsNotFull(c.arb.faults, c.arb.mandatory, c.arb.domains, d);
    }
  }

  lemma StepKeeps(c: Cycle, m: Move, d: nat, n: nat)
    requires d < 8 && PassInv(c, d, n) && n + 1 < TWO_32
    ensures PassInv(Step(c, m), d, n + 1)
  {
    hide PassInv, Step;
    match m
    case Report(op) => ReportKeeps(c, op, d, n);
    case Scan(now) => ScanKeeps(c, now, d, n);
    case Masks => MasksKeep(c, d, n);
    case Decide(_, _, _) => DecideKeeps(c, m, d, n);
  }

  lemma {:induction false} RunKeeps(c: Cycle, moves: seq<Move>, d: nat, n: nat)
    requires d < 8 && PassInv(c, d, n) && n + |moves| < TWO_32
    ensures PassInv(Run(c, moves), d, n + |moves|)
    decreases |moves|
  {
    hide Has, LastReport, Holds, Counted, Step;
    if moves != [] {
      StepKeeps(c, moves[0], d, n);
      RunKeeps(Step(c, moves[0]), moves[1..], d, n + 1);
    }
  }

  lemma BeginInv(mandatory: bv8, start: nat, d: nat)
    requires d < 8
    ensures PassInv(Begin(mandatory, start), d, 0)
  {
  }

  /**
    After any run from Init, of scans, masks, decisions, reports and heartbeats in any
    order: a domain that had timed out at the scan behind the masks in force has its bit in
    them if and only if no report on it came in between scan and masks, or the last one
    said failed.  And if it has, for a matrix sensor, the state then decided on is not full
    operation.
   */
  lemma {:induction false} PublishedExactly(mandatory: bv8, start: nat, moves: seq<Move>, d: nat)
    requires d < 8 && |moves| < TWO_32
    ensures var c := Run(Begin(mandatory, start), moves);
      && |c.published.lost| == |c.decided.lost| == 8
      && (c.published.lost[d] ==> (Has(c.arb.faults, d) <==> LastReport(c.published.gap, d) == FAILED))
      && (c.decided.lost[d] && LastReport(c.decided.gap, d) == FAILED && d <= IMU ==> c.arb.current != FullOperation)
  {
    hide Run;
    BeginInv(mandatory, start, d);
    RunKeeps(Begin(mandatory, start), moves, d, 0);
  }

  /** A report of degraded health behind the scan hides any domain that is silent since Init. */
  lemma DegradedReportHides(mandatory: bv8, d: Byte, now: nat)
    requires d < NUM_SENSOR_DOMAINS && now > SENSOR_TIMEOUT_MS
    ensures var c := Run(Begin(mandatory, 0), [Scan(now), Report(Ingest(d, DEGRADED, 0, now)), Masks]);
      |c.published.lost| == 8 && c.published.lost[d] && c.arb.domains[d].lastHeartbeat == 0 && !Has(c.arb.faults, d)
  {
    hide HealthMask, Has, PassInv;
    var c0, report := Begin(mandatory, 0), Report(Ingest(d, DEGRADED, 0, now));
    var moves := [Scan(now), report, Masks];
    assert moves[1..] == [report, Masks] && [report, Masks][1..] == [Masks] && [Masks][1..] == [];
    var c1 := Step(c0, Scan(now));
    var c2 := Step(c1, report);
    var c3 := Step(c2, Masks);
    assert Run(c0, moves) == Run(c1, [report, Masks]) == Run(c2, [Masks]) == Run(c3, []);
    LastReportSnoc([], Ingest(d, DEGRADED, 0, now), d);
    PublishedExactly(mandatory, 0, moves, d);
  }

  // ------------------------------------------------------------------
  // Timed detection
  // ------------------------------------------------------------------

  /** A move and the moment at which it happens. */
  datatype Timed = At(ms: nat, move: Move)

  function MovesOf(run: seq<Timed>): (moves: seq<Move>)
    ensures |moves| == |run|
  {
    seq(|run|, i requires 0 <= i < |run| => run[i].move)
  }

  /** Moments do not decrease, and a scan reads the clock as it begins. */
  ghost predicate Clocked(run: seq<Timed>, start: nat)
    decreases |run|
  {
    run == [] || (&& start <= run[0].ms
                  && (run[0].move.Scan? ==> run[0].move.now == run[0].ms)
                  && Clocked(run[1..], run[0].ms))
  }

  predicate Concludes(c: Cycle, m: Move) {
    c.phase.Masked? && m.Decide?
  }

  /** Arbitrate calls are at most period apart: from one scan, or Init, to the end of the next call. */
  ghost predicate Paced(c: Cycle, run: seq<Timed>, period: nat)
    requires c.arb.Shape()
    decreases |run|
  {
    run == [] || (&& (Concludes(c, run[0].move) ==> run[0].ms <= c.decided.scanMs + period)
                  && Paced(Step(c, run[0].move), run[1..], period))
  }

  /** Some call of Arbitrate ends later than the moment. */
  ghost predicate GoesOn(c: Cycle, run: seq<Timed>, moment: nat)
    requires c.arb.Shape()
    decreases |run|
  {
    run != [] && ((Concludes(c, run[0].move) && run[0].ms > moment) || GoesOn(Step(c, run[0].move), run[1..], moment))
  }

  /** What has happened by a moment. */
  function UpTo(run: seq<Timed>, moment: nat): (r: seq<Timed>)
    ensures |r| <= |run| && run[..|r|] == r
    ensures |r| < |run| ==> run[|r|].ms > moment
  {
    if run == [] || run[0].ms > moment then [] else [run[0]] + UpTo(run[1..], moment)
  }

  /** No sign of life from the domain later than t: no heartbeat and no nominal report stamped after t. */
  ghost predicate SilentSince(run: seq<Timed>, d: nat, t: nat) {
    forall k :: 0 <= k < |run| && run[k].move.Report? ==> SilentOp(run[k].move.op, d, t)
  }

  predicate SilentOp(op: Op, d: nat, t: nat) {
    && (op.Heartbeat? && op.domain == d ==> op.now <= t)
    && (op.Ingest? && op.domain == d && op.health == NOMINAL ==> op.now <= t)
  }

  /** A pass that scanned more than 100 ms after t found the domain lost. */
  predicate Late(p: Pass, d: nat, t: nat) {
    d < |p.lost| && (p.scanMs > t + SENSOR_TIMEOUT_MS ==> p.lost[d])
  }

  ghost predicate SilenceInv(c: Cycle, d: nat, t: nat, now: nat) {
    && d < 8 && c.arb.Shape() && c.arb.domains[d].lastHeartbeat <= t
    && c.decided.scanMs <= c.published.scanMs <= c.pass.scanMs <= now
    && Late(c.pass, d, t) && Late(c.published, d, t) && Late(c.decided, d, t)
  }

  lemma ReportSilent(c: Cycle, op: Op, d: nat, t: nat, now: nat)
    requires SilenceInv(c, d, t, now) && SilentOp(op, d, t)
    ensures SilenceInv(Step(c, Report(op)), d, t, now)
  {
    hide RequiredState, HealthMask, EntryFor, CommandFor;
  }

  lemma ScanSilent(c: Cycle, d: nat, t: nat, now: nat)
    requires SilenceInv(c, d, t, now)
    ensures SilenceInv(Step(c, Scan(now)), d, t, now)
  {
  }

  lemma DecideSilent(c: Cycle, m: Move, d: nat, t: nat, now: nat)
    requires SilenceInv(c, d, t, now) && (m.Masks? || m.Decide?)
    ensures SilenceInv(Step(c, m), d, t, now)
  {
    hide RequiredState, HealthMask, EntryFor, CommandFor, Late;
  }

  lemma StepSilent(c: Cycle, e: Timed, d: nat, t: nat, now: nat)
    requires SilenceInv(c, d, t, now) && now <= e.ms && (e.move.Scan? ==> e.move.now == e.ms)
    requires e.move.Report? ==> SilentOp(e.move.op, d, t)
    ensures SilenceInv(Step(c, e.move), d, t, e.ms)
  {
    assert SilenceInv(c, d, t, e.ms);
    hide SilenceInv, SilentOp, Step;
    match e.move
    case Report(op) => ReportSilent(c, op, d, t, e.ms);
    case Scan(_) => ScanSilent(c, d, t, e.ms);
    case Masks => DecideSilent(c, e.move, d, t, e.ms);
    case Decide(_, _, _) => DecideSilent(c, e.move, d, t, e.ms);
  }

  lemma FirstMove(c: Cycle, run: seq<Timed>, moment: nat)
    requires c.arb.Shape() && run != [] && run[0].ms <= moment
    ensures Run(c, MovesOf(UpTo(run, moment)))
            == Run(Step(c, run[0].move), MovesOf(UpTo(run[1..], moment)))
  {
    hide Step;
    var past := UpTo(run, moment);
    assert past[0] == run[0] && past[1..] == UpTo(run[1..], moment);
    assert MovesOf(past)[1..] == MovesOf(past[1..]);
  }

  lemma {:induction false} RunSilent(c: Cycle, run: seq<Timed>, d: nat, t: nat, now: nat, moment: nat)
    requires SilenceInv(c, d, t, now) && Clocked(run, now) && now <= moment && SilentSince(UpTo(run, moment), d, t)
    ensures SilenceInv(Run(c, MovesOf(UpTo(run, moment))), d, t, moment)
    decreases |run|
  {
    hide Step, Late, SilentOp;
    if run != [] && run[0].ms <= moment {
      var past := UpTo(run, moment);
      assert past[0] == run[0] && past[1..] == UpTo(run[1..], moment);
      StepSilent(c, run[0], d, t, now);
      FirstMove(c, run, moment);
      RunSilent(Step(c, run[0].move), run[1..], d, t, run[0].ms, moment);
    }
  }

  /** Before a call has ended, the scan behind the state in force is the one before it. */
  lemma {:induction false} NextDecision(c: Cycle, run: seq<Timed>, now: nat, period: nat, moment: nat)
    requires c.arb.Shape() && Clocked(run, now) && Paced(c, run, period) && GoesOn(c, run, moment)
    requires run != [] && run[0].ms > moment
    ensures c.decided.scanMs + period > moment
    decreases |run|
  {
    hide ExecuteIn, Apply, HealthMask, RequiredState;
    if !Concludes(c, run[0].move) {
      NextDecision(Step(c, run[0].move), run[1..], run[0].ms, period, moment);
    }
  }

  lemma {:induction false} DecidedLate(c: Cycle, run: seq<Timed>, now: nat, period: nat, moment: nat)
    requires c.arb.Shape() && Clocked(run, now) && Paced(c, run, period) && GoesOn(c, run, moment)
    ensures Run(c, MovesOf(UpTo(run, moment))).decided.scanMs + period > moment
    decreases |run|
  {
    hide Step;
    if run[0].ms > moment {
      NextDecision(c, run, now, period, moment);
    } else {
      FirstMove(c, run, moment);
      DecidedLate(Step(c, run[0].move), run[1..], run[0].ms, period, moment);
    }
  }

  /**
    Arbitrate calls are at most a period apart, and a domain gives no sign of life later
    than t.  At every moment from t + 100 + period on, its bit is in the masks in force if
    and only if no report on it came between their scan and them, or the last one said
    failed; and if so at the decision in force, a matrix sensor keeps the state away from
    full operation.  So without reports in that gap nothing else that arrives matters.
   */
  lemma {:induction false} TimedDetection(
      mandatory: bv8, start: nat, run: seq<Timed>, d: nat, t: nat, period: nat, moment: nat)
    requires d < 8 && |run| < TWO_32 && start <= t && Clocked(run, start)
    requires Paced(Begin(mandatory, start), run, period) && GoesOn(Begin(mandatory, start), run, moment)
    requires moment >= t + SENSOR_TIMEOUT_MS + period && SilentSince(UpTo(run, moment), d, t)
    ensures var c := Run(Begin(mandatory, start), MovesOf(UpTo(run, moment)));
      && (Has(c.arb.faults, d) <==> LastReport(c.published.gap, d) == FAILED)
      && (LastReport(c.decided.gap, d) == FAILED && d <= IMU ==> c.arb.current != FullOperation)
  {
    hide Run, Has, LastReport, Paced, GoesOn, Clocked, SilentSince;
    var c0 := Begin(mandatory, start);
    RunSilent(c0, run, d, t, start, moment);
    DecidedLate(c0, run, start, period, moment);
    PublishedExactly(mandatory, start, MovesOf(UpTo(run, moment)), d);
  }
}
