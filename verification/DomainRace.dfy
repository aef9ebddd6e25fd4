/**
  One domain record of src/SafetyArbitrator.cpp under calls from any thread: IngestFault,
  RecordHeartbeat and ScanTimeouts at single accesses of the record's fields.

  Any number of reports and heartbeats run at once, beside one scan.  Calls of one kind
  that stand at the same point are interchangeable, so the machine counts them.  A report
  stores the trouble code together with the health; no other call touches that field.
 */
module DomainRace {
  import opened GatewayTypes
  import opened DegradationMatrix
  import opened ArbitratorState

  /** Where the scan stands: outside, behind its reading of the heartbeat, of the health, and behind its store. */
  datatype Scanner = Outside | Stale | Doomed | Owing

  /**
    The record and the calls under way: losses stored but not yet counted; nominal reports
    that have not yet cleared the count, or not yet stamped; heartbeats that have not yet
    read the count; and those that read zero and have not yet stored nominal.
   */
  datatype State = State(
    dom: Domain, owed: nat, clearing: nat, stamping: nat, beating: nat, zeroRead: nat, scanner: Scanner)
  {
    /** Losses between the store of the health and the count. */
    function Open(): nat {
      owed + (if scanner.Owing? then 1 else 0)
    }

    predicate AtRest() {
      owed == 0 && clearing == 0 && stamping == 0 && beating == 0 && zeroRead == 0 && scanner.Outside?
    }
  }

  function Rest(dom: Domain): State {
    State(dom, 0, 0, 0, 0, 0, Outside)
  }

  datatype Step =
    | ReportLoss(health: Byte, dtc: nat)
    | CountLoss
    | ReportNominal(dtc: nat)
    | ClearCount
    | StampNominal(now: nat)
    | StampBeat(now: nat)
    | ReadCount
    | StoreNominal
    | ScanBeat(now: nat)
    | ScanHealth
    | ScanFail
    | ScanCount

  function Tallied(d: Domain): Domain {
    d.(faultCount := Increment32(d.faultCount))
  }

  /** One access.  A step that no call is ready to take changes nothing. */
  function Next(s: State, step: Step): State {
    match step
    case ReportLoss(health, dtc) =>
      if health == NOMINAL then s else s.(dom := s.dom.(health := health, dtcCode := dtc), owed := s.owed + 1)
    case CountLoss => if s.owed == 0 then s else s.(dom := Tallied(s.dom), owed := s.owed - 1)
    case ReportNominal(dtc) => s.(dom := s.dom.(health := NOMINAL, dtcCode := dtc), clearing := s.clearing + 1)
    case ClearCount =>
      if s.clearing == 0 then s
      else s.(dom := s.dom.(faultCount := 0), clearing := s.clearing - 1, stamping := s.stamping + 1)
    case StampNominal(now) =>
      if s.stamping == 0 then s else s.(dom := s.dom.(lastHeartbeat := now), stamping := s.stamping - 1)
    case StampBeat(now) => s.(dom := s.dom.(lastHeartbeat := now), beating := s.beating + 1)
    case ReadCount =>
      if s.beating == 0 then s
      else s.(beating := s.beating - 1, zeroRead := if s.dom.faultCount == 0 then s.zeroRead + 1 else s.zeroRead)
    case StoreNominal =>
      if s.zeroRead == 0 then s else s.(dom := s.dom.(health := NOMINAL), zeroRead := s.zeroRead - 1)
    case ScanBeat(now) => if s.scanner.Outside? && TimedOut(s.dom, now) then s.(scanner := Stale) else s
    case ScanHealth =>
      if s.scanner.Stale? then s.(scanner := if s.dom.health != FAILED then Doomed else Outside) else s
    case ScanFail => if s.scanner.Doomed? then s.(dom := s.dom.(health := FAILED), scanner := Owing) else s
    case ScanCount => if s.scanner.Owing? then s.(dom := Tallied(s.dom), scanner := Outside) else s
  }

  function Run(s: State, steps: seq<Step>): State
    decreases |steps|
  {
    if steps == [] then s else Run(Next(s, steps[0]), steps[1..])
  }

  lemma {:induction false} RunOn(s: State, x: seq<Step>, y: seq<Step>)
    ensures Run(s, x + y) == Run(Run(s, x), y)
    decreases |x|
  {
    hide Next;
    if x == [] {
      assert x + y == y;
    } else {
      assert (x + y)[1..] == x[1..] + y;
      RunOn(Next(s, x[0]), x[1..], y);
    }
  }

  lemma RunThree(s: State, a: Step, b: Step, c: Step)
    ensures Run(s, [a, b, c]) == Next(Next(Next(s, a), b), c)
  {
    hide Next;
    var steps := [a, b, c];
    assert steps[1..] == [b, c] && [b, c][1..] == [c] && [c][1..] == [];
    assert Run(s, steps) == Run(Next(s, a), [b, c]) == Run(Next(Next(s, a), b), [c]);
    assert Run(Next(Next(Next(s, a), b), c), []) == Next(Next(Next(s, a), b), c);
  }

  // ------------------------------------------------------------------
  // Calls that nobody interrupts
  // ------------------------------------------------------------------

  /** Run one after another, the accesses of each call do what the call does to the record as a whole. */
  lemma CallsAlone(d: Domain, health: Byte, dtc: nat, now: nat)
    ensures health != NOMINAL ==>
      Next(Next(Rest(d), ReportLoss(health, dtc)), CountLoss) == Rest(FaultOn(d, health, dtc, now))
    ensures Run(Rest(d), [ReportNominal(dtc), ClearCount, StampNominal(now)]) == Rest(FaultOn(d, NOMINAL, dtc, now))
    ensures Run(Rest(d), [StampBeat(now), ReadCount, StoreNominal]) == Rest(BeatOn(d, now))
    ensures Next(Run(Rest(d), [ScanBeat(now), ScanHealth, ScanFail]), ScanCount) == Rest(Scanned(d, now))
  {
    RunThree(Rest(d), ReportNominal(dtc), ClearCount, StampNominal(now));
    RunThree(Rest(d), StampBeat(now), ReadCount, StoreNominal);
    RunThree(Rest(d), ScanBeat(now), ScanHealth, ScanFail);
  }

  // ------------------------------------------------------------------
  // Health and count
  // ------------------------------------------------------------------

  /**
    Nominal means no loss counted or about to be, unless a nominal report is about to clear
    the count; failed means a loss counted or about to be.
   */
  ghost predicate Matched(s: State) {
    && (s.dom.health == NOMINAL && s.clearing == 0 ==> s.dom.faultCount == 0 && s.Open() == 0)
    && (s.dom.health == FAILED && s.Open() == 0 ==> s.dom.faultCount >= 1)
  }

  /**
    Two calls cross: a heartbeat stores nominal on a zero it read before a loss that is
    stored or counted by now; a nominal report clears the count while a loss that its store
    has overwritten is still to be counted; or it clears the count of losses that have
    overwritten its store.
   */
  predicate Crosses(s: State, step: Step) {
    || (step.StoreNominal? && s.zeroRead > 0 && s.clearing == 0 && (s.dom.faultCount > 0 || s.Open() > 0))
    || (step.ClearCount? && s.clearing == 1 && s.dom.health == NOMINAL && s.Open() > 0)
    || (step.ClearCount? && s.clearing > 0 && s.dom.health == FAILED && s.Open() == 0)
  }

  lemma StepMatched(s: State, step: Step)
    requires Matched(s) && s.dom.faultCount + 1 < TWO_32
    ensures Matched(Next(s, step)) <==> !Crosses(s, step)
    ensures Next(s, step).dom.faultCount <= s.dom.faultCount + 1
  {
  }

  ghost predicate AlwaysMatched(s: State, steps: seq<Step>)
    decreases |steps|
  {
    Matched(s) && (steps == [] || AlwaysMatched(Next(s, steps[0]), steps[1..]))
  }

  predicate NeverCrosses(s: State, steps: seq<Step>)
    decreases |steps|
  {
    steps == [] || (!Crosses(s, steps[0]) && NeverCrosses(Next(s, steps[0]), steps[1..]))
  }

  /** Under every interleaving health and count match throughout if and only if no two calls cross. */
  lemma {:induction false} MatchedExactly(s: State, steps: seq<Step>)
    requires Matched(s) && s.dom.faultCount + |steps| < TWO_32
    ensures AlwaysMatched(s, steps) <==> NeverCrosses(s, steps)
    ensures NeverCrosses(s, steps) ==> Matched(Run(s, steps))
    decreases |steps|
  {
    hide Matched, Crosses, Next;
    if steps != [] {
      StepMatched(s, steps[0]);
      if !Crosses(s, steps[0]) {
        MatchedExactly(Next(s, steps[0]), steps[1..]);
      } else {
        assert !AlwaysMatched(Next(s, steps[0]), steps[1..]);
      }
    }
  }

  /** With no call under way, matched is what HealthMatchesCount says of the record. */
  lemma MatchedAtRest(s: State)
    requires s.AtRest()
    ensures Matched(s) <==>
      (s.dom.health == NOMINAL ==> s.dom.faultCount == 0) && (s.dom.health == FAILED ==> s.dom.faultCount >= 1)
  {
  }

  /** So from Init a run without crossings leaves the record, whenever no call is under way, as whole calls do. */
  lemma {:induction false} RestsAsWholeCalls(now: nat, steps: seq<Step>)
    requires |steps| < TWO_32 && NeverCrosses(Rest(Domain(UNKNOWN, now, 0, 0)), steps)
    ensures var s := Run(Rest(Domain(UNKNOWN, now, 0, 0)), steps);
      s.AtRest() ==>
        && (s.dom.health == NOMINAL ==> s.dom.faultCount == 0)
        && (s.dom.health == FAILED ==> s.dom.faultCount >= 1)
  {
    hide Run, NeverCrosses;
    var s0 := Rest(Domain(UNKNOWN, now, 0, 0));
    MatchedExactly(s0, steps);
    if Run(s0, steps).AtRest() { MatchedAtRest(Run(s0, steps)); }
  }

  /**
    A step that opens one call's window inside another's: a loss is stored while a nominal
    report has still to clear the count or a heartbeat that read zero has still to store;
    or a nominal report stores, or a heartbeat reads zero, while a loss has still to be counted.
   */
  predicate Overlaps(s: State, step: Step) {
    || (OpensLoss(s, step) && (s.clearing > 0 || s.zeroRead > 0))
    || ((step.ReportNominal? || (step.ReadCount? && s.beating > 0 && s.dom.faultCount == 0)) && s.Open() > 0)
  }

  predicate OpensLoss(s: State, step: Step) {
    (step.ReportLoss? && step.health != NOMINAL) || (step.ScanFail? && s.scanner.Doomed?)
  }

  predicate NeverOverlaps(s: State, steps: seq<Step>)
    decreases |steps|
  {
    steps == [] || (!Overlaps(s, steps[0]) && NeverOverlaps(Next(s, steps[0]), steps[1..]))
  }

  ghost predicate Apart(s: State) {
    && (s.Open() > 0 ==> s.clearing == 0 && s.zeroRead == 0)
    && (s.clearing > 0 ==> s.dom.health == NOMINAL)
    && (s.zeroRead > 0 && s.clearing == 0 ==> s.dom.faultCount == 0)
  }

  lemma StepApart(s: State, step: Step)
    requires Apart(s) && !Overlaps(s, step)
    ensures Apart(Next(s, step)) && !Crosses(s, step)
  {
  }

  /** Calls that start from rest and whose windows never overlap never cross. */
  lemma {:induction false} DisjointNeverCross(s: State, steps: seq<Step>)
    requires Apart(s) && NeverOverlaps(s, steps)
    ensures NeverCrosses(s, steps)
    decreases |steps|
  {
    hide Apart, Overlaps, Crosses, Next;
    if steps != [] {
      StepApart(s, steps[0]);
      DisjointNeverCross(Next(s, steps[0]), steps[1..]);
    }
  }

  /** Steps of calls that have already begun. */
  predicate NoNewCalls(steps: seq<Step>) {
    forall k :: 0 <= k < |steps| ==>
      !steps[k].ReportLoss? && !steps[k].ReportNominal? && !steps[k].StampBeat? && !steps[k].ScanBeat?
  }

  /** Conversely, once a call overlaps with a report of failure, the calls under way can complete so that they cross. */
  lemma OverlapCanCross(s: State, step: Step) returns (rest: seq<Step>)
    requires Apart(s) && Overlaps(s, step) && (step.ReportLoss? ==> step.health == FAILED)
    ensures NoNewCalls(rest) && !NeverCrosses(Next(s, step), rest)
  {
    var s1 := Next(s, step);
    if OpensLoss(s, step) && s.clearing > 0 {
      var count := if step.ReportLoss? then CountLoss else ScanCount;
      rest := [count, ClearCount];
      assert rest[1..] == [ClearCount];
      assert Crosses(Next(s1, count), ClearCount);
    } else {
      rest := [if step.ReportNominal? then ClearCount else StoreNominal];
      assert Crosses(s1, rest[0]);
    }
  }

  // ------------------------------------------------------------------
  // Inputs that cross
  // ------------------------------------------------------------------

  /**
    A heartbeat that has read zero undoes a loss reported meanwhile; and so does one that
    comes and goes between the report's store and its count.  Either way the domain is
    nominal with one loss counted, no nominal report was made, and no call is under way.
   */
  lemma HeartbeatUndoesLoss(d: Domain, now: nat)
    requires d.faultCount == 0
    ensures var around := Run(Rest(d), [StampBeat(now), ReadCount, ReportLoss(FAILED, 0)] + [CountLoss, StoreNominal]);
      around == Rest(Domain(NOMINAL, now, 1, 0))
    ensures var inside := Run(Rest(d), [ReportLoss(FAILED, 0), StampBeat(now), ReadCount] + [StoreNominal, CountLoss]);
      inside == Rest(Domain(NOMINAL, now, 1, 0))
  {
    RunThree(Rest(d), StampBeat(now), ReadCount, ReportLoss(FAILED, 0));
    RunThree(Rest(d), ReportLoss(FAILED, 0), StampBeat(now), ReadCount);
    RunOn(Rest(d), [StampBeat(now), ReadCount, ReportLoss(FAILED, 0)], [CountLoss, StoreNominal]);
    RunOn(Rest(d), [ReportLoss(FAILED, 0), StampBeat(now), ReadCount], [StoreNominal, CountLoss]);
    RunTwo(Run(Rest(d), [StampBeat(now), ReadCount, ReportLoss(FAILED, 0)]), CountLoss, StoreNominal);
    RunTwo(Run(Rest(d), [ReportLoss(FAILED, 0), StampBeat(now), ReadCount]), StoreNominal, CountLoss);
  }

  lemma RunTwo(s: State, a: Step, b: Step)
    ensures Run(s, [a, b]) == Next(Next(s, a), b)
  {
    hide Next;
    assert [a, b][1..] == [b] && [b][1..] == [];
    assert Run(s, [a, b]) == Run(Next(s, a), [b]);
    assert Run(Next(Next(s, a), b), []) == Next(Next(s, a), b);
  }

  /** A nominal report that is overtaken by a loss clears the loss's count: failed with nothing counted. */
  lemma NominalReportForgetsLoss(d: Domain, now: nat)
    ensures Run(Rest(d), [ReportNominal(0), ReportLoss(FAILED, 0), CountLoss] + [ClearCount, StampNominal(now)])
            == Rest(Domain(FAILED, now, 0, 0))
  {
    RunThree(Rest(d), ReportNominal(0), ReportLoss(FAILED, 0), CountLoss);
    RunOn(Rest(d), [ReportNominal(0), ReportLoss(FAILED, 0), CountLoss], [ClearCount, StampNominal(now)]);
    RunTwo(Run(Rest(d), [ReportNominal(0), ReportLoss(FAILED, 0), CountLoss]), ClearCount, StampNominal(now));
  }

  // ------------------------------------------------------------------
  // Recovery
  // ------------------------------------------------------------------

  predicate NoNominalReport(steps: seq<Step>) {
    forall k :: 0 <= k < |steps| ==> !steps[k].ReportNominal?
  }

  lemma {:induction false} StaysLost(s: State, steps: seq<Step>)
    requires s.dom.health != NOMINAL && s.clearing == 0 && s.zeroRead == 0 && s.dom.faultCount >= 1
    requires NoNominalReport(steps) && s.dom.faultCount + |steps| < TWO_32
    ensures Run(s, steps).dom.health != NOMINAL
    decreases |steps|
  {
    if steps != [] {
      assert NoNominalReport(steps[1..]);
      StaysLost(Next(s, steps[0]), steps[1..]);
    }
  }

  /**
    A lost domain, with no nominal report under way, stays lost under every interleaving
    that brings no nominal report if and only if a loss is already counted and no
    heartbeat that read zero is still to store.
   */
  lemma {:induction false} RecoveryExactly(s: State)
    requires s.dom.health != NOMINAL && s.clearing == 0 && s.dom.faultCount + 1 < TWO_32
    ensures (forall steps | NoNominalReport(steps) && s.dom.faultCount + |steps| < TWO_32 ::
               Run(s, steps).dom.health != NOMINAL)
            <==> s.zeroRead == 0 && s.dom.faultCount >= 1
  {
    if s.zeroRead > 0 {
      var steps := [StoreNominal];
      assert steps[1..] == [];
      assert Run(s, steps) == Run(Next(s, StoreNominal), []);
      assert NoNominalReport(steps);
    } else if s.dom.faultCount == 0 {
      var steps := [StampBeat(0), ReadCount, StoreNominal];
      RunThree(s, StampBeat(0), ReadCount, StoreNominal);
      assert NoNominalReport(steps);
    } else {
      forall steps | NoNominalReport(steps) && s.dom.faultCount + |steps| < TWO_32
        ensures Run(s, steps).dom.health != NOMINAL
      {
        StaysLost(s, steps);
      }
    }
  }
}
