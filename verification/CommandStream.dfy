/**
  From the arbitrator's decisions to the commands that arrive on the other core.

  One machine holds the arbitrator, the transition it is executing, and the ring with
  both of its ends.  Sensor reports, the accesses of a running Send and the accesses of
  the consumer interleave freely.  Arbitrate is one step up to its call of Send; storing
  the new state, after Send has returned, is a step of its own, so the consumer may take
  the command in between.  The bridge is initialised and nothing else sends on it.
 */
module CommandStream {
  import opened GatewayTypes
  import opened Modulo
  import opened SpscRing
  import opened Bytes
  import opened IpcSlot
  import opened IpcBridge
  import opened IpcProtocol
  import opened DegradationMatrix
  import opened ArbitratorState
  import opened CommandCodec

  /** A performed transition: the command handed to Send and whether Send accepted it. */
  datatype Record = Record(cmd: Command, sent: bool)

  /** Where a call of Arbitrate stands: none running, inside Send, or back from Send with the state not yet stored. */
  datatype Pending =
    | Idle
    | Sending(cmd: Command, scanMs: nat, startMs: nat)
    | Returned(cmd: Command, sent: bool, scanMs: nat, startMs: nat)

  datatype Joint = Joint(arb: Arbitrator, pending: Pending, records: seq<Record>, ipc: System)

  datatype Event =
    | Report(op: Op)
    | StartArbitrate(scanMs: nat, startMs: nat)
    | Memory(step: Step<bv8>)
    | Commit(endMs: nat, logMs: nat)

  function Begin(mandatory: bv8, now: nat, unused: SoaEvent): Joint {
    Joint(Initial(mandatory, now), Idle, [], Start(unused))
  }

  function Advance(j: Joint, e: Event): Joint
    requires j.arb.Shape()
  {
    match e
    case Report(op) => if op.Arbitrate? then j else j.(arb := ArbitratorState.Apply(j.arb, op))
    case StartArbitrate(scanMs, startMs) =>
      if !j.pending.Idle? then j
      else
        var b := Refreshed(j.arb, scanMs);
        if Moves(b) then
          var cmd := CommandFor(b, RequiredState(b.faults, b.mandatory, b.domains));
          j.(arb := Claimed(b), pending := Sending(cmd, scanMs, startMs), ipc := Next(j.ipc, Send(CommandEvent(cmd))))
        else j.(arb := b)
    case Memory(step) =>
      var ipc := Next(j.ipc, Access(step));
      if j.pending.Sending? && ipc.ring.producer.Ready? then
        var sent := |ipc.accepted| > |j.ipc.accepted|;
        j.(pending := Returned(j.pending.cmd, sent, j.pending.scanMs, j.pending.startMs), ipc := ipc)
      else j.(ipc := ipc)
    case Commit(endMs, logMs) =>
      if j.pending.Returned? then
        var clock := Clock(j.pending.scanMs, j.pending.startMs, endMs, logMs);
        j.(arb := CommitIn(j.arb, j.pending.cmd, clock), pending := Idle,
           records := j.records + [Record(j.pending.cmd, j.pending.sent)])
      else j
  }

  /** The other core may already hold a command whose state is not yet stored. */
  predicate AwaitsCommit(j: Joint) {
    j.pending.Returned? && j.pending.sent
  }

  /** The transitions performed, and behind them the one whose accepted command awaits its commit. */
  function Announced(j: Joint): seq<Record> {
    if AwaitsCommit(j) then j.records + [Record(j.pending.cmd, true)] else j.records
  }

  lemma AdvanceShape(j: Joint, e: Event)
    requires j.arb.Shape()
    ensures Advance(j, e).arb.Shape()
  {
    hide RequiredState, HealthMask, Next, CommandFor, EntryFor, CommandEvent;
  }

  function Run(j: Joint, events: seq<Event>): Joint
    requires j.arb.Shape()
    decreases |events|
  {
    if events == [] then j
    else
      AdvanceShape(j, events[0]);
      Run(Advance(j, events[0]), events[1..])
  }

  // ------------------------------------------------------------------
  // The commands that were accepted
  // ------------------------------------------------------------------

  /** The positions of the transitions whose Send succeeded. */
  function Positions(records: seq<Record>): (p: seq<nat>)
    ensures forall k :: 0 <= k < |p| ==> p[k] < |records| && records[p[k]].sent
    ensures forall k, l :: 0 <= k < l < |p| ==> p[k] < p[l]
  {
    if records == [] then []
    else
      var n := |records| - 1;
      var p := Positions(records[..n]);
      if records[n].sent then p + [n] else p
  }

  lemma {:induction false} PositionsComplete(records: seq<Record>, i: nat)
    requires i < |records| && records[i].sent
    ensures exists k :: 0 <= k < |Positions(records)| && Positions(records)[k] == i
    decreases |records|
  {
    var n := |records| - 1;
    if i < n {
      PositionsComplete(records[..n], i);
      var k :| 0 <= k < |Positions(records[..n])| && Positions(records[..n])[k] == i;
      assert Positions(records)[k] == i;
    } else {
      var p := Positions(records);
      assert p[|p| - 1] == i;
    }
  }

  lemma PositionsSnoc(records: seq<Record>, r: Record)
    ensures Positions(records + [r]) == if r.sent then Positions(records) + [|records|] else Positions(records)
  {
    assert (records + [r])[..|records|] == records;
  }

  // ------------------------------------------------------------------
  // Invariant
  // ------------------------------------------------------------------

  ghost predicate RecordsOk(records: seq<Record>) {
    forall k :: 0 <= k < |records| ==>
      && records[k].cmd.magic == 0x5AFE_0001
      && records[k].cmd.sequenceNum == (k + 1) % TWO_32
  }

  function LastState(records: seq<Record>): SafeState {
    if records == [] then FullOperation else records[|records| - 1].cmd.state
  }

  /** The ring has accepted exactly the commands whose Send succeeded, in order. */
  ghost predicate Accepted(accepted: seq<SoaEvent>, records: seq<Record>) {
    && |accepted| == |Positions(records)|
    && forall k :: 0 <= k < |accepted| ==> accepted[k] == CommandEvent(records[Positions(records)[k]].cmd)
  }

  ghost predicate PendingOk(j: Joint) {
    && (j.pending.Sending? <==> !j.ipc.ring.producer.Ready?)
    && (j.pending.Sending? ==> j.ipc.current == CommandEvent(j.pending.cmd))
    && (!j.pending.Idle? ==>
          && j.pending.cmd.magic == 0x5AFE_0001
          && j.pending.cmd.state != j.arb.current
          && j.pending.cmd.sequenceNum == (|j.records| + 1) % TWO_32)
    && j.arb.sequenceNum == (if j.pending.Idle? then |j.records| else |j.records| + 1) % TWO_32
  }

  ghost predicate JointInv(j: Joint) {
    && j.arb.Shape()
    && SystemInv(j.ipc)
    && PendingOk(j)
    && RecordsOk(j.records)
    && j.arb.current == LastState(j.records)
    && Accepted(j.ipc.accepted, Announced(j))
  }

  lemma SendableCommand(cmd: Command)
    ensures Sendable(CommandEvent(cmd)) && |CommandEvent(cmd).payload| == MAX_PAYLOAD_BYTES
  {
    CommandLength(CommandEvent(cmd));
  }

  /** One access of the ring either leaves the acceptance history alone or ends the call by accepting. */
  lemma AccessEffect(s: System, step: Step<bv8>)
    ensures var s' := Next(s, Access(step));
      && s'.current == s.current
      && (s.ring.producer.Ready? ==> s'.ring.producer.Ready?)
      && (s'.accepted == s.accepted
          || (s'.accepted == s.accepted + [s.current] && !s.ring.producer.Ready? && s'.ring.producer.Ready?))
  {
    hide Frame, Image;
    if !step.ReadHead? { ProducerItem(s.ring, step); }
  }

  lemma ReportKeeps(j: Joint, op: Op)
    requires JointInv(j) && !op.Arbitrate?
    ensures JointInv(Advance(j, Report(op)))
  {
    hide SystemInv, Accepted, RecordsOk, CommandEvent;
    var a := ArbitratorState.Apply(j.arb, op);
    assert a.sequenceNum == j.arb.sequenceNum && a.current == j.arb.current;
  }

  lemma StartKeeps(j: Joint, scanMs: nat, startMs: nat)
    requires JointInv(j)
    ensures JointInv(Advance(j, StartArbitrate(scanMs, startMs)))
  {
    hide SystemInv, Accepted, RecordsOk, CommandEvent, RequiredState, HealthMask, Image, Frame;
    if j.pending.Idle? {
      var b := Refreshed(j.arb, scanMs);
      assert b.sequenceNum == j.arb.sequenceNum && b.current == j.arb.current;
      if Moves(b) {
        var cmd := CommandFor(b, RequiredState(b.faults, b.mandatory, b.domains));
        SendableCommand(cmd);
        NextKeeps(j.ipc, Send(CommandEvent(cmd)));
        ModStep(|j.records|, TWO_32);
      }
    }
  }

  lemma AnnouncedSnoc(records: seq<Record>, cmd: Command, accepted: seq<SoaEvent>)
    requires RecordsOk(records) && Accepted(accepted, records)
    requires cmd.magic == 0x5AFE_0001 && cmd.sequenceNum == (|records| + 1) % TWO_32
    ensures RecordsOk(records + [Record(cmd, true)]) && RecordsOk(records + [Record(cmd, false)])
    ensures Accepted(accepted + [CommandEvent(cmd)], records + [Record(cmd, true)])
    ensures Accepted(accepted, records + [Record(cmd, false)])
  {
    hide RecordsOk, Accepted, CommandEvent;
    SentCommit(records, cmd);
    AcceptedSnoc(records, Record(cmd, true), accepted);
    AcceptedSnoc(records, Record(cmd, false), accepted);
  }

  lemma AcceptedSnoc(records: seq<Record>, r: Record, accepted: seq<SoaEvent>)
    requires Accepted(accepted, records)
    ensures Accepted(if r.sent then accepted + [CommandEvent(r.cmd)] else accepted, records + [r])
  {
    hide CommandEvent, Positions;
    PositionsSnoc(records, r);
    var p, more := Positions(records), records + [r];
    forall k | 0 <= k < |p| ensures accepted[k] == CommandEvent(more[p[k]].cmd) {
      assert more[p[k]] == records[p[k]];
    }
    assert more[|records|] == r;
  }

  lemma MemoryKeeps(j: Joint, step: Step<bv8>)
    requires JointInv(j)
    ensures JointInv(Advance(j, Memory(step)))
  {
    hide SystemInv, Accepted, RecordsOk, CommandEvent, Next, LastState;
    NextKeeps(j.ipc, Access(step));
    AccessEffect(j.ipc, step);
    if j.pending.Sending? {
      AnnouncedSnoc(j.records, j.pending.cmd, j.ipc.accepted);
    }
  }

  lemma CommitKeeps(j: Joint, endMs: nat, logMs: nat)
    requires JointInv(j)
    ensures JointInv(Advance(j, Commit(endMs, logMs)))
  {
    hide SystemInv, Accepted, RecordsOk, CommandEvent, EntryFor;
    if j.pending.Returned? {
      var cmd := j.pending.cmd;
      if j.pending.sent {
        SentCommit(j.records, cmd);
      } else {
        AnnouncedSnoc(j.records, cmd, j.ipc.accepted);
      }
    }
  }

  lemma SentCommit(records: seq<Record>, cmd: Command)
    requires RecordsOk(records) && cmd.magic == 0x5AFE_0001 && cmd.sequenceNum == (|records| + 1) % TWO_32
    ensures RecordsOk(records + [Record(cmd, true)]) && RecordsOk(records + [Record(cmd, false)])
  {
  }

  lemma AdvanceKeeps(j: Joint, e: Event)
    requires JointInv(j)
    ensures JointInv(Advance(j, e))
  {
    hide JointInv;
    match e
    case Report(op) => if !op.Arbitrate? { ReportKeeps(j, op); }
    case StartArbitrate(scanMs, startMs) => StartKeeps(j, scanMs, startMs);
    case Memory(step) => MemoryKeeps(j, step);
    case Commit(endMs, logMs) => CommitKeeps(j, endMs, logMs);
  }

  lemma {:induction false} RunKeepsJoint(j: Joint, events: seq<Event>)
    requires JointInv(j)
    ensures JointInv(Run(j, events))
    decreases |events|
  {
    hide Advance;
    if events != [] {
      AdvanceKeeps(j, events[0]);
      RunKeepsJoint(Advance(j, events[0]), events[1..]);
    }
  }

  lemma BeginInv(mandatory: bv8, now: nat, unused: SoaEvent)
    ensures JointInv(Begin(mandatory, now, unused))
  {
    hide Image;
    EmptyInv(RING_SLOTS, Image(ZeroedSlot()));
  }

  // ------------------------------------------------------------------
  // Main results
  // ------------------------------------------------------------------

  /** What the receiver decodes from the bytes of one slot. */
  function Received(bytes: seq<bv8>): Command
    requires |bytes| == SLOT_BYTES
  {
    var slot := FromImage(bytes);
    Decode(slot.payload)
  }

  lemma ReceivedIsSent(bytes: seq<bv8>, cmd: Command, k: nat)
    requires Intact(bytes, CommandEvent(cmd), k)
    ensures |bytes| == SLOT_BYTES && Received(bytes) == cmd
  {
    hide Verdict, FromImage, CommandEvent, Encode;
    var slot := FromImage(bytes);
    var e := EventOf(slot);
    ReceivedCommand(cmd, e);
    hide Decode;
    SamePayload(slot.payload, e.payload);
  }

  lemma SamePayload(a: seq<bv8>, b: seq<bv8>)
    requires |a| >= COMMAND_BYTES && |b| >= |a| && a == b[..|a|]
    ensures Decode(a) == Decode(b)
  {
    hide NatOfWord, NatOf, StateOfCode;
    assert a[0..4] == b[0..4] && a[8..12] == b[8..12] && a[12..16] == b[12..16];
    assert a[16..20] == b[16..20] && a[20..24] == b[20..24];
  }

  /**
    Under every interleaving the k-th slot the receiver takes passes the check with
    counter k mod 256 and decodes to the command of the k-th transition whose Send
    succeeded: a subsequence, in order, of the transitions performed and the one that
    awaits its commit.
   */
  lemma {:induction false} StreamIsSubsequence(mandatory: bv8, now: nat, unused: SoaEvent, events: seq<Event>)
    ensures var j := Run(Begin(mandatory, now, unused), events);
      var delivered, p := j.ipc.ring.delivered, Positions(Announced(j));
      && |delivered| <= |p|
      && forall k :: 0 <= k < |delivered| ==>
           && |delivered[k]| == SLOT_BYTES
           && Verdict(FromImage(delivered[k]), CounterByte(k)) == Ok
           && Received(delivered[k]) == Announced(j)[p[k]].cmd
  {
    hide Advance, JointInv, FromImage, Received, Announced, Positions;
    BeginInv(mandatory, now, unused);
    RunKeepsJoint(Begin(mandatory, now, unused), events);
    StreamOf(Run(Begin(mandatory, now, unused), events));
  }

  lemma StreamOf(j: Joint)
    requires JointInv(j)
    ensures var delivered, p := j.ipc.ring.delivered, Positions(Announced(j));
      && |delivered| <= |p| == |j.ipc.accepted|
      && forall k :: 0 <= k < |delivered| ==>
           && |delivered[k]| == SLOT_BYTES
           && Verdict(FromImage(delivered[k]), CounterByte(k)) == Ok
           && Received(delivered[k]) == Announced(j)[p[k]].cmd
  {
    hide CommandEvent, FromImage, Received, Image, Announced;
    DeliveredIntact(j.ipc);
    var delivered, p := j.ipc.ring.delivered, Positions(Announced(j));
    forall k | 0 <= k < |delivered|
      ensures |delivered[k]| == SLOT_BYTES
      ensures Verdict(FromImage(delivered[k]), CounterByte(k)) == Ok
      ensures Received(delivered[k]) == Announced(j)[p[k]].cmd
    {
      ReceivedIsSent(delivered[k], Announced(j)[p[k]].cmd, k);
    }
  }

  /**
    Byte by byte: the k-th slot the receiver takes carries k mod 256 in its counter byte and
    the command of the k-th transition whose Send succeeded at the offsets of the layout.
   */
  lemma {:induction false} StreamOnTheWire(mandatory: bv8, now: nat, unused: SoaEvent, events: seq<Event>)
    ensures var j := Run(Begin(mandatory, now, unused), events);
      var delivered, p := j.ipc.ring.delivered, Positions(Announced(j));
      && |delivered| <= |p|
      && forall k :: 0 <= k < |delivered| ==>
           OnTheWire(delivered[k], Announced(j)[p[k]].cmd) && delivered[k][2] as int == k % 256
  {
    hide Advance, JointInv, Announced, Positions, OnTheWire;
    BeginInv(mandatory, now, unused);
    RunKeepsJoint(Begin(mandatory, now, unused), events);
    WireOf(Run(Begin(mandatory, now, unused), events));
  }

  lemma WireOf(j: Joint)
    requires JointInv(j)
    ensures var delivered, p := j.ipc.ring.delivered, Positions(Announced(j));
      && |delivered| <= |p|
      && forall k :: 0 <= k < |delivered| ==>
           OnTheWire(delivered[k], Announced(j)[p[k]].cmd) && delivered[k][2] as int == k % 256
  {
    AnnouncedOk(j);
    hide CommandEvent, Image, Frame, Announced, OnTheWire, CounterByte;
    var delivered, p := j.ipc.ring.delivered, Positions(Announced(j));
    forall k | 0 <= k < |delivered|
      ensures OnTheWire(delivered[k], Announced(j)[p[k]].cmd) && delivered[k][2] as int == k % 256
    {
      var cmd := Announced(j)[p[k]].cmd;
      assert delivered[k] == Image(Frame(CommandEvent(cmd), CounterByte(k)));
      CommandOnTheWire(cmd, CounterByte(k));
      CounterValue(k);
    }
  }

  lemma DeliveredIntact(s: System)
    requires SystemInv(s)
    ensures |s.ring.delivered| <= |s.accepted|
    ensures forall k :: 0 <= k < |s.ring.delivered| ==> Intact(s.ring.delivered[k], s.accepted[k], k)
  {
    hide Image, Intact;
    forall k | 0 <= k < |s.ring.delivered| ensures Intact(s.ring.delivered[k], s.accepted[k], k) {
      assert s.ring.delivered[k] == s.ring.published[k];
      FramePassesIntact(s.ring.delivered[k], s.accepted[k], k);
    }
  }

  /**
    Below 2^32 transitions the i-th carries sequence number i + 1, so the stream's numbers
    increase strictly, and a number is missing from the accepted stream exactly when its
    Send failed.
   */
  lemma {:induction false} MissingExactlyFailed(mandatory: bv8, now: nat, unused: SoaEvent, events: seq<Event>)
    ensures var a := Announced(Run(Begin(mandatory, now, unused), events));
      var p := Positions(a);
      |a| + 1 < TWO_32 ==>
        && (forall k, l :: 0 <= k < l < |p| ==> a[p[k]].cmd.sequenceNum < a[p[l]].cmd.sequenceNum)
        && (forall i :: 0 <= i < |a| ==>
              ((exists k :: 0 <= k < |p| && a[p[k]].cmd.sequenceNum == i + 1) <==> a[i].sent))
  {
    hide Advance, JointInv, RecordsOk, Announced, Positions;
    BeginInv(mandatory, now, unused);
    RunKeepsJoint(Begin(mandatory, now, unused), events);
    var j := Run(Begin(mandatory, now, unused), events);
    AnnouncedOk(j);
    if |Announced(j)| + 1 < TWO_32 { MissingIn(Announced(j)); }
  }

  lemma AnnouncedOk(j: Joint)
    requires JointInv(j)
    ensures RecordsOk(Announced(j))
  {
    hide SystemInv, CommandEvent, RecordsOk, Accepted, LastState;
    if AwaitsCommit(j) { SentCommit(j.records, j.pending.cmd); }
  }

  lemma NumberOf(records: seq<Record>, i: nat)
    requires RecordsOk(records) && |records| + 1 < TWO_32 && i < |records|
    ensures records[i].cmd.sequenceNum == i + 1
  {
  }

  lemma MissingIn(records: seq<Record>)
    requires RecordsOk(records) && |records| + 1 < TWO_32
    ensures var p := Positions(records);
      && (forall k, l :: 0 <= k < l < |p| ==> records[p[k]].cmd.sequenceNum < records[p[l]].cmd.sequenceNum)
      && (forall i :: 0 <= i < |records| ==>
            ((exists k :: 0 <= k < |p| && records[p[k]].cmd.sequenceNum == i + 1) <==> records[i].sent))
  {
    hide RecordsOk, Positions;
    var p := Positions(records);
    forall k | 0 <= k < |p| ensures records[p[k]].cmd.sequenceNum == p[k] + 1 {
      NumberOf(records, p[k]);
    }
    forall i | 0 <= i < |records|
      ensures (exists k :: 0 <= k < |p| && records[p[k]].cmd.sequenceNum == i + 1) <==> records[i].sent
    {
      if records[i].sent {
        PositionsComplete(records, i);
        var k :| 0 <= k < |p| && p[k] == i;
        assert records[p[k]].cmd.sequenceNum == i + 1;
      }
    }
  }

  /**
    If the latest announced Send succeeded and the ring is drained, the receiver has seen
    the current state last exactly when no accepted command awaits its commit.
   */
  lemma {:induction false} DrainedStreamIsCurrent(mandatory: bv8, now: nat, unused: SoaEvent, events: seq<Event>)
    ensures var j := Run(Begin(mandatory, now, unused), events);
      var a, delivered := Announced(j), j.ipc.ring.delivered;
      a != [] && a[|a| - 1].sent && |delivered| == |j.ipc.ring.published| ==>
        && delivered != []
        && |delivered[|delivered| - 1]| == SLOT_BYTES
        && (Received(delivered[|delivered| - 1]).state == j.arb.current <==> !AwaitsCommit(j))
  {
    hide Advance, JointInv, Received, Announced;
    BeginInv(mandatory, now, unused);
    RunKeepsJoint(Begin(mandatory, now, unused), events);
    var j := Run(Begin(mandatory, now, unused), events);
    var a := Announced(j);
    if a != [] && a[|a| - 1].sent && |j.ipc.ring.delivered| == |j.ipc.ring.published| { LastReceived(j); }
  }

  lemma LastReceived(j: Joint)
    requires JointInv(j) && |j.ipc.ring.delivered| == |j.ipc.ring.published|
    requires Announced(j) != [] && Announced(j)[|Announced(j)| - 1].sent
    ensures var delivered := j.ipc.ring.delivered;
      && delivered != [] && |delivered[|delivered| - 1]| == SLOT_BYTES
      && Received(delivered[|delivered| - 1]) == Announced(j)[|Announced(j)| - 1].cmd
      && (Received(delivered[|delivered| - 1]).state == j.arb.current <==> !AwaitsCommit(j))
  {
    hide *;
    StreamOf(j);
    AnnouncedLast(j);
    LastPosition(Announced(j));
  }

  lemma LastPosition(records: seq<Record>)
    requires records != [] && records[|records| - 1].sent
    ensures var p := Positions(records); p != [] && p[|p| - 1] == |records| - 1
  {
  }

  /** The last transition announced leads to the current state unless it awaits its commit. */
  lemma AnnouncedLast(j: Joint)
    requires JointInv(j) && Announced(j) != []
    ensures |j.ipc.accepted| == |j.ipc.ring.published|
    ensures Announced(j)[|Announced(j)| - 1].cmd.state == j.arb.current <==> !AwaitsCommit(j)
  {
    hide CommandEvent, RecordsOk, Accepted, Positions, Inv, IsFrame;
  }

  // ------------------------------------------------------------------
  // The receiver ahead of the arbitrator
  // ------------------------------------------------------------------

  function Memories(steps: seq<Step<bv8>>): (events: seq<Event>)
    ensures |events| == |steps|
  {
    if steps == [] then [] else [Memory(steps[0])] + Memories(steps[1..])
  }

  /** Memory accesses move the ring and nothing else of the arbitrator. */
  lemma {:induction false} MemoryRun(j: Joint, steps: seq<Step<bv8>>)
    requires j.arb.Shape() && forall k :: 0 <= k < |steps| ==> !steps[k].ReadHead?
    ensures var j' := Run(j, Memories(steps));
      j'.ipc.ring == SpscRing.Run(j.ipc.ring, steps) && j'.arb == j.arb && j'.records == j.records
    decreases |steps|
  {
    hide SpscRing.Apply;
    if steps != [] {
      var j1 := Advance(j, Memory(steps[0]));
      assert j1.ipc.ring == SpscRing.Apply(j.ipc.ring, steps[0]);
      assert Memories(steps)[1..] == Memories(steps[1..]);
      MemoryRun(j1, steps[1..]);
    }
  }

  lemma {:induction false} RunSplits(j: Joint, x: seq<Event>, y: seq<Event>)
    requires j.arb.Shape()
    ensures Run(j, x).arb.Shape() && Run(j, x + y) == Run(Run(j, x), y)
    decreases |x|
  {
    hide Advance;
    if x == [] {
      assert x + y == y;
    } else {
      assert (x + y)[1..] == x[1..] + y;
      AdvanceShape(j, x[0]);
      RunSplits(Advance(j, x[0]), x[1..], y);
    }
  }

  lemma {:induction false} WritesAreNotReads(item: seq<bv8>, from: nat)
    requires from <= |item|
    ensures forall k :: 0 <= k < |WritesFrom(item, from)| ==> !WritesFrom(item, from)[k].ReadHead?
    decreases |item| - from
  {
    if from < |item| { WritesAreNotReads(item, from + 1); }
  }

  lemma {:induction false} CopiesAreNotReads(cells: nat)
    ensures forall k :: 0 <= k < |CopiesOf<bv8>(cells)| ==> !CopiesOf<bv8>(cells)[k].ReadHead?
    decreases cells
  {
    if cells > 0 { CopiesAreNotReads(cells - 1); }
  }

  /** Send is called and not interrupted: its command is accepted and the state is still the old one. */
  lemma SendOnly(j: Joint, scanMs: nat, startMs: nat) returns (events: seq<Event>)
    requires JointInv(j) && j.pending.Idle? && j.ipc.ring.Pending() == 0 && Moves(Refreshed(j.arb, scanMs))
    ensures var j' := Run(j, events);
      && JointInv(j') && j'.records == j.records && j'.arb.current == j.arb.current
      && j'.ipc.ring.delivered == j.ipc.ring.delivered && j'.ipc.ring.consumer == j.ipc.ring.consumer
      && |j'.ipc.ring.published| == |j.ipc.ring.published| + 1
  {
    hide Advance, JointInv, Inv, SpscRing.Apply, WritesFrom, SpscRing.Run, Run;
    var start := StartArbitrate(scanMs, startMs);
    var j1 := Advance(j, start);
    AdvanceKeeps(j, start);
    var item := StartedSend(j, scanMs, startMs);
    var steps := [CheckFull] + WritesFrom(item, 0);
    WritesAreNotReads(item, 0);
    assert SendProgram(item) == [ReadHead(item)] + steps;
    RunOne(j.ipc.ring, ReadHead(item), steps);
    SendCompletes(j.ipc.ring, RING_SLOTS, SLOT_BYTES, item);
    InvShape(j1);
    MemoryRun(j1, steps);
    events := [start] + Memories(steps);
    assert events[1..] == Memories(steps);
    assert Run(j, events) == Run(j1, events[1..]) by { RunFirst(j, events); }
    RunKeepsJoint(j, events);
  }

  lemma RunFirst(j: Joint, events: seq<Event>)
    requires JointInv(j) && events != []
    ensures Advance(j, events[0]).arb.Shape() && Run(j, events) == Run(Advance(j, events[0]), events[1..])
  {
    AdvanceShape(j, events[0]);
  }

  lemma InvShape(j: Joint)
    requires JointInv(j)
    ensures j.arb.Shape()
  {
  }

  lemma StartedSend(j: Joint, scanMs: nat, startMs: nat) returns (item: seq<bv8>)
    requires JointInv(j) && j.pending.Idle? && Moves(Refreshed(j.arb, scanMs))
    ensures |item| == SLOT_BYTES && Inv(j.ipc.ring, RING_SLOTS, SLOT_BYTES) && j.ipc.ring.producer.Ready?
    ensures var j1 := Advance(j, StartArbitrate(scanMs, startMs));
      && j1.ipc.ring == SpscRing.Apply(j.ipc.ring, ReadHead(item))
      && j1.records == j.records && j1.arb.current == j.arb.current
  {
    hide Frame, CommandFor, RequiredState, HealthMask, CommandEvent, Inv;
    var b := Refreshed(j.arb, scanMs);
    var cmd := CommandFor(b, RequiredState(b.faults, b.mandatory, b.domains));
    SendableCommand(cmd);
    item := Image(Frame(CommandEvent(cmd), CounterByte(j.ipc.counter)));
  }

  /**
    Whenever the ring is drained and a transition is due, the receiver can come to hold
    the new state's command while the arbitrator still reports the old state: one more
    slot is taken than transitions with a successful Send have been performed.
   */
  lemma ReceiverAhead(j: Joint, scanMs: nat, startMs: nat) returns (events: seq<Event>)
    requires JointInv(j) && j.pending.Idle? && Moves(Refreshed(j.arb, scanMs))
    requires j.ipc.ring.consumer.Waiting? && j.ipc.ring.Pending() == 0
    ensures var j' := Run(j, events);
      var delivered := j'.ipc.ring.delivered;
      && j'.records == j.records && j'.arb.current == j.arb.current
      && |delivered| == |j'.ipc.ring.published| == |Positions(j'.records)| + 1
      && |delivered[|delivered| - 1]| == SLOT_BYTES
      && Received(delivered[|delivered| - 1]).state != j'.arb.current
  {
    hide Advance, JointInv, Inv, SpscRing.Apply, SpscRing.Run, Run;
    hide Received, Positions, RequiredState, HealthMask, CopiesOf;
    var first := SendOnly(j, scanMs, startMs);
    var j1 := Run(j, first);
    var take := TakeProgram<bv8>(SLOT_BYTES);
    CopiesAreNotReads(SLOT_BYTES);
    InvShape(j);
    InvShape(j1);
    RingOf(j1);
    TakeCompletes(j1.ipc.ring, RING_SLOTS, SLOT_BYTES);
    MemoryRun(j1, take);
    RunSplits(j, first, Memories(take));
    events := first + Memories(take);
    RunKeepsJoint(j, events);
    AheadByOne(j, Run(j, events));
  }

  lemma RingOf(j: Joint)
    requires JointInv(j)
    ensures Inv(j.ipc.ring, RING_SLOTS, SLOT_BYTES)
  {
  }

  lemma AheadByOne(j: Joint, j': Joint)
    requires JointInv(j) && j.pending.Idle? && JointInv(j') && j'.records == j.records
    requires |j.ipc.ring.delivered| == |j.ipc.ring.published|
    requires |j'.ipc.ring.delivered| == |j'.ipc.ring.published| == |j.ipc.ring.published| + 1
    ensures var delivered := j'.ipc.ring.delivered;
      && |delivered| == |Positions(j'.records)| + 1
      && |delivered[|delivered| - 1]| == SLOT_BYTES
      && Received(delivered[|delivered| - 1]).state != j'.arb.current
  {
    hide Received, Inv, RecordsOk, CommandEvent, IsFrame;
    assert |Positions(j.records)| == |j.ipc.accepted|;
    assert |Positions(Announced(j'))| == |j'.ipc.accepted|;
    assert AwaitsCommit(j');
    LastReceived(j');
  }

  /** A run from Init: all sensors time out, and the receiver knows of the minimal risk condition first. */
  lemma ReceiverAheadFromInit(mandatory: bv8, unused: SoaEvent) returns (events: seq<Event>)
    ensures var j := Run(Begin(mandatory, 0, unused), events);
      var delivered := j.ipc.ring.delivered;
      && j.arb.current == FullOperation && j.records == []
      && |delivered| == |j.ipc.ring.published| == 1 && |delivered[0]| == SLOT_BYTES
      && Received(delivered[0]).state != FullOperation
  {
    hide Run, JointInv, Received, RequiredState, HealthMask, Positions;
    var j := Begin(mandatory, 0, unused);
    BeginInv(mandatory, 0, unused);
    AllTimedOut(mandatory);
    events := ReceiverAhead(j, SENSOR_TIMEOUT_MS + 1, 0);
    assert |Positions([])| == 0 by { NoPositions(); }
  }

  lemma NoPositions()
    ensures Positions([]) == []
  {
  }

  lemma AllTimedOut(mandatory: bv8)
    ensures Moves(Refreshed(Initial(mandatory, 0), SENSOR_TIMEOUT_MS + 1))
  {
    hide RequiredState, HealthMask;
    var b := Refreshed(Initial(mandatory, 0), SENSOR_TIMEOUT_MS + 1);
    assert Failed(b.domains, LIDAR);
    NeverEmergencyStop(b.faults, b.mandatory, b.domains);
  }
}
