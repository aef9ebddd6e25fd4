/**
  The producer side of the cross-core ring, src/IpcBridge.cpp, as a class over the
  shared memory block.  The consumer of include/IpcBridge.hpp lines 79-85 appears as
  the method `Take` of the shared block.  Here every call is atomic; module
  IpcProtocol interleaves the single memory accesses.
 */
module IpcBridge {
  import opened GatewayTypes
  import opened Modulo
  import opened Bytes
  import opened Crc
  import opened IpcSlot

  const RING_SLOTS: nat := 32
  const IPC_MAGIC: nat := 0xA53CA53C

  ghost predicate Sendable(event: SoaEvent) {
    event.WellFormed() && event.payloadLen as nat <= PAYLOAD_BYTES
  }

  /** struct IpcRingBuffer, with the history of accepted events and how many were taken. */
  class SharedRing {
    var head: nat
    var tail: nat
    var magic: nat
    var pad: nat
    var slots: array<Slot>
    ghost var sent: seq<SoaEvent>
    ghost var taken: nat

    constructor ()
      ensures fresh(slots) && slots.Length == RING_SLOTS
    {
      head, tail, magic, pad := 0, 0, 0, 0;
      slots := new Slot[RING_SLOTS](_ => ZeroedSlot());
      sent, taken := [], 0;
    }

    /** The k-th accepted event lies framed, with counter k mod 256, in slot k mod 32 until it is taken. */
    ghost predicate Valid()
      reads this, slots
    {
      && head == |sent| % RING_SLOTS
      && tail == taken % RING_SLOTS
      && Holds(slots[..], sent, taken)
    }

    ghost function Unread(): int
      reads this
    {
      |sent| - taken
    }

    /** The consumer: the oldest unread slot, if there is one. */
    method Take() returns (got: bool, slot: Slot)
      requires Valid()
      modifies this`tail, this`taken
      ensures Valid()
      ensures got <==> old(Unread()) > 0
      ensures got ==> taken == old(taken) + 1 && slot == Frame(sent[old(taken)], CounterByte(old(taken)))
      ensures !got ==> taken == old(taken) && tail == old(tail)
    {
      hide Frame, CounterByte;
      RingFacts(taken, |sent|, RING_SLOTS);
      got := tail != head;
      slot := slots[tail];
      if got {
        ModStep(taken, RING_SLOTS);
        tail := (tail + 1) % RING_SLOTS;
        taken := taken + 1;
      }
    }
  }

  /** The byte that an 8-bit counter shows after k increments. */
  function CounterByte(k: nat): bv8 {
    ByteOf(k)
  }

  /** The fields that Send writes before stamping. */
  function Filled(slot: Slot, event: SoaEvent): (r: Slot)
    requires Sendable(event)
    ensures r.WellFormed()
  {
    var n := event.payloadLen as nat;
    slot.(serviceId := event.serviceId, eventId := event.eventId, sessionId := event.sessionId,
          payloadLen := event.payloadLen, reserved := [0, 0, 0],
          payload := event.payload[..n] + seq(PAYLOAD_BYTES - n, _ => 0))
  }

  /** The header that ApplyE2eHeader writes. */
  function Stamped(slot: Slot, counter: bv8): Slot {
    var header := slot.(counter := counter, dataId := 0x01, length := SLOT_BYTES as bv16,
                        headerReserved := 0x0000, crc := 0x0000);
    header.(crc := ChecksumWord(Protected(header)))
  }

  /** Whatever the slot held before, filling and stamping it gives the frame of the event. */
  lemma FilledAndStamped(slot: Slot, event: SoaEvent, counter: bv8)
    requires Sendable(event)
    ensures Stamped(Filled(slot, event), counter) == Frame(event, counter)
  {
    hide ChecksumWord, Protected;
  }

  class Bridge {
    var ring: SharedRing?
    var seqCounter: nat
    var initialised: bool
    var table: seq<bv16>

    constructor (sram: SharedRing?)
      ensures ring == sram && !initialised && Valid()
    {
      ring, seqCounter, initialised := sram, 0, false;
      var t := MakeCrcTable();
      table := t;
    }

    ghost predicate Valid()
      reads this, ring, if ring == null then {} else {ring.slots}
    {
      && IsTable(table)
      && (initialised ==> ring != null && ring.Valid() && seqCounter == |ring.sent| % 256)
    }

    /** src/IpcBridge.cpp, Init. */
    method Init() returns (r: VoidResult)
      requires Valid() && (ring != null ==> ring.slots.Length == RING_SLOTS)
      modifies this, ring, if ring == null then {} else {ring.slots}
      ensures Valid() && ring == old(ring) && (ring != null ==> ring.slots == old(ring.slots))
      ensures r == if ring == null then Err(NullPointer)
                   else if old(initialised) then Err(AlreadyRegistered) else Ok
      ensures r == Ok ==> initialised && ring.sent == [] && ring.taken == 0 && ring.magic == IPC_MAGIC
      ensures r == Ok ==> forall i :: 0 <= i < RING_SLOTS ==> ring.slots[i] == ZeroedSlot()
      ensures r != Ok ==> initialised == old(initialised)
      ensures r != Ok && ring != null ==> unchanged(ring) && unchanged(ring.slots)
    {
      if ring == null { return Err(NullPointer); }
      if initialised { return Err(AlreadyRegistered); }
      forall i | 0 <= i < ring.slots.Length { ring.slots[i] := ZeroedSlot(); }
      ring.head, ring.tail, ring.pad := 0, 0, 0;
      ring.magic := IPC_MAGIC;
      ring.sent, ring.taken := [], 0;
      seqCounter := 0;
      initialised := true;
      return Ok;
    }

    /** src/IpcBridge.cpp, VerifyE2e. */
    method VerifyE2e(slot: Slot, expectedCounter: bv8) returns (r: VoidResult)
      requires Valid() && slot.WellFormed()
      ensures r == Verdict(slot, expectedCounter)
    {
      var computed := ComputeE2eCrc(table, Protected(slot));
      if computed != slot.crc { return Err(ChecksumMismatch); }
      if slot.counter != expectedCounter { return Err(SequenceError); }
      return Ok;
    }

    /** src/IpcBridge.cpp, ApplyE2eHeader, on the slot at position idx. */
    method ApplyE2eHeader(idx: nat)
      requires IsTable(table) && ring != null && idx < ring.slots.Length && seqCounter < 256
      modifies this`seqCounter, ring.slots
      ensures seqCounter == (old(seqCounter) + 1) % 256
      ensures ring.slots[..] == old(ring.slots[..])[idx := Stamped(old(ring.slots[idx]), CounterByte(old(seqCounter)))]
    {
      hide ChecksumWord, Protected;
      var slot := ring.slots[idx];
      slot := slot.(counter := CounterByte(seqCounter));
      slot := slot.(dataId := 0x01);
      slot := slot.(length := SLOT_BYTES as bv16);
      slot := slot.(headerReserved := 0x0000);
      slot := slot.(crc := 0x0000);
      var crc := ComputeE2eCrc(table, Protected(slot));
      slot := slot.(crc := crc);
      ring.slots[idx] := slot;
      seqCounter := (seqCounter + 1) % 256;
    }

    /** The field writes at the start of Send. */
    method FillSlot(idx: nat, event: SoaEvent)
      requires ring != null && idx < ring.slots.Length && Sendable(event)
      modifies ring.slots
      ensures ring.slots[..] == old(ring.slots[..])[idx := Filled(old(ring.slots[idx]), event)]
    {
      var slot := ring.slots[idx];
      slot := slot.(serviceId := event.serviceId);
      slot := slot.(eventId := event.eventId);
      slot := slot.(sessionId := event.sessionId);
      slot := slot.(payloadLen := event.payloadLen);
      slot := slot.(reserved := [0, 0, 0]);
      var payload := CopyPayload(event.payload, event.payloadLen as nat);
      slot := slot.(payload := payload);
      ring.slots[idx] := slot;
    }

    /** Clear the slot payload, then copy the first n bytes. */
    method CopyPayload(source: seq<bv8>, n: nat) returns (payload: seq<bv8>)
      requires n <= PAYLOAD_BYTES && n <= |source|
      ensures payload == source[..n] + seq(PAYLOAD_BYTES - n, _ => 0)
    {
      payload := seq(PAYLOAD_BYTES, _ => 0);
      if n > 0 {
        payload := source[..n] + payload[n..];
      }
    }

    /** src/IpcBridge.cpp, Send. */
    method Send(event: SoaEvent) returns (r: VoidResult)
      requires Valid() && event.WellFormed()
      modifies this`seqCounter, ring, if ring == null then {} else {ring.slots}
      ensures Valid()
      ensures ring != null ==> ring.slots == old(ring.slots)
      ensures r == if !initialised then Err(NotInitialized)
                   else if event.payloadLen as nat > PAYLOAD_BYTES then Err(InvalidArgument)
                   else if old(ring.Unread()) == RING_SLOTS - 1 then Err(IpcBufferFull)
                   else Ok
      ensures r == Ok ==> ring.sent == old(ring.sent) + [event] && ring.taken == old(ring.taken)
      ensures r == Ok ==> ring.tail == old(ring.tail) && ring.magic == old(ring.magic)
      ensures r != Ok ==> seqCounter == old(seqCounter)
      ensures r != Ok && ring != null ==> unchanged(ring) && unchanged(ring.slots)
    {
      hide Frame, Stamped, Filled, IsTable, CounterByte, Holds;
      if !initialised { return Err(NotInitialized); }
      HoldsFacts(ring.slots[..], ring.sent, ring.taken);
      if event.payloadLen as nat > PAYLOAD_BYTES { return Err(InvalidArgument); }
      var head := ring.head;
      var tail := ring.tail;
      var nextHead := (head + 1) % RING_SLOTS;
      RingFacts(ring.taken, |ring.sent|, RING_SLOTS);
      if nextHead == tail { return Err(IpcBufferFull); }
      ghost var k, before := |ring.sent|, ring.slots[..];
      FillSlot(head, event);
      ApplyE2eHeader(head);
      FilledAndStamped(before[head], event, CounterByte(k % 256));
      assert ring.slots[..] == before[head := Frame(event, CounterByte(k % 256))];
      SlotsGrow(before, ring.slots[..], ring.sent, ring.taken, event);
      ring.head := nextHead;
      ring.sent := ring.sent + [event];
      return Ok;
    }
  }

  /** Slot contents against history: the k-th accepted event is framed with counter k mod 256. */
  ghost predicate Holds(slots: seq<Slot>, sent: seq<SoaEvent>, taken: nat) {
    && |slots| == RING_SLOTS
    && (forall k :: 0 <= k < |sent| ==> Sendable(sent[k]))
    && taken <= |sent| <= taken + RING_SLOTS - 1
    && (forall k :: taken <= k < |sent| ==> slots[k % RING_SLOTS] == Frame(sent[k], CounterByte(k)))
  }

  lemma HoldsFacts(slots: seq<Slot>, sent: seq<SoaEvent>, taken: nat)
    requires Holds(slots, sent, taken)
    ensures |slots| == RING_SLOTS && taken <= |sent| <= taken + RING_SLOTS - 1
  {
  }

  lemma SlotsGrow(before: seq<Slot>, after: seq<Slot>, sent: seq<SoaEvent>, taken: nat, event: SoaEvent)
    requires Holds(before, sent, taken) && Sendable(event) && |sent| - taken < RING_SLOTS - 1
    requires after == before[|sent| % RING_SLOTS := Frame(event, CounterByte(|sent| % 256))]
    ensures Holds(after, sent + [event], taken)
    ensures (|sent| % RING_SLOTS + 1) % RING_SLOTS == |sent + [event]| % RING_SLOTS
    ensures (|sent| % 256 + 1) % 256 == |sent + [event]| % 256
  {
    hide Frame;
    RingFacts(taken, |sent|, RING_SLOTS);
    ModStep(|sent|, RING_SLOTS);
    ModStep(|sent|, 256);
    assert CounterByte(|sent| % 256) == CounterByte(|sent|);
  }
}
