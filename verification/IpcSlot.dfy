/**
  The 148-byte slot of include/IpcBridge.hpp: its memory image, the end-to-end header
  that src/IpcBridge.cpp stamps into it, and the check made on the receiving side.
 */
module IpcSlot {
  import opened GatewayTypes
  import opened Bytes
  import opened ShiftRegister
  import opened Crc
  import opened ErrorDetection

  const SLOT_BYTES: nat := 148
  const PAYLOAD_BYTES: nat := 128
  const CRC_OFFSET: nat := 2

  datatype Slot = Slot(
    crc: bv16, counter: bv8, dataId: bv8, length: bv16, headerReserved: bv16,
    serviceId: bv16, eventId: bv16, sessionId: U32,
    payloadLen: bv8, reserved: seq<bv8>, payload: seq<bv8>)
  {
    ghost predicate WellFormed() {
      |reserved| == 3 && |payload| == PAYLOAD_BYTES
    }
  }

  // ------------------------------------------------------------------
  // Little-endian fields
  // ------------------------------------------------------------------

  function Le16(x: bv16): (b: seq<bv8>)
    ensures |b| == 2
  {
    [(x & 0xFF) as bv8, ((x >> 8) & 0xFF) as bv8]
  }

  function FromLe16(b: seq<bv8>): bv16
    requires |b| == 2
  {
    (b[0] as bv16) | ((b[1] as bv16) << 8)
  }

  lemma Le16RoundTrip(x: bv16)
    ensures FromLe16(Le16(x)) == x
  {
  }

  // ------------------------------------------------------------------
  // Memory image
  // ------------------------------------------------------------------

  /** Bytes 4 to 19: between the first protected word and the payload. */
  function Fields(slot: Slot): (b: seq<bv8>)
    ensures slot.WellFormed() ==> |b| == 16
  {
    Le16(slot.length) + Le16(slot.headerReserved) + Le16(slot.serviceId) + Le16(slot.eventId)
    + Word(slot.sessionId) + [slot.payloadLen] + slot.reserved
  }

  /** Bytes 2 to 147: everything behind the checksum field. */
  function Protected(slot: Slot): (b: seq<bv8>)
    ensures slot.WellFormed() ==> |b| == SLOT_BYTES - CRC_OFFSET
  {
    [slot.counter, slot.dataId] + Fields(slot) + slot.payload
  }

  /** The slot as it lies in shared memory. */
  function Image(slot: Slot): (b: seq<bv8>)
    ensures slot.WellFormed() ==> |b| == SLOT_BYTES
  {
    Le16(slot.crc) + Protected(slot)
  }

  function FromImage(b: seq<bv8>): Slot
    requires |b| == SLOT_BYTES
  {
    Slot(FromLe16(b[0..2]), b[2], b[3], FromLe16(b[4..6]), FromLe16(b[6..8]),
         FromLe16(b[8..10]), FromLe16(b[10..12]), NatOfWord(b[12..16]),
         b[16], b[17..20], b[20..148])
  }

  lemma ImageHead(slot: Slot)
    requires slot.WellFormed()
    ensures var b := Image(slot);
      && b[0..2] == Le16(slot.crc) && b[2] == slot.counter && b[3] == slot.dataId
      && b[4..6] == Le16(slot.length) && b[6..8] == Le16(slot.headerReserved)
  {
    hide Le16, Word;
    var tail := Le16(slot.serviceId) + Le16(slot.eventId) + Word(slot.sessionId) + [slot.payloadLen]
                + slot.reserved + slot.payload;
    assert Image(slot) == Le16(slot.crc) + [slot.counter, slot.dataId] + Le16(slot.length)
                          + Le16(slot.headerReserved) + tail;
  }

  lemma ImageBody(slot: Slot)
    requires slot.WellFormed()
    ensures var b := Image(slot);
      && b[8..10] == Le16(slot.serviceId) && b[10..12] == Le16(slot.eventId)
      && b[12..16] == Word(slot.sessionId) && b[16] == slot.payloadLen
      && b[17..20] == slot.reserved && b[20..148] == slot.payload
  {
    hide Le16, Word;
    var head := Le16(slot.crc) + [slot.counter, slot.dataId] + Le16(slot.length) + Le16(slot.headerReserved);
    var tail := [slot.payloadLen] + slot.reserved + slot.payload;
    assert Image(slot) == head + (Le16(slot.serviceId) + Le16(slot.eventId) + Word(slot.sessionId)) + tail;
  }

  /** The image determines the slot. */
  lemma ImageRoundTrip(slot: Slot)
    requires slot.WellFormed()
    ensures FromImage(Image(slot)) == slot
  {
    hide Le16, Word, FromLe16, NatOfWord, Image;
    ImageHead(slot);
    ImageBody(slot);
    Le16RoundTrip(slot.crc); Le16RoundTrip(slot.length); Le16RoundTrip(slot.headerReserved);
    Le16RoundTrip(slot.serviceId); Le16RoundTrip(slot.eventId); WordRoundTrip(slot.sessionId);
  }

  // ------------------------------------------------------------------
  // Check and stamp
  // ------------------------------------------------------------------

  /** The verdict of VerifyE2e. */
  function Verdict(slot: Slot, expectedCounter: bv8): VoidResult {
    if ChecksumWord(Protected(slot)) != slot.crc then Err(ChecksumMismatch)
    else if slot.counter != expectedCounter then Err(SequenceError)
    else Ok
  }

  /** The slot that a successful send of `event` leaves behind when the counter stands at `counter`. */
  function Frame(event: SoaEvent, counter: bv8): (slot: Slot)
    requires event.WellFormed() && event.payloadLen as nat <= PAYLOAD_BYTES
    ensures slot.WellFormed()
  {
    var n := event.payloadLen as nat;
    var blank := Slot(0, counter, 0x01, SLOT_BYTES as bv16, 0x0000,
                      event.serviceId, event.eventId, event.sessionId, event.payloadLen,
                      [0, 0, 0], event.payload[..n] + seq(PAYLOAD_BYTES - n, _ => 0));
    blank.(crc := ChecksumWord(Protected(blank)))
  }

  /** The event that the receiving side reads out of a slot. */
  function EventOf(slot: Slot): SoaEvent
    requires slot.WellFormed()
  {
    SoaEvent(slot.serviceId, slot.eventId, slot.sessionId, slot.payloadLen,
             slot.payload + seq(MAX_PAYLOAD_BYTES - PAYLOAD_BYTES, _ => 0))
  }

  /** Agreement on everything the receiver may look at. */
  ghost predicate SameMessage(a: SoaEvent, b: SoaEvent) {
    && a.serviceId == b.serviceId && a.eventId == b.eventId && a.sessionId == b.sessionId
    && a.payloadLen == b.payloadLen
    && (a.payloadLen as nat) <= |a.payload| && (a.payloadLen as nat) <= |b.payload|
    && a.payload[..a.payloadLen as nat] == b.payload[..a.payloadLen as nat]
  }

  /** What is framed passes the check with its own counter, fails with any other, and carries the event. */
  lemma FrameVerifies(event: SoaEvent, counter: bv8, expected: bv8)
    requires event.WellFormed() && event.payloadLen as nat <= PAYLOAD_BYTES
    ensures Verdict(Frame(event, counter), expected) == if expected == counter then Ok else Err(SequenceError)
    ensures SameMessage(EventOf(Frame(event, counter)), event)
  {
    hide ChecksumWord, Le16, Word;
    var n := event.payloadLen as nat;
    var slot := Frame(event, counter);
    assert Protected(slot) == Protected(slot.(crc := 0));
    assert EventOf(slot).payload[..n] == event.payload[..n];
  }

  lemma FrameFields(event: SoaEvent, counter: bv8)
    requires event.WellFormed() && event.payloadLen as nat <= PAYLOAD_BYTES
    ensures var slot := Frame(event, counter);
      && slot.counter == counter && slot.dataId == 0x01 && slot.length == 148 && slot.headerReserved == 0
      && slot.serviceId == event.serviceId && slot.eventId == event.eventId && slot.sessionId == event.sessionId
      && slot.payloadLen == event.payloadLen && slot.reserved == [0, 0, 0]
      && forall i :: 0 <= i < 128 ==> slot.payload[i] == if i < event.payloadLen as nat then event.payload[i] else 0
  {
    hide ChecksumWord, Protected;
  }

  /** The bytes of a slot, field by field. */
  lemma SlotBytes(slot: Slot)
    requires slot.WellFormed()
    ensures var b := Image(slot);
      && |b| == 148 && b[2] == slot.counter && b[3] == slot.dataId
      && b[4] == Le16(slot.length)[0] && b[5] == Le16(slot.length)[1]
      && b[6] == Le16(slot.headerReserved)[0] && b[7] == Le16(slot.headerReserved)[1]
      && b[8] == Le16(slot.serviceId)[0] && b[9] == Le16(slot.serviceId)[1]
      && b[10] == Le16(slot.eventId)[0] && b[11] == Le16(slot.eventId)[1]
      && b[16] == slot.payloadLen && b[17..20] == slot.reserved
    ensures forall i :: 0 <= i < 4 ==> Image(slot)[12 + i] == Word(slot.sessionId)[i]
    ensures forall i :: 0 <= i < 128 ==> Image(slot)[20 + i] == slot.payload[i]
  {
    hide Le16, Word, Image;
    ImageHead(slot);
    ImageBody(slot);
    var b := Image(slot);
    assert b[4] == b[4..6][0] && b[5] == b[4..6][1] && b[6] == b[6..8][0] && b[7] == b[6..8][1];
    assert b[8] == b[8..10][0] && b[9] == b[8..10][1] && b[10] == b[10..12][0] && b[11] == b[10..12][1];
    forall i | 0 <= i < 4 ensures b[12 + i] == Word(slot.sessionId)[i] {
      assert b[12 + i] == b[12..16][i];
    }
    forall i | 0 <= i < 128 ensures b[20 + i] == slot.payload[i] {
      assert b[20 + i] == b[20..148][i];
    }
  }

  lemma IdBytes(x: bv16)
    ensures Le16(x)[0] == (x & 0xFF) as bv8 && Le16(x)[1] == (x >> 8) as bv8
  {
  }

  lemma HeaderBytes()
    ensures Le16(148) == [148, 0] && Le16(0) == [0, 0]
  {
  }

  /**
    What lies where in the memory of a slot that Send has written: the header, the ids with
    their low byte first, the session number likewise, the payload, and zeros behind it.
   */
  lemma FrameLayout(event: SoaEvent, counter: bv8)
    requires event.WellFormed() && event.payloadLen as nat <= PAYLOAD_BYTES
    ensures var b := Image(Frame(event, counter));
      && |b| == 148
      && b[2] == counter && b[3] == 0x01 && b[4] == 148 && b[5] == 0 && b[6] == 0 && b[7] == 0
      && b[8] == (event.serviceId & 0xFF) as bv8 && b[9] == (event.serviceId >> 8) as bv8
      && b[10] == (event.eventId & 0xFF) as bv8 && b[11] == (event.eventId >> 8) as bv8
      && b[12] as int == event.sessionId % 256 && b[13] as int == event.sessionId / 256 % 256
      && b[14] as int == event.sessionId / 65536 % 256 && b[15] as int == event.sessionId / 16777216 % 256
      && b[16] == event.payloadLen && b[17..20] == [0, 0, 0]
      && forall i :: 20 <= i < 148 ==> b[i] == if i - 20 < event.payloadLen as nat then event.payload[i - 20] else 0
  {
    hide Frame, Image, Word, Le16;
    FrameFields(event, counter);
    SlotBytes(Frame(event, counter));
    HeaderBytes();
    IdBytes(event.serviceId);
    IdBytes(event.eventId);
    WordDigits(event.sessionId);
    var b, w := Image(Frame(event, counter)), Word(event.sessionId);
    assert b[12 + 0] == w[0] && b[12 + 1] == w[1] && b[12 + 2] == w[2] && b[12 + 3] == w[3];
    forall i | 20 <= i < 148
      ensures b[i] == if i - 20 < event.payloadLen as nat then event.payload[i - 20] else 0
    {
      assert b[20 + (i - 20)] == Frame(event, counter).payload[i - 20];
    }
  }

  lemma ZeroBytes()
    ensures Le16(0) == [0, 0] && Word(0) == [0, 0, 0, 0]
  {
  }

  function ZeroedSlot(): (s: Slot)
    ensures s.WellFormed()
  {
    Slot(0, 0, 0, 0, 0, 0, 0, 0, 0, [0, 0, 0], seq(PAYLOAD_BYTES, _ => 0))
  }

  lemma ZeroedProtected()
    ensures forall i :: 0 <= i < 146 ==> Protected(ZeroedSlot())[i] == 0
  {
    ZeroBytes();
    hide Le16, Word;
  }

  /** Zeroed memory, as Init leaves it, also passes with counter zero: the check alone does not tell it from a frame. */
  lemma ZeroedSlotPasses()
    ensures Verdict(ZeroedSlot(), 0) == Ok
  {
    hide WordOf, WordBits, Protected;
    var data := Protected(ZeroedSlot());
    ZeroedProtected();
    ZeroBytesBits(data);
    SerialZeros(POLY, Zeros(16), 8 * |data|);
    StepsOfZero(POLY, 8 * |data|);
    WordOfBits(Zeros(16));
    ZeroWord();
    WordBitsInjective(WordOf(Zeros(16)), 0);
  }

  lemma {:induction false} ZeroBytesBits(data: seq<bv8>)
    requires forall i :: 0 <= i < |data| ==> data[i] == 0
    ensures BitsOf(data) == Zeros(8 * |data|)
    decreases |data|
  {
    hide WordBits;
    if data != [] {
      ZeroWord();
      ZeroBytesBits(data[1..]);
      assert ByteBits(0) == Zeros(8);
      assert BitsOf(data) == Zeros(8) + Zeros(8 * (|data| - 1));
    }
  }

  // ------------------------------------------------------------------
  // Slots that pass are codewords
  // ------------------------------------------------------------------

  function ProtectedBits(slot: Slot): (r: Bits)
    requires slot.WellFormed()
    ensures |r| == 8 * 146
  {
    BitsOf(Protected(slot))
  }

  /** The 1184 bits of a slot as the checksum takes them: the field, in front in memory, comes last. */
  function SlotBits(slot: Slot): (r: Bits)
    requires slot.WellFormed()
    ensures |r| == 1184
  {
    ProtectedBits(slot) + WordBits(slot.crc)
  }

  /** A slot passes the checksum part of VerifyE2e exactly when its bits are a codeword. */
  lemma PassesIsCodeword(slot: Slot, expected: bv8)
    requires slot.WellFormed()
    ensures Verdict(slot, expected) != Err(ChecksumMismatch) <==> IsCodeword(POLY, SlotBits(slot))
  {
    hide WordBits, WordOf, Protected;
    ConstantProperties();
    Residue(POLY, ProtectedBits(slot), WordBits(slot.crc));
    var sum := Checksum(Protected(slot));
    WordOfBits(sum);
    if WordBits(slot.crc) == sum {
      WordBitsInjective(slot.crc, WordOf(sum));
    }
  }

  lemma {:induction false} SameBitsSameBytes(a: seq<bv8>, b: seq<bv8>)
    requires |a| == |b| && BitsOf(a) == BitsOf(b)
    ensures a == b
    decreases |a|
  {
    hide ByteBits;
    if a != [] {
      assert ByteBits(a[0]) == BitsOf(a)[..8] && ByteBits(b[0]) == BitsOf(b)[..8];
      assert BitsOf(a[1..]) == BitsOf(a)[8..] && BitsOf(b[1..]) == BitsOf(b)[8..];
      SameBitsSameBytes(a[1..], b[1..]);
      SameBitsSameByte(a[0], b[0]);
      assert a == [a[0]] + a[1..] && b == [b[0]] + b[1..];
    }
  }

  lemma SameBitsSameByte(x: bv8, y: bv8)
    requires ByteBits(x) == ByteBits(y)
    ensures x == y
  {
    hide WordBits;
    WordBitsWiden(x);
    WordBitsWiden(y);
    WordBitsInjective(x as bv16, y as bv16);
    NarrowSame(x, y);
  }

  lemma NarrowSame(x: bv8, y: bv8)
    requires x as bv16 == y as bv16
    ensures x == y
  {
  }

  lemma SameSlotBits(a: Slot, b: Slot)
    requires a.WellFormed() && b.WellFormed() && SlotBits(a) == SlotBits(b)
    ensures a == b
  {
    hide BitsOf, WordBits, Protected, Le16, FromImage;
    assert ProtectedBits(a) == SlotBits(a)[..1168] && ProtectedBits(b) == SlotBits(b)[..1168];
    assert WordBits(a.crc) == SlotBits(a)[1168..] && WordBits(b.crc) == SlotBits(b)[1168..];
    SameBitsSameBytes(Protected(a), Protected(b));
    WordBitsInjective(a.crc, b.crc);
    ImageRoundTrip(a);
    ImageRoundTrip(b);
  }

  // ------------------------------------------------------------------
  // What VerifyE2e detects
  // ------------------------------------------------------------------

  /** Any odd number of flipped bits in a valid slot, checksum field included, is a checksum mismatch. */
  lemma OddFlipsMismatch(valid: Slot, received: Slot, counter: bv8, expected: bv8)
    requires valid.WellFormed() && received.WellFormed() && Verdict(valid, counter) == Ok
    requires Distance(SlotBits(valid), SlotBits(received)) % 2 == 1
    ensures Verdict(received, expected) == Err(ChecksumMismatch)
  {
    hide SlotBits, Verdict;
    PassesIsCodeword(valid, counter);
    PassesIsCodeword(received, expected);
    ConstantProperties();
    if IsCodeword(POLY, SlotBits(received)) {
      OddErrorsDetected(POLY, SlotBits(valid), SlotBits(received));
    }
  }

  /** One, two or three flipped bits anywhere in a valid slot are a checksum mismatch. */
  lemma FewFlipsMismatch(valid: Slot, received: Slot, counter: bv8, expected: bv8)
    requires valid.WellFormed() && received.WellFormed() && Verdict(valid, counter) == Ok
    requires valid != received && Distance(SlotBits(valid), SlotBits(received)) <= 3
    ensures Verdict(received, expected) == Err(ChecksumMismatch)
  {
    hide Verdict, Distance, IsCodeword, SlotBits, POLY;
    PassesIsCodeword(valid, counter);
    PassesIsCodeword(received, expected);
    if SlotBits(valid) == SlotBits(received) {
      SameSlotBits(valid, received);
    } else if IsCodeword(POLY, SlotBits(received)) {
      MinimumDistance(SlotBits(valid), SlotBits(received));
    }
  }
}
