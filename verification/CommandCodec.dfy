/** The 24-byte payload in which src/SafetyArbitrator.cpp sends a SafeStateCommand. */
module CommandCodec {
  import opened GatewayTypes
  import opened Bytes
  import opened IpcSlot
  import opened DegradationMatrix
  import opened ArbitratorState

  const COMMAND_BYTES: nat := 24

  function StateOfCode(n: nat): SafeState {
    match n
    case 0 => FullOperation
    case 1 => RadarCameraFallback
    case 2 => LidarCameraFallback
    case 3 => LidarRadarFallback
    case 4 => DeadReckoningMode
    case 5 => ReducedDynamics
    case 6 => MinimalRiskCondition
    case _ => EmergencyStop
  }

  function Encode(cmd: Command): (b: seq<bv8>)
    ensures |b| == COMMAND_BYTES
  {
    Word(cmd.magic)
    + [ByteOf(Severity(cmd.state)), cmd.activeDomains, cmd.faultBitmask, 0]
    + Word(cmd.maxSpeed) + Word(cmd.maxDecel) + Word(cmd.transitionMs) + Word(cmd.sequenceNum)
  }

  function Decode(b: seq<bv8>): Command
    requires |b| >= COMMAND_BYTES
  {
    Command(NatOfWord(b[0..4]), StateOfCode(NatOf(b[4])), b[5], b[6],
            NatOfWord(b[8..12]), NatOfWord(b[12..16]), NatOfWord(b[16..20]), NatOfWord(b[20..24]))
  }

  lemma EncodedFields(cmd: Command, b: seq<bv8>)
    requires |b| >= COMMAND_BYTES && b[..COMMAND_BYTES] == Encode(cmd)
    ensures b[0..4] == Word(cmd.magic) && b[4] == ByteOf(Severity(cmd.state))
    ensures b[5] == cmd.activeDomains && b[6] == cmd.faultBitmask
    ensures b[8..12] == Word(cmd.maxSpeed) && b[12..16] == Word(cmd.maxDecel)
    ensures b[16..20] == Word(cmd.transitionMs) && b[20..24] == Word(cmd.sequenceNum)
  {
    hide Word, ByteOf;
    var e := Encode(cmd);
    assert forall lo, hi {:trigger b[lo..hi]} :: 0 <= lo <= hi <= 24 ==> b[lo..hi] == e[lo..hi];
    assert b[4] == e[4] && b[5] == e[5] && b[6] == e[6];
    assert e[0..4] == Word(cmd.magic);
    assert e[8..12] == Word(cmd.maxSpeed);
    assert e[12..16] == Word(cmd.maxDecel);
    assert e[16..20] == Word(cmd.transitionMs);
    assert e[20..24] == Word(cmd.sequenceNum);
  }

  /** Whatever follows the first 24 bytes, decoding gives the command back. */
  lemma CodecRoundTrip(cmd: Command, b: seq<bv8>)
    requires |b| >= COMMAND_BYTES && b[..COMMAND_BYTES] == Encode(cmd)
    ensures Decode(b) == cmd
  {
    hide Word, NatOfWord, ByteOf, NatOf, Encode;
    EncodedFields(cmd, b);
    WordRoundTrip(cmd.magic);
    ByteRoundTrip(Severity(cmd.state));
    WordRoundTrip(cmd.maxSpeed);
    WordRoundTrip(cmd.maxDecel);
    WordRoundTrip(cmd.transitionMs);
    WordRoundTrip(cmd.sequenceNum);
  }

  /** src/SafetyArbitrator.cpp, SendCommandToM7: the event around the payload. */
  function CommandEvent(cmd: Command): (e: SoaEvent)
    ensures e.WellFormed() && e.payloadLen == 24 && |e.payload| == MAX_PAYLOAD_BYTES
  {
    SoaEvent(0xFF00, 0xFF01, cmd.sequenceNum, 24,
             Encode(cmd) + seq(MAX_PAYLOAD_BYTES - COMMAND_BYTES, _ => 0))
  }

  lemma CommandLength(e: SoaEvent)
    requires e.payloadLen == 24
    ensures e.payloadLen as nat == COMMAND_BYTES
  {
  }

  /** An event that agrees with the sent one on its payload decodes to the command. */
  lemma ReceivedCommand(cmd: Command, received: SoaEvent)
    requires SameMessage(received, CommandEvent(cmd))
    ensures |received.payload| >= COMMAND_BYTES && Decode(received.payload) == cmd
  {
    hide Encode, Decode;
    CommandLength(received);
    var sent := CommandEvent(cmd);
    assert sent.payload[..COMMAND_BYTES] == Encode(cmd);
    CodecRoundTrip(cmd, received.payload);
  }

  lemma EncodedByte(cmd: Command, i: nat)
    requires i < COMMAND_BYTES
    ensures CommandEvent(cmd).payload[i] == Encode(cmd)[i]
  {
    hide Encode;
  }

  /** Four bytes that hold a number, its lowest eight bits first. */
  predicate LittleEndian(b: seq<bv8>, n: nat)
    requires |b| == 4
  {
    && b[0] as int == n % 256 && b[1] as int == n / 256 % 256
    && b[2] as int == n / 65536 % 256 && b[3] as int == n / 16777216 % 256
  }

  lemma WordIsLittleEndian(n: U32)
    ensures LittleEndian(Word(n), n)
  {
    hide Word;
    WordDigits(n);
  }

  lemma MagicBytes(w: seq<bv8>)
    requires |w| == 4 && LittleEndian(w, 0x5AFE_0001)
    ensures w[0] == 0x01 && w[1] == 0x00 && w[2] == 0xFE && w[3] == 0x5A
  {
    SameByte(w[0], 0x01);
    SameByte(w[1], 0x00);
    SameByte(w[2], 0xFE);
    SameByte(w[3], 0x5A);
  }

  lemma EncodedPlain(cmd: Command)
    ensures var e := Encode(cmd);
      e[4] as int == Severity(cmd.state) && e[5] == cmd.activeDomains && e[6] == cmd.faultBitmask && e[7] == 0
  {
    hide Word, ByteOf, Severity;
    ByteValue(Severity(cmd.state));
    assert Encode(cmd)[4] == ByteOf(Severity(cmd.state));
  }

  lemma EncodedNumbers(cmd: Command)
    ensures var e := Encode(cmd);
      && LittleEndian(e[0..4], cmd.magic)
      && LittleEndian(e[8..12], cmd.maxSpeed) && LittleEndian(e[12..16], cmd.maxDecel)
      && LittleEndian(e[16..20], cmd.transitionMs) && LittleEndian(e[20..24], cmd.sequenceNum)
  {
    hide LittleEndian, Word, ByteOf, Encode, Severity;
    var e := Encode(cmd);
    assert e[..24] == e;
    EncodedFields(cmd, e);
    WordIsLittleEndian(cmd.magic);
    WordIsLittleEndian(cmd.maxSpeed);
    WordIsLittleEndian(cmd.maxDecel);
    WordIsLittleEndian(cmd.transitionMs);
    WordIsLittleEndian(cmd.sequenceNum);
  }

  lemma IdValues()
    ensures var s: bv16, e: bv16 := 0xFF00, 0xFF01;
      (s & 0xFF) as bv8 == 0x00 && (s >> 8) as bv8 == 0xFF && (e & 0xFF) as bv8 == 0x01 && (e >> 8) as bv8 == 0xFF
  {
  }

  /** The header and ids of a command's slot. */
  lemma CommandHeader(cmd: Command, counter: bv8)
    ensures CommandEvent(cmd).payloadLen as nat <= PAYLOAD_BYTES
    ensures var b := Image(Frame(CommandEvent(cmd), counter));
      && |b| == 148
      && b[2] == counter && b[3] == 0x01 && b[4] == 148 && b[5] == 0 && b[6] == 0 && b[7] == 0
      && b[8] == 0x00 && b[9] == 0xFF && b[10] == 0x01 && b[11] == 0xFF
      && LittleEndian(b[12..16], cmd.sequenceNum) && b[16] == 24
  {
    var event := CommandEvent(cmd);
    CommandLength(event);
    IdValues();
    hide Encode, Frame, Image;
    FrameLayout(event, counter);
  }

  /** The payload of a command's slot. */
  lemma CommandPayload(cmd: Command, counter: bv8, i: nat)
    requires i < PAYLOAD_BYTES
    ensures CommandEvent(cmd).payloadLen as nat <= PAYLOAD_BYTES && |Image(Frame(CommandEvent(cmd), counter))| == 148
    ensures Image(Frame(CommandEvent(cmd), counter))[20 + i] == if i < COMMAND_BYTES then Encode(cmd)[i] else 0
  {
    var event := CommandEvent(cmd);
    CommandLength(event);
    if i < COMMAND_BYTES { EncodedByte(cmd, i); }
    hide Encode, Frame, Image, CommandEvent;
    FrameLayout(event, counter);
  }

  lemma WirePayload(cmd: Command, counter: bv8)
    ensures CommandEvent(cmd).payloadLen as nat <= PAYLOAD_BYTES && |Image(Frame(CommandEvent(cmd), counter))| == 148
    ensures var b := Image(Frame(CommandEvent(cmd), counter));
      b[20..44] == Encode(cmd) && forall i :: 44 <= i < 148 ==> b[i] == 0
  {
    hide CommandEvent, Encode, Frame, Image;
    CommandHeader(cmd, counter);
    var b, e := Image(Frame(CommandEvent(cmd), counter)), Encode(cmd);
    forall i | 0 <= i < 24 ensures b[20..44][i] == e[i] {
      CommandPayload(cmd, counter, i);
    }
    forall i | 44 <= i < 148 ensures b[i] == 0 {
      CommandPayload(cmd, counter, i - 20);
    }
  }

  /** The slice of a slice. */
  lemma Inside(b: seq<bv8>, e: seq<bv8>, lo: nat, hi: nat)
    requires |b| == 148 && b[20..44] == e && lo <= hi <= 24
    ensures b[20 + lo..20 + hi] == e[lo..hi]
  {
    assert b[20..44][lo..hi] == b[20 + lo..20 + hi];
  }

  /** The states by the number that stands for them, include/SafetyArbitrator.hpp. */
  const STATES: seq<SafeState> := [
    FullOperation, RadarCameraFallback, LidarCameraFallback, LidarRadarFallback,
    DeadReckoningMode, ReducedDynamics, MinimalRiskCondition, EmergencyStop]

  lemma StateOrder(s: SafeState)
    ensures STATES[Severity(s)] == s
  {
  }

  /** The 148 bytes on the wire hold the command, field by field, in the places the receiver expects. */
  ghost predicate OnTheWire(b: seq<bv8>, cmd: Command) {
    && |b| == 148
    && b[3] == 0x01 && b[4] == 148 && b[5] == 0 && b[6] == 0 && b[7] == 0
    && b[8] == 0x00 && b[9] == 0xFF && b[10] == 0x01 && b[11] == 0xFF
    && LittleEndian(b[12..16], cmd.sequenceNum) && b[16] == 24
    && b[20] == 0x01 && b[21] == 0x00 && b[22] == 0xFE && b[23] == 0x5A
    && b[24] < 8 && STATES[b[24] as int] == cmd.state
    && b[25] == cmd.activeDomains && b[26] == cmd.faultBitmask && b[27] == 0
    && LittleEndian(b[28..32], cmd.maxSpeed) && LittleEndian(b[32..36], cmd.maxDecel)
    && LittleEndian(b[36..40], cmd.transitionMs) && LittleEndian(b[40..44], cmd.sequenceNum)
    && forall i :: 44 <= i < 148 ==> b[i] == 0
  }

  /** A command of the arbitrator as it lies in the shared memory: header, ids, session, magic, state, masks, zeros. */
  lemma CommandOnTheWire(cmd: Command, counter: bv8)
    requires cmd.magic == 0x5AFE_0001
    ensures CommandEvent(cmd).payloadLen as nat <= PAYLOAD_BYTES
    ensures OnTheWire(Image(Frame(CommandEvent(cmd), counter)), cmd)
    ensures Image(Frame(CommandEvent(cmd), counter))[2] == counter
  {
    hide CommandEvent, Encode, Frame, Image, LittleEndian, Severity;
    CommandHeader(cmd, counter);
    WirePayload(cmd, counter);
    EncodedPlain(cmd);
    EncodedNumbers(cmd);
    var b, e := Image(Frame(CommandEvent(cmd), counter)), Encode(cmd);
    StateOrder(cmd.state);
    Inside(b, e, 0, 4);
    Inside(b, e, 8, 12);
    Inside(b, e, 12, 16);
    Inside(b, e, 16, 20);
    Inside(b, e, 20, 24);
    MagicBytes(b[20..24]);
    assert b[20..44][4] == b[24] && b[20..44][5] == b[25] && b[20..44][6] == b[26] && b[20..44][7] == b[27];
  }

  /** What IngestSoaEvent reads out of a sensor-health event. */
  datatype FaultReport = FaultReport(domain: Byte, health: Byte, faultCode: nat)

  function ReportOf(payload: seq<bv8>): FaultReport
    requires |payload| == MAX_PAYLOAD_BYTES
  {
    FaultReport(NatOf(payload[0]), NatOf(payload[1]), NatOfWord(payload[4..8]))
  }

  /** The fault code of a report is read lowest byte first, behind the domain and the health. */
  lemma ReportBytes(p: seq<bv8>)
    requires |p| == MAX_PAYLOAD_BYTES
    ensures var r := ReportOf(p);
      && r.domain == p[0] as int && r.health == p[1] as int
      && r.faultCode == p[4] as int + 256 * (p[5] as int) + 65536 * (p[6] as int) + 16777216 * (p[7] as int)
  {
    hide NatOfWord;
    ReadDigits(p[4..8]);
  }

  lemma IngestEffect(a: Arbitrator, d: Byte, health: Byte, code: nat, now: nat)
    requires a.Shape()
    ensures var (b, result) := IngestIn(a, d, health, code, now);
      && |b.domains| == 8
      && (d >= 7 ==> b == a && result == Err(InvalidArgument))
      && (d < 7 ==>
            && result == Ok && b.domains[d].health == health && b.domains[d].dtcCode == code
            && forall i :: 0 <= i < 8 && i != d ==> b.domains[i] == a.domains[i])
  {
  }

  /** What a sensor-health event does: the domain of byte 0 takes the health of byte 1 and the code of bytes 4 to 7. */
  lemma ReportTakesEffect(a: Arbitrator, p: seq<bv8>, now: nat, d: nat, code: nat)
    requires a.Shape() && |p| == MAX_PAYLOAD_BYTES && d == p[0] as int
    requires code == p[4] as int + 256 * (p[5] as int) + 65536 * (p[6] as int) + 16777216 * (p[7] as int)
    ensures var r := ReportOf(p);
      var (b, result) := IngestIn(a, r.domain, r.health, r.faultCode, now);
      && |b.domains| == 8
      && (d >= 7 ==> b == a && result == Err(InvalidArgument))
      && (d < 7 ==>
            && result == Ok && b.domains[d].health == p[1] as int && b.domains[d].dtcCode == code
            && forall i :: 0 <= i < 8 && i != d ==> b.domains[i] == a.domains[i])
  {
    hide ReportOf, IngestIn;
    ReportBytes(p);
    var r := ReportOf(p);
    IngestEffect(a, r.domain, r.health, r.faultCode, now);
  }
}
