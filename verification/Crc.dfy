/**
  The table-driven checksum of src/IpcBridge.cpp, and its refinement of the
  bit-serial register of module ShiftRegister.
 */
module Crc {
  import opened ShiftRegister

  /** 1 << i in 16 bits. */
  function Mask(i: nat): bv16
    requires i < 16
  {
    if i == 0 then 1 else Mask(i - 1) << 1
  }

  /** The bits of a 16-bit word, least significant first. */
  function WordBits(x: bv16): (r: Reg) {
    seq(16, i requires 0 <= i < 16 => x & Mask(i) != 0)
  }

  /** The bits of a byte, least significant first. */
  function ByteBits(b: bv8): (r: Bits)
    ensures |r| == 8
  {
    WordBits(b as bv16)[..8]
  }

  function BitsOf(data: seq<bv8>): (r: Bits)
    ensures |r| == 8 * |data|
  {
    if data == [] then [] else ByteBits(data[0]) + BitsOf(data[1..])
  }

  /** The feedback constant of GenerateCrcEntry. */
  const CRC_CONSTANT: bv16 := 0x8005

  const POLY: Reg := WordBits(CRC_CONSTANT)

  /** The reference checksum of a byte string: register starts at zero, no final exclusive or. */
  function Checksum(data: seq<bv8>): Reg {
    Serial(POLY, Zeros(16), BitsOf(data))
  }

  function ChecksumWord(data: seq<bv8>): bv16 {
    WordOf(Checksum(data))
  }

  // ------------------------------------------------------------------
  // Single bits of words
  // ------------------------------------------------------------------

  lemma Masks()
    ensures Mask(0) == 0x0001 && Mask(1) == 0x0002 && Mask(2) == 0x0004 && Mask(3) == 0x0008
    ensures Mask(4) == 0x0010 && Mask(5) == 0x0020 && Mask(6) == 0x0040 && Mask(7) == 0x0080
    ensures Mask(8) == 0x0100 && Mask(9) == 0x0200 && Mask(10) == 0x0400 && Mask(11) == 0x0800
    ensures Mask(12) == 0x1000 && Mask(13) == 0x2000 && Mask(14) == 0x4000 && Mask(15) == 0x8000
  {
  }

  lemma MaskIsOneBit(i: nat)
    requires i < 16
    ensures Mask(i) & (Mask(i) - 1) == 0
    ensures i < 8 ==> Mask(i) <= 0x80
    ensures 8 <= i ==> 0x100 <= Mask(i)
    ensures i < 15 ==> Mask(i) <= 0x4000
  {
    Masks();
  }

  lemma BitOfXor(x: bv16, y: bv16, m: bv16)
    requires m & (m - 1) == 0
    ensures ((x ^ y) & m != 0) == ((x & m != 0) != (y & m != 0))
  {
  }

  lemma BitOfHalf(x: bv16, m: bv16)
    requires m <= 0x4000
    ensures ((x >> 1) & m != 0) == (x & (m << 1) != 0)
  {
  }

  lemma TopOfHalf(x: bv16)
    ensures (x >> 1) & 0x8000 == 0
  {
  }

  lemma BitOfLow(x: bv16, m: bv16)
    requires m <= 0x80
    ensures (x & 0xFF) & m == x & m
  {
  }

  lemma BitOfByte(x: bv16, m: bv16)
    requires m & (m - 1) == 0 && 0x100 <= m && x <= 0xFF
    ensures x & m == 0
  {
  }

  lemma NoBitsIsZero(x: bv16)
    requires x & 0x0001 == 0 && x & 0x0002 == 0 && x & 0x0004 == 0 && x & 0x0008 == 0
    requires x & 0x0010 == 0 && x & 0x0020 == 0 && x & 0x0040 == 0 && x & 0x0080 == 0
    requires x & 0x0100 == 0 && x & 0x0200 == 0 && x & 0x0400 == 0 && x & 0x0800 == 0
    requires x & 0x1000 == 0 && x & 0x2000 == 0 && x & 0x4000 == 0 && x & 0x8000 == 0
    ensures x == 0
  {
  }

  lemma XorZeroSame(x: bv16, y: bv16)
    requires x ^ y == 0
    ensures x == y
  {
  }

  // ------------------------------------------------------------------
  // Words and their bits
  // ------------------------------------------------------------------

  lemma ZeroBitsZeroWord(x: bv16)
    requires WordBits(x) == Zeros(16)
    ensures x == 0
  {
    forall i | 0 <= i < 16 ensures x & Mask(i) == 0 {
      assert !WordBits(x)[i];
    }
    Masks();
    NoBitsIsZero(x);
  }

  lemma WordBitsXor(x: bv16, y: bv16)
    ensures WordBits(x ^ y) == Xor(WordBits(x), WordBits(y))
  {
    forall i | 0 <= i < 16 ensures WordBits(x ^ y)[i] == (WordBits(x)[i] != WordBits(y)[i]) {
      MaskIsOneBit(i);
      BitOfXor(x, y, Mask(i));
    }
  }

  lemma WordBitsInjective(x: bv16, y: bv16)
    requires WordBits(x) == WordBits(y)
    ensures x == y
  {
    WordBitsXor(x, y);
    XorZero(WordBits(x));
    ZeroBitsZeroWord(x ^ y);
    XorZeroSame(x, y);
  }

  lemma WordBitsHalf(x: bv16)
    ensures WordBits(x >> 1) == WordBits(x)[1..] + [false]
  {
    var half, bits := WordBits(x >> 1), WordBits(x);
    forall i | 0 <= i < 15 ensures half[i] == bits[1..][i] {
      HalfAt(x, i);
    }
    HalfAt(x, 15);
    hide WordBits;
  }

  lemma BitIs(x: bv16, i: nat)
    requires i < 16
    ensures WordBits(x)[i] == (x & Mask(i) != 0)
  {
    hide Mask;
  }

  lemma MaskDoubles(i: nat)
    requires i < 15
    ensures Mask(i + 1) == Mask(i) << 1
  {
  }

  lemma HalfAt(x: bv16, i: nat)
    requires i < 16
    ensures WordBits(x >> 1)[i] == (i < 15 && WordBits(x)[i + 1])
  {
    hide WordBits, Mask;
    if i < 15 { HalfInside(x, i); } else { HalfTop(x); }
  }

  lemma HalfInside(x: bv16, i: nat)
    requires i < 15
    ensures WordBits(x >> 1)[i] == WordBits(x)[i + 1]
  {
    BitIs(x >> 1, i);
    BitIs(x, i + 1);
    MaskIsOneBit(i);
    MaskDoubles(i);
    BitOfHalf(x, Mask(i));
    hide WordBits, Mask;
  }

  lemma HalfTop(x: bv16)
    ensures !WordBits(x >> 1)[15]
  {
    BitIs(x >> 1, 15);
    Masks();
    TopOfHalf(x);
    hide WordBits, Mask;
  }

  lemma ShiftByEight(x: bv16)
    ensures x >> 8 == ((((((((x >> 1) >> 1) >> 1) >> 1) >> 1) >> 1) >> 1) >> 1)
  {
  }

  lemma HalfChain(b0: Reg, b1: Reg, b2: Reg, b3: Reg, b4: Reg, b5: Reg, b6: Reg, b7: Reg, b8: Reg)
    requires b1 == b0[1..] + [false] && b2 == b1[1..] + [false]
    requires b3 == b2[1..] + [false] && b4 == b3[1..] + [false]
    requires b5 == b4[1..] + [false] && b6 == b5[1..] + [false]
    requires b7 == b6[1..] + [false] && b8 == b7[1..] + [false]
    ensures b8 == b0[8..] + Zeros(8)
  {
    assert b2 == b0[2..] + Zeros(2);
    assert b4 == b2[2..] + Zeros(2) == b0[4..] + Zeros(4);
    assert b6 == b4[2..] + Zeros(2);
    assert b8 == b6[2..] + Zeros(2);
    assert b8 == b4[4..] + Zeros(4);
  }

  lemma WordBitsHigh(x: bv16)
    ensures WordBits(x >> 8) == WordBits(x)[8..] + Zeros(8)
  {
    hide *;
    var x1 := x >> 1; var x2 := x1 >> 1; var x3 := x2 >> 1; var x4 := x3 >> 1;
    var x5 := x4 >> 1; var x6 := x5 >> 1; var x7 := x6 >> 1; var x8 := x7 >> 1;
    WordBitsHalf(x); WordBitsHalf(x1); WordBitsHalf(x2); WordBitsHalf(x3);
    WordBitsHalf(x4); WordBitsHalf(x5); WordBitsHalf(x6); WordBitsHalf(x7);
    ShiftByEight(x);
    HalfChain(WordBits(x), WordBits(x1), WordBits(x2), WordBits(x3), WordBits(x4),
              WordBits(x5), WordBits(x6), WordBits(x7), WordBits(x8));
  }

  lemma LowByteWide(x: bv16)
    ensures (LowByte(x) as bv16) == x & 0xFF
  {
  }

  lemma LowAt(x: bv16, i: nat)
    requires i < 8
    ensures WordBits(x & 0xFF)[i] == WordBits(x)[i]
  {
    MaskIsOneBit(i);
    BitOfLow(x, Mask(i));
  }

  lemma WordBitsLow(x: bv16)
    ensures ByteBits(LowByte(x)) == WordBits(x)[..8]
  {
    hide WordBits, LowByte;
    LowByteWide(x);
    forall i | 0 <= i < 8 ensures WordBits(x & 0xFF)[i] == WordBits(x)[i] {
      LowAt(x, i);
    }
  }

  lemma WordBitsWiden(b: bv8)
    ensures WordBits(b as bv16) == Pad(ByteBits(b))
  {
    var bits := WordBits(b as bv16);
    forall i | 8 <= i < 16 ensures !bits[i] {
      MaskIsOneBit(i);
      BitOfByte(b as bv16, Mask(i));
    }
  }

  lemma ShiftedMask(m: bv16)
    requires m <= 0x4000
    ensures (m << 1) >> 1 == m && (m << 1) & 1 == 0
  {
  }

  /** The word 1 << r has the single bit r. */
  lemma {:induction false} MaskBits(r: nat)
    requires r < 16
    ensures WordBits(Mask(r)) == Unit(16, r)
    decreases r
  {
    if r == 0 {
      OneBits();
    } else {
      MaskIsOneBit(r - 1);
      ShiftedMask(Mask(r - 1));
      MaskBits(r - 1);
      WordBitsHalf(Mask(r));
      FromHalf(WordBits(Mask(r)), r, Mask(r));
    }
  }

  lemma FromHalf(bits: Reg, r: nat, m: bv16)
    requires 1 <= r < 16 && bits == WordBits(m) && m & 1 == 0
    requires Unit(16, r - 1) == bits[1..] + [false]
    ensures bits == Unit(16, r)
  {
    assert Mask(0) == 1 && !bits[0];
    forall i | 1 <= i < 16 ensures bits[i] == (i == r) {
      assert bits[i] == (bits[1..] + [false])[i - 1] == Unit(16, r - 1)[i - 1];
    }
  }

  lemma OneBits()
    ensures WordBits(1) == Unit(16, 0) == ONE && Mask(0) == 1
  {
    Masks();
    forall i | 1 <= i < 16 ensures !WordBits(1)[i] {
      EvenMask(i);
    }
  }

  lemma EvenMask(i: nat)
    requires 1 <= i < 16
    ensures 1 & Mask(i) == 0
  {
    EvenShift(Mask(i - 1));
  }

  lemma EvenShift(m: bv16)
    ensures 1 & (m << 1) == 0
  {
  }

  /** The word with the given bits. */
  function WordOf(bits: Reg): bv16 {
    WordFrom(bits, 0)
  }

  function OneBitWord(b: bool, i: nat): bv16
    requires i < 16
  {
    if b then Mask(i) else 0
  }

  function WordFrom(bits: Reg, i: nat): bv16
    requires i <= 16
    decreases 16 - i
  {
    if i == 16 then 0 else OneBitWord(bits[i], i) ^ WordFrom(bits, i + 1)
  }

  lemma AddOneBit(bits: Reg, i: nat)
    requires i < 16
    ensures Xor(if bits[i] then Unit(16, i) else Zeros(16), Zeros(i + 1) + bits[i + 1..]) == Zeros(i) + bits[i..]
  {
  }

  lemma OneBitWordBits(b: bool, i: nat)
    requires i < 16
    ensures WordBits(OneBitWord(b, i)) == if b then Unit(16, i) else Zeros(16)
  {
    if b { MaskBits(i); } else { ZeroWord(); }
  }

  lemma WordFromLast(bits: Reg)
    ensures WordBits(WordFrom(bits, 16)) == Zeros(16) + bits[16..]
  {
    ZeroWord();
    assert Zeros(16) == Zeros(16) + bits[16..];
  }

  lemma {:induction false} WordFromBits(bits: Reg, i: nat)
    requires i <= 16
    ensures WordBits(WordFrom(bits, i)) == Zeros(i) + bits[i..]
    decreases 16 - i
  {
    hide WordBits, OneBitWord, Xor, Zeros, Unit;
    if i == 16 {
      WordFromLast(bits);
    } else {
      WordFromBits(bits, i + 1);
      WordBitsXor(OneBitWord(bits[i], i), WordFrom(bits, i + 1));
      OneBitWordBits(bits[i], i);
      AddOneBit(bits, i);
    }
  }

  lemma WordOfBits(bits: Reg)
    ensures WordBits(WordOf(bits)) == bits
  {
    WordFromBits(bits, 0);
  }

  lemma ZeroWord()
    ensures WordBits(0) == Zeros(16)
  {
  }

  /** One register step on words, as the body of GenerateCrcEntry writes it. */
  function NextWord(crc: bv16): bv16 {
    if crc & 0x0001 != 0 then (crc >> 1) ^ 0x8005 else crc >> 1
  }

  lemma StepWord(crc: bv16)
    ensures WordBits(NextWord(crc)) == Step(POLY, WordBits(crc))
  {
    WordBitsHalf(crc);
    WordBitsXor(crc >> 1, CRC_CONSTANT);
  }

  /** The message 0x80 has the feedback constant itself as its checksum, whatever the constant. */
  lemma ConstantShows(poly: Reg)
    ensures Serial(poly, Zeros(16), BitsOf([0x80])) == poly
  {
    hide WordBits, Serial, Mask;
    TopOfByte();
    assert BitsOf([0x80]) == Zeros(7) + [true];
    SerialConcat(poly, Zeros(16), Zeros(7), [true]);
    SerialZeros(poly, Zeros(16), 7);
    StepsOfZero(poly, 7);
    LastOne(poly);
  }

  lemma TopOfByte()
    ensures ByteBits(0x80) == Zeros(7) + [true]
  {
    MaskBits(7);
    Masks();
    hide WordBits;
    assert ByteBits(0x80) == Unit(16, 7)[..8];
  }

  lemma LastOne(poly: Reg)
    ensures Serial(poly, Zeros(16), [true]) == poly
  {
    assert [true][1..] == [];
    assert Feed(poly, Zeros(16), true) == poly;
  }

  /** CRC-16/ARC feeds back 0xA001, starts at zero and adds nothing at the end: already on one byte it differs. */
  lemma DiffersFromArc()
    ensures Checksum([0x80]) != Serial(WordBits(0xA001), Zeros(16), BitsOf([0x80]))
  {
    hide WordBits, Serial, BitsOf;
    ConstantShows(POLY);
    ConstantShows(WordBits(0xA001));
    if WordBits(0xA001) == POLY {
      WordBitsInjective(0xA001, CRC_CONSTANT);
    }
  }

  // ------------------------------------------------------------------
  // The table
  // ------------------------------------------------------------------

  /** Entry i holds the register after eight steps from the byte i. */
  ghost predicate IsEntry(entry: bv16, idx: bv8) {
    WordBits(entry) == Steps(POLY, Pad(ByteBits(idx)), 8)
  }

  ghost predicate IsTable(table: seq<bv16>) {
    |table| == 256 && forall i :: 0 <= i < 256 ==> IsEntry(table[i], i as bv8)
  }

  /** src/IpcBridge.cpp, GenerateCrcEntry. */
  method GenerateCrcEntry(idx: bv8) returns (crc: bv16)
    ensures IsEntry(crc, idx)
  {
    hide WordBits, ByteBits, Step;
    crc := idx as bv16;
    WordBitsWiden(idx);
    var bit := 0;
    while bit < 8
      invariant 0 <= bit <= 8
      invariant Steps(POLY, WordBits(crc), 8 - bit) == Steps(POLY, Pad(ByteBits(idx)), 8)
    {
      StepWord(crc);
      if crc & 0x0001 != 0 {
        crc := (crc >> 1) ^ 0x8005;
      } else {
        crc := crc >> 1;
      }
      bit := bit + 1;
    }
  }

  /** src/IpcBridge.cpp, MakeCrcTable. */
  method MakeCrcTable() returns (table: seq<bv16>)
    ensures IsTable(table)
  {
    hide IsEntry;
    table := [];
    while |table| < 256
      invariant |table| <= 256
      invariant forall i :: 0 <= i < |table| ==> IsEntry(table[i], i as bv8)
      decreases 256 - |table|
    {
      var entry := GenerateCrcEntry(|table| as bv8);
      table := table + [entry];
    }
  }

  /** src/IpcBridge.cpp, ComputeE2eCrc: the table loop computes the bit-serial checksum. */
  method ComputeE2eCrc(table: seq<bv16>, data: seq<bv8>) returns (crc: bv16)
    requires IsTable(table)
    ensures crc == ChecksumWord(data)
  {
    hide WordBits, Checksum, IsEntry, LowByte, WordOf;
    crc := 0x0000;
    EmptyChecksum();
    var i := 0;
    while i < |data|
      invariant 0 <= i <= |data|
      invariant WordBits(crc) == Checksum(data[..i])
    {
      var tableIdx := LowByte(crc ^ (data[i] as bv16));
      TableLoopPass(table, data, i, crc, tableIdx);
      crc := (crc >> 8) ^ table[tableIdx as int];
      i := i + 1;
    }
    assert data[..|data|] == data;
    WordOfBits(Checksum(data));
    WordBitsInjective(crc, ChecksumWord(data));
  }

  lemma EmptyChecksum()
    ensures WordBits(0) == Checksum([])
  {
    ZeroWord();
  }

  lemma TableLoopPass(table: seq<bv16>, data: seq<bv8>, i: nat, crc: bv16, idx: bv8)
    requires IsTable(table) && i < |data|
    requires WordBits(crc) == Checksum(data[..i]) && idx == LowByte(crc ^ (data[i] as bv16))
    ensures WordBits((crc >> 8) ^ table[idx as int]) == Checksum(data[..i + 1])
  {
    hide WordBits, Checksum, IsEntry, LowByte;
    assert IsEntry(table[idx as int], (idx as int) as bv8);
    TableUpdate(crc, data[i], idx, table[idx as int]);
    ChecksumSnoc(data[..i], data[i]);
    assert data[..i + 1] == data[..i] + [data[i]];
  }

  /** Conversion of a 16-bit word to its low byte. */
  function LowByte(x: bv16): bv8 {
    (x & 0xFF) as bv8
  }

  /** One pass of the table loop, on bits: look up the low byte, add the high byte. */
  lemma TablePass(c: Reg, byte: Bits)
    requires |byte| == 8
    ensures Serial(POLY, c, byte) == Xor(c[8..] + Zeros(8), Steps(POLY, Pad(Xor(c[..8], byte)), 8))
  {
    hide Serial, Steps, Step, WordBits;
    var x := Xor(c, Pad(byte));
    SerialIsSteps(POLY, c, byte);
    TableSplit(POLY, x);
    assert x[..8] + Zeros(8) == Pad(Xor(c[..8], byte)) && x[8..] == c[8..];
  }

  lemma XorTake(a: Reg, b: Reg)
    ensures Xor(a, b)[..8] == Xor(a[..8], b[..8])
  {
  }

  lemma TableIndex(crc: bv16, b: bv8)
    ensures ByteBits(LowByte(crc ^ (b as bv16))) == Xor(WordBits(crc)[..8], ByteBits(b))
  {
    hide WordBits, LowByte, Xor;
    WordBitsLow(crc ^ (b as bv16));
    WordBitsXor(crc, b as bv16);
    XorTake(WordBits(crc), WordBits(b as bv16));
  }

  lemma TableGlue(w: Reg, byte: Bits, idx: bv8, entry: bv16, high: bv16, next: bv16)
    requires |byte| == 8 && IsEntry(entry, idx)
    requires ByteBits(idx) == Xor(w[..8], byte)
    requires WordBits(high) == w[8..] + Zeros(8)
    requires WordBits(next) == Xor(WordBits(high), WordBits(entry))
    ensures WordBits(next) == Serial(POLY, w, byte)
  {
    hide WordBits, ByteBits, Serial, Steps;
    TablePass(w, byte);
  }

  /** One pass of the table loop feeds the eight bits of one byte. */
  lemma TableUpdate(crc: bv16, b: bv8, idx: bv8, entry: bv16)
    requires idx == LowByte(crc ^ (b as bv16)) && IsEntry(entry, idx)
    ensures WordBits((crc >> 8) ^ entry) == Serial(POLY, WordBits(crc), ByteBits(b))
  {
    hide *;
    TableIndex(crc, b);
    WordBitsHigh(crc);
    WordBitsXor(crc >> 8, entry);
    TableGlue(WordBits(crc), ByteBits(b), idx, entry, crc >> 8, (crc >> 8) ^ entry);
  }

  lemma {:induction false} BitsOfConcat(a: seq<bv8>, b: seq<bv8>)
    ensures BitsOf(a + b) == BitsOf(a) + BitsOf(b)
    decreases |a|
  {
    if a == [] {
      assert a + b == b;
    } else {
      assert (a + b)[1..] == a[1..] + b;
      BitsOfConcat(a[1..], b);
    }
  }

  lemma ChecksumSnoc(data: seq<bv8>, b: bv8)
    ensures Checksum(data + [b]) == Serial(POLY, Checksum(data), ByteBits(b))
  {
    BitsOfConcat(data, [b]);
    assert BitsOf([b]) == ByteBits(b);
    SerialConcat(POLY, Zeros(16), BitsOf(data), ByteBits(b));
  }
}
