/**
  What VerifyE2e detects of burst errors, in the order in which a slot lies in memory.

  The checksum field is in front of the bytes it protects, while the checksum takes it
  last.  A burst inside the field or inside the protected bytes is always noticed.  A
  burst across their boundary, bytes 1 and 2, can pass the checksum; every one that does
  changes the sequence counter.
 */
module SlotBursts {
  import opened GatewayTypes
  import opened ShiftRegister
  import opened Crc
  import opened ErrorDetection
  import opened BoundaryMap
  import opened IpcSlot
  import Bytes

  /** The slot as it lies in memory, bit by bit, least significant bit of each byte first. */
  function ImageBits(slot: Slot): (r: Bits)
    requires slot.WellFormed()
    ensures |r| == 1184
  {
    BitsOf(Image(slot))
  }

  // ------------------------------------------------------------------
  // The image in two parts
  // ------------------------------------------------------------------

  lemma PairBits(x: bv8, y: bv8)
    ensures BitsOf([x, y]) == ByteBits(x) + ByteBits(y)
  {
    hide ByteBits;
    assert [x, y][1..] == [y] && [y][1..] == [];
    assert BitsOf([y]) == ByteBits(y);
  }

  lemma Le16Bits(x: bv16)
    ensures BitsOf(Le16(x)) == WordBits(x)
  {
    hide WordBits, ByteBits;
    PairBits(Le16(x)[0], Le16(x)[1]);
    WordBitsLow(x);
    WordBitsLow(x >> 8);
    WordBitsHigh(x);
    assert WordBits(x) == WordBits(x)[..8] + WordBits(x)[8..];
  }

  lemma ImageParts(slot: Slot)
    requires slot.WellFormed()
    ensures ImageBits(slot) == WordBits(slot.crc) + ProtectedBits(slot)
  {
    hide BitsOf, WordBits, Le16, Protected;
    BitsOfConcat(Le16(slot.crc), Protected(slot));
    Le16Bits(slot.crc);
  }

  /** Bytes 2 and 3, the counter and the data id, as one word. */
  function Header(slot: Slot): bv16 {
    FromLe16([slot.counter, slot.dataId])
  }

  lemma PairRoundTrip(x: bv8, y: bv8)
    ensures Le16(FromLe16([x, y])) == [x, y]
  {
  }

  lemma HeaderBits(slot: Slot)
    requires slot.WellFormed()
    ensures ProtectedBits(slot)[..16] == WordBits(Header(slot))
  {
    hide BitsOf, WordBits, Le16, FromLe16;
    var pair := [slot.counter, slot.dataId];
    assert Protected(slot) == pair + Protected(slot)[2..];
    BitsOfConcat(pair, Protected(slot)[2..]);
    PairRoundTrip(slot.counter, slot.dataId);
    Le16Bits(Header(slot));
  }

  // ------------------------------------------------------------------
  // Errors across the boundary
  // ------------------------------------------------------------------

  /** The two slots agree behind byte 3. */
  ghost predicate SameBody(a: Slot, b: Slot)
    requires a.WellFormed() && b.WellFormed()
  {
    ProtectedBits(a)[16..] == ProtectedBits(b)[16..]
  }

  lemma SerialOfWord(x: bv16)
    ensures Serial(POLY, Zeros(16), WordBits(x) + Zeros(1152)) == WordBits(Carried(x))
  {
    hide WordBits, Serial, Steps, Carried, Xor;
    var z, w := Zeros(16), WordBits(x);
    SerialConcat(POLY, z, w, Zeros(1152));
    SerialIsSteps(POLY, z, w);
    assert Pad(w) == w;
    XorZero(w);
    SerialZeros(POLY, Serial(POLY, z, w), 1152);
    StepsAdd(POLY, w, 16, 1152);
    CarriedSteps(x);
  }

  /** An error in the header word and the check field is a codeword exactly when the one is carried to the other. */
  lemma ErrorPasses(header: bv16, crc: bv16)
    ensures IsCodeword(POLY, WordBits(header) + Zeros(1152) + WordBits(crc)) <==> Carried(header) == crc
  {
    hide WordBits, Serial, Carried, IsCodeword;
    ConstantProperties();
    Residue(POLY, WordBits(header) + Zeros(1152), WordBits(crc));
    SerialOfWord(header);
    if WordBits(Carried(header)) == WordBits(crc) {
      WordBitsInjective(Carried(header), crc);
    }
  }

  lemma HeaderError(a: Slot, b: Slot)
    requires a.WellFormed() && b.WellFormed() && SameBody(a, b)
    ensures Xor(SlotBits(a), SlotBits(b))
            == WordBits(XorWord(Header(a), Header(b))) + Zeros(1152) + WordBits(XorWord(a.crc, b.crc))
  {
    hide WordBits, Header, BitsOf, Protected, XorWord;
    HeaderBits(a);
    HeaderBits(b);
    XorWordBits(Header(a), Header(b));
    XorWordBits(a.crc, b.crc);
    ErrorParts(ProtectedBits(a), ProtectedBits(b), WordBits(a.crc), WordBits(b.crc));
  }

  lemma ErrorParts(p: Bits, q: Bits, c: Reg, d: Reg)
    requires |p| == |q| == 1168 && p[16..] == q[16..]
    ensures Xor(p + c, q + d) == Xor(p[..16], q[..16]) + Zeros(1152) + Xor(c, d)
  {
    assert forall i :: 16 <= i < 1168 ==> p[i] == p[16..][i - 16] && q[i] == q[16..][i - 16];
  }

  lemma CodewordMoved(a: Bits, b: Bits)
    requires |a| == |b| && IsCodeword(POLY, a)
    ensures IsCodeword(POLY, b) <==> IsCodeword(POLY, Xor(a, b))
  {
    hide Serial;
    if IsCodeword(POLY, b) {
      ErrorIsCodeword(POLY, a, b);
    }
    if IsCodeword(POLY, Xor(a, b)) {
      ErrorIsCodeword(POLY, a, Xor(a, b));
      assert Xor(a, Xor(a, b)) == b;
    }
  }

  lemma HeaderErrorPasses(valid: Slot, received: Slot, counter: bv8, expected: bv8)
    requires valid.WellFormed() && received.WellFormed() && SameBody(valid, received) && Verdict(valid, counter) == Ok
    ensures Verdict(received, expected) != Err(ChecksumMismatch)
            <==> Carried(XorWord(Header(valid), Header(received))) == XorWord(valid.crc, received.crc)
  {
    hide Verdict, SlotBits, IsCodeword, Carried, Header, SameBody, WordBits, POLY, XorWord;
    PassesIsCodeword(valid, counter);
    PassesIsCodeword(received, expected);
    CodewordMoved(SlotBits(valid), SlotBits(received));
    HeaderError(valid, received);
    ErrorPasses(XorWord(Header(valid), Header(received)), XorWord(valid.crc, received.crc));
  }

  // ------------------------------------------------------------------
  // A burst as two words
  // ------------------------------------------------------------------

  lemma TopSplit(x: bv16)
    requires x & 0x8000 == 0
    ensures x < 0x8000
  {
  }

  lemma BelowNext(x: bv16, m: bv16)
    requires m & (m - 1) == 0 && 0 < m <= 0x4000 && x < m << 1 && x & m == 0
    ensures x < m
  {
  }

  /** No bit from lo on: the word is below the mask of lo. */
  lemma {:induction false} BelowMask(x: bv16, lo: nat)
    requires lo < 16 && forall i :: lo <= i < 16 ==> !WordBits(x)[i]
    ensures x < Mask(lo)
    decreases 16 - lo
  {
    assert !WordBits(x)[lo];
    MaskIsOneBit(lo);
    Masks();
    if lo == 15 {
      TopSplit(x);
    } else {
      hide WordBits;
      BelowMask(x, lo + 1);
      BelowNext(x, Mask(lo));
    }
  }

  lemma AboveNext(y: bv16, m: bv16)
    requires m & (m - 1) == 0 && 0 < m <= 0x4000 && y & (m - 1) == 0 && y & m == 0
    ensures y & ((m << 1) - 1) == 0
  {
  }

  /** No bit before lo: the word has nothing below the mask of lo. */
  lemma {:induction false} AboveMask(y: bv16, lo: nat)
    requires lo < 16 && forall i :: 0 <= i < lo ==> !WordBits(y)[i]
    ensures y & (Mask(lo) - 1) == 0
    decreases lo
  {
    hide WordBits;
    if lo == 0 {
      Masks();
    } else {
      AboveMask(y, lo - 1);
      BitAbove(y, lo - 1);
    }
  }

  lemma BitAbove(y: bv16, i: nat)
    requires i < 15 && !WordBits(y)[i] && y & (Mask(i) - 1) == 0
    ensures y & (Mask(i + 1) - 1) == 0
  {
    MaskIsOneBit(i);
    MaskPositive(i);
    AboveNext(y, Mask(i));
  }

  lemma MaskPositive(i: nat)
    requires i < 16
    ensures 0 < Mask(i)
  {
    Masks();
  }

  /** What a burst over the boundary means for the two words. */
  lemma BurstWords(a: Slot, b: Slot, lo: nat)
    requires a.WellFormed() && b.WellFormed() && lo < 16 && InBurst(ImageBits(a), ImageBits(b), lo, 16)
    ensures SameBody(a, b) && Split(XorWord(Header(a), Header(b)), XorWord(a.crc, b.crc), Mask(lo))
  {
    hide WordBits, Header, BitsOf, Protected, XorWord, Image;
    ImageParts(a);
    ImageParts(b);
    HeaderBits(a);
    HeaderBits(b);
    XorWordBits(Header(a), Header(b));
    XorWordBits(a.crc, b.crc);
    var p, q := ProtectedBits(a), ProtectedBits(b);
    forall i | 0 <= i < 1168 && p[i] != q[i] ensures i < lo {
      assert ImageBits(a)[16 + i] == p[i] && ImageBits(b)[16 + i] == q[i];
    }
    forall i | 0 <= i < 16 && WordBits(a.crc)[i] != WordBits(b.crc)[i] ensures lo <= i {
      assert ImageBits(a)[i] == WordBits(a.crc)[i] && ImageBits(b)[i] == WordBits(b.crc)[i];
    }
    forall i | lo <= i < 16 ensures !WordBits(XorWord(Header(a), Header(b)))[i] {
      assert p[..16][i] == p[i] && q[..16][i] == q[i];
    }
    BelowMask(XorWord(Header(a), Header(b)), lo);
    AboveMask(XorWord(a.crc, b.crc), lo);
    MaskIsOneBit(lo);
    MaskPositive(lo);
    assert p[16..] == q[16..];
  }

  // ------------------------------------------------------------------
  // Main results
  // ------------------------------------------------------------------

  lemma XorWordZero(x: bv16, y: bv16)
    ensures XorWord(x, y) == 0 <==> x == y
  {
    if XorWord(x, y) == 0 { XorZeroSame(x, y); }
    XorSame(x);
  }

  lemma XorSame(x: bv16)
    ensures x ^ x == 0
  {
  }

  /** In the order of the checksum a burst is always noticed. */
  lemma SlotBurst(valid: Slot, received: Slot, lo: nat, counter: bv8, expected: bv8)
    requires valid.WellFormed() && received.WellFormed() && Verdict(valid, counter) == Ok
    requires valid != received && InBurst(SlotBits(valid), SlotBits(received), lo, 16)
    ensures Verdict(received, expected) == Err(ChecksumMismatch)
  {
    hide Verdict, IsCodeword, SlotBits, InBurst;
    PassesIsCodeword(valid, counter);
    PassesIsCodeword(received, expected);
    ConstantProperties();
    if IsCodeword(POLY, SlotBits(received)) {
      BurstDetected(POLY, SlotBits(valid), SlotBits(received), lo);
      SameSlotBits(valid, received);
    }
  }

  /** The same in bytes 2 to 147, with the field left alone. */
  lemma ProtectedBurstMismatch(valid: Slot, received: Slot, lo: nat, counter: bv8, expected: bv8)
    requires valid.WellFormed() && received.WellFormed() && Verdict(valid, counter) == Ok
    requires valid.crc == received.crc && ProtectedBits(valid) != ProtectedBits(received)
    requires InBurst(ProtectedBits(valid), ProtectedBits(received), lo, 16)
    ensures Verdict(received, expected) == Err(ChecksumMismatch)
  {
    hide BitsOf, WordBits, Protected, Verdict;
    var a, b := SlotBits(valid), SlotBits(received);
    assert a[1168..] == b[1168..];
    assert forall i :: 1168 <= i < |a| ==> a[i] == a[1168..][i - 1168];
    forall i | 0 <= i < |a| && a[i] != b[i] ensures lo <= i < lo + 16 {
      assert ProtectedBits(valid)[i] != ProtectedBits(received)[i];
    }
    SlotBurst(valid, received, lo, counter, expected);
  }

  /** A burst behind the field. */
  lemma BodyBurst(valid: Slot, received: Slot, lo: nat, counter: bv8, expected: bv8)
    requires valid.WellFormed() && received.WellFormed() && Verdict(valid, counter) == Ok
    requires valid != received && 16 <= lo && InBurst(ImageBits(valid), ImageBits(received), lo, 16)
    ensures valid.crc == received.crc && Verdict(received, expected) == Err(ChecksumMismatch)
  {
    hide WordBits, BitsOf, Protected, Image, Verdict;
    ImageParts(valid);
    ImageParts(received);
    var p, q := ProtectedBits(valid), ProtectedBits(received);
    BurstBehind(WordBits(valid.crc), WordBits(received.crc), p, q, lo);
    WordBitsInjective(valid.crc, received.crc);
    assert p != q by { if p == q { SameSlotBits(valid, received); } }
    ProtectedBurstMismatch(valid, received, lo - 16, counter, expected);
  }

  /** A burst that starts behind the first 16 bits leaves these alone. */
  lemma BurstBehind(c: Reg, d: Reg, p: Bits, q: Bits, lo: nat)
    requires |p| == |q| && 16 <= lo && InBurst(c + p, d + q, lo, 16)
    ensures c == d && InBurst(p, q, lo - 16, 16)
  {
    var a, b := c + p, d + q;
    forall i | 0 <= i < 16 ensures c[i] == d[i] {
      assert a[i] == c[i] && b[i] == d[i];
    }
    forall i | 0 <= i < |p| && p[i] != q[i] ensures lo - 16 <= i < lo {
      assert a[i + 16] == p[i] && b[i + 16] == q[i];
    }
  }

  /**
    Exactly which bursts pass the checksum: of all errors within 16 consecutive bits of a
    valid slot as it lies in memory, those that change the header word and the field by
    one of the seven listed pairs.
   */
  lemma BurstPassesExactly(valid: Slot, received: Slot, lo: nat, counter: bv8, expected: bv8)
    requires valid.WellFormed() && received.WellFormed() && Verdict(valid, counter) == Ok
    requires valid != received && InBurst(ImageBits(valid), ImageBits(received), lo, 16)
    ensures Verdict(received, expected) != Err(ChecksumMismatch)
            <==> Unseen(XorWord(Header(valid), Header(received)), XorWord(valid.crc, received.crc))
  {
    hide Verdict, ImageBits, Carried, Header, InBurst, Split, Mask, XorWord, Unseen, SameBody;
    var x, y := XorWord(Header(valid), Header(received)), XorWord(valid.crc, received.crc);
    XorWordZero(valid.crc, received.crc);
    if lo < 16 {
      BurstWords(valid, received, lo);
      HeaderErrorPasses(valid, received, counter, expected);
      if x == 0 && y == 0 { SameWords(valid, received); }
      CarriedIsUnseen(x, y, Mask(lo));
    } else {
      BodyBurst(valid, received, lo, counter, expected);
      if Unseen(x, y) { UnseenChanges(x, y); }
    }
  }

  lemma SameWords(a: Slot, b: Slot)
    requires a.WellFormed() && b.WellFormed() && SameBody(a, b)
    requires XorWord(Header(a), Header(b)) == 0 && XorWord(a.crc, b.crc) == 0
    ensures a == b
  {
    hide Header, BitsOf, Protected, WordBits, XorWord;
    XorWordZero(Header(a), Header(b));
    XorWordZero(a.crc, b.crc);
    HeaderBits(a);
    HeaderBits(b);
    var p, q := ProtectedBits(a), ProtectedBits(b);
    assert p == p[..16] + p[16..] && q == q[..16] + q[16..];
    SameSlotBits(a, b);
  }

  /** A burst inside the checksum field, or inside the protected bytes 2 to 147, is a checksum mismatch. */
  lemma BurstMismatch(valid: Slot, received: Slot, lo: nat, n: nat, counter: bv8, expected: bv8)
    requires valid.WellFormed() && received.WellFormed() && Verdict(valid, counter) == Ok
    requires valid != received && n <= 16 && InBurst(ImageBits(valid), ImageBits(received), lo, n)
    requires lo + n <= 16 || 16 <= lo
    ensures Verdict(received, expected) == Err(ChecksumMismatch)
  {
    hide Verdict, Header, XorWord, Unseen, BitsOf, WordBits, Image, Protected;
    BurstPassesExactly(valid, received, lo, counter, expected);
    var x, y := XorWord(Header(valid), Header(received)), XorWord(valid.crc, received.crc);
    if lo + n <= 16 {
      FieldOnly(valid, received);
      XorWordZero(Header(valid), Header(received));
    } else {
      BodyBurst(valid, received, lo, counter, expected);
      XorWordZero(valid.crc, received.crc);
    }
    if Unseen(x, y) { UnseenChanges(x, y); }
  }

  lemma FieldOnly(a: Slot, b: Slot)
    requires a.WellFormed() && b.WellFormed() && InBurst(ImageBits(a), ImageBits(b), 0, 16)
    ensures Header(a) == Header(b)
  {
    hide BitsOf, WordBits, Protected, Image, Header;
    ImageParts(a);
    ImageParts(b);
    HeaderBits(a);
    HeaderBits(b);
    var p, q := ImageBits(a), ImageBits(b);
    assert forall i :: 0 <= i < 16 ==> p[16 + i] == WordBits(Header(a))[i] by {
      assert ProtectedBits(a)[..16] == WordBits(Header(a));
    }
    assert forall i :: 0 <= i < 16 ==> q[16 + i] == WordBits(Header(b))[i] by {
      assert ProtectedBits(b)[..16] == WordBits(Header(b));
    }
    assert WordBits(Header(a)) == WordBits(Header(b));
    WordBitsInjective(Header(a), Header(b));
  }

  lemma HeaderLow(a: Slot, b: Slot)
    requires XorWord(Header(a), Header(b)) & 0x00FF != 0
    ensures a.counter != b.counter
  {
  }

  /** No error within 16 consecutive bits of a valid slot, wherever it lies, is accepted under the slot's counter. */
  lemma BurstNeverAccepted(valid: Slot, received: Slot, lo: nat, counter: bv8)
    requires valid.WellFormed() && received.WellFormed() && Verdict(valid, counter) == Ok
    requires valid != received && InBurst(ImageBits(valid), ImageBits(received), lo, 16)
    ensures Verdict(received, counter) != Ok
  {
    hide Header, XorWord, Unseen, ImageBits, InBurst, ChecksumWord;
    BurstPassesExactly(valid, received, lo, counter, counter);
    var x, y := XorWord(Header(valid), Header(received)), XorWord(valid.crc, received.crc);
    if Unseen(x, y) {
      UnseenChanges(x, y);
      HeaderLow(valid, received);
    }
  }

  // ------------------------------------------------------------------
  // The limits are sharp
  // ------------------------------------------------------------------

  /** Twelve bits of the header and the last bit of the field turned over. */
  function Flipped(slot: Slot): Slot {
    slot.(crc := slot.crc ^ 0x8000, counter := slot.counter ^ 0xCF, dataId := slot.dataId ^ 0x0E)
  }

  lemma FlippedWords(slot: Slot)
    ensures XorWord(Header(slot), Header(Flipped(slot))) == 0x0ECF
    ensures XorWord(slot.crc, Flipped(slot).crc) == 0x8000
    ensures Flipped(slot) != slot
  {
    assert slot.crc ^ 0x8000 != slot.crc;
  }

  lemma SameTail(a: Slot, b: Slot)
    requires a.WellFormed() && b.WellFormed() && Protected(a)[2..] == Protected(b)[2..]
    ensures SameBody(a, b)
  {
    hide BitsOf, WordBits, Le16, Protected;
    BodyBits(a);
    BodyBits(b);
  }

  lemma BodyBits(slot: Slot)
    requires slot.WellFormed()
    ensures ProtectedBits(slot)[16..] == BitsOf(Protected(slot)[2..])
  {
    hide BitsOf, WordBits, Protected;
    var p := Protected(slot);
    assert p == p[..2] + p[2..];
    BitsOfConcat(p[..2], p[2..]);
  }

  lemma ReplacedTail(slot: Slot, crc: bv16, counter: bv8, dataId: bv8)
    requires slot.WellFormed()
    ensures var b := slot.(crc := crc, counter := counter, dataId := dataId);
      b.WellFormed() && Protected(slot)[2..] == Protected(b)[2..]
  {
    hide Le16, Bytes.Word;
    var b := slot.(crc := crc, counter := counter, dataId := dataId);
    assert Fields(b) == Fields(slot);
    hide Fields;
    assert Protected(b)[2..] == Fields(slot) + slot.payload;
    assert Protected(slot)[2..] == Fields(slot) + slot.payload;
  }

  lemma FlippedBody(slot: Slot)
    requires slot.WellFormed()
    ensures Flipped(slot).WellFormed() && SameBody(slot, Flipped(slot))
  {
    hide SameBody, Protected;
    ReplacedTail(slot, slot.crc ^ 0x8000, slot.counter ^ 0xCF, slot.dataId ^ 0x0E);
    SameTail(slot, Flipped(slot));
  }

  lemma FlippedBits(i: nat)
    requires i < 16
    ensures WordBits(0x8000)[i] ==> i == 15
    ensures WordBits(0x0ECF)[i] ==> i < 12
  {
    Masks();
  }

  lemma FlippedBurst(a: Slot, b: Slot)
    requires a.WellFormed() && b.WellFormed() && SameBody(a, b)
    requires XorWord(Header(a), Header(b)) == 0x0ECF && XorWord(a.crc, b.crc) == 0x8000
    ensures InBurst(ImageBits(a), ImageBits(b), 15, 13)
  {
    hide WordBits, Header, BitsOf, Protected, XorWord, Image;
    ImageParts(a);
    ImageParts(b);
    HeaderBits(a);
    HeaderBits(b);
    XorWordBits(Header(a), Header(b));
    XorWordBits(a.crc, b.crc);
    var p, q := ProtectedBits(a), ProtectedBits(b);
    assert forall i :: 16 <= i < 1168 ==> p[i] == p[16..][i - 16] && q[i] == q[16..][i - 16];
    forall i | 0 <= i < 1184 && ImageBits(a)[i] != ImageBits(b)[i] ensures 15 <= i < 28 {
      if i < 16 {
        FlippedBits(i);
      } else if i < 32 {
        FlippedBits(i - 16);
        assert p[i - 16] == p[..16][i - 16] && q[i - 16] == q[..16][i - 16];
      }
    }
  }

  /** Across the boundary 13 consecutive bits, turned over in any valid slot, leave it valid under another counter. */
  lemma BoundaryBurstOf13(valid: Slot, counter: bv8)
    requires valid.WellFormed() && Verdict(valid, counter) == Ok
    ensures var received := Flipped(valid);
      && received.WellFormed() && received != valid && InBurst(ImageBits(valid), ImageBits(received), 15, 13)
      && Verdict(received, received.counter) == Ok
  {
    hide Header, XorWord, ImageBits, ChecksumWord, SameBody, Flipped;
    var received := Flipped(valid);
    FlippedWords(valid);
    FlippedBody(valid);
    FlippedBurst(valid, received);
    assert InBurst(ImageBits(valid), ImageBits(received), 15, 16);
    BurstPassesExactly(valid, received, 15, counter, received.counter);
  }

  // ------------------------------------------------------------------
  // Seventeen bits in the payload
  // ------------------------------------------------------------------

  function XorByte(x: bv8, y: bv8): bv8 {
    x ^ y
  }

  lemma WidenXor(x: bv8, y: bv8)
    ensures XorByte(x, y) as bv16 == XorWord(x as bv16, y as bv16)
  {
  }

  lemma ByteBitsXor(x: bv8, y: bv8)
    ensures ByteBits(XorByte(x, y)) == Xor(ByteBits(x), ByteBits(y))
  {
    hide WordBits, XorWord, XorByte;
    WidenXor(x, y);
    XorWordBits(x as bv16, y as bv16);
  }

  function XorBytes(a: seq<bv8>, b: seq<bv8>): (r: seq<bv8>)
    requires |a| == |b|
    ensures |r| == |a|
  {
    seq(|a|, i requires 0 <= i < |a| => XorByte(a[i], b[i]))
  }

  lemma {:induction false} BitsOfXor(a: seq<bv8>, b: seq<bv8>)
    requires |a| == |b|
    ensures BitsOf(XorBytes(a, b)) == Xor(BitsOf(a), BitsOf(b))
    decreases |a|
  {
    hide ByteBits, XorByte;
    if a != [] {
      assert XorBytes(a, b)[1..] == XorBytes(a[1..], b[1..]);
      ByteBitsXor(a[0], b[0]);
      BitsOfXor(a[1..], b[1..]);
    }
  }

  /** The constant behind a one, as three bytes. */
  const PATTERN: seq<bv8> := [0x0B, 0x00, 0x01]

  lemma PatternBytes()
    ensures ByteBits(0x0B) == [true, true, false, true] + Zeros(4)
    ensures ByteBits(0x00) == Zeros(8)
    ensures ByteBits(0x01) == [true] + Zeros(7)
  {
    Masks();
  }

  lemma PatternBits()
    ensures BitsOf(PATTERN) == [true] + POLY + Zeros(7)
  {
    hide WordBits, ByteBits, BitsOf;
    PatternBytes();
    ConstantBits();
    BitsOfConcat([0x0B], [0x00, 0x01]);
    PairBits(0x00, 0x01);
    assert BitsOf([0x0B]) == ByteBits(0x0B) by { SingleBits(0x0B); }
    assert PATTERN == [0x0B] + [0x00, 0x01];
  }

  lemma SingleBits(b: bv8)
    ensures BitsOf([b]) == ByteBits(b)
  {
    assert [b][1..] == [];
  }

  function NoBytes(n: nat): (z: seq<bv8>)
    ensures |z| == n
  {
    seq(n, _ => 0)
  }

  /** The pattern from byte k of the protected bytes on. */
  function ErrorAt(k: nat): (e: seq<bv8>)
    requires k + 3 <= 146
    ensures |e| == 146
  {
    NoBytes(k) + PATTERN + NoBytes(146 - k - 3)
  }

  lemma ErrorAtBits(k: nat)
    requires k + 3 <= 146
    ensures BitsOf(ErrorAt(k)) == Zeros(8 * k) + ([true] + POLY) + Zeros(1168 - 8 * k - 17)
  {
    hide WordBits, ByteBits, BitsOf;
    PatternBits();
    ZeroBytesBits(NoBytes(k));
    ZeroBytesBits(NoBytes(146 - k - 3));
    BitsOfConcat(NoBytes(k) + PATTERN, NoBytes(146 - k - 3));
    BitsOfConcat(NoBytes(k), PATTERN);
  }

  /** The pattern turned over in the payload from byte k on. */
  function Marked(slot: Slot, k: nat): Slot
    requires slot.WellFormed() && k + 3 <= PAYLOAD_BYTES
  {
    slot.(payload := slot.payload[..k] + XorBytes(slot.payload[k..k + 3], PATTERN) + slot.payload[k + 3..])
  }

  lemma XorNothing(x: bv8)
    ensures XorByte(x, 0) == x && XorByte(x, 1) != x
  {
  }

  lemma MarkedFields(slot: Slot, k: nat)
    requires slot.WellFormed() && k + 3 <= PAYLOAD_BYTES
    ensures var r := Marked(slot, k);
      r.WellFormed() && Protected(r) == Protected(slot)[..18] + r.payload && Protected(slot)[18..] == slot.payload
  {
    hide XorBytes, Le16, Bytes.Word;
    assert Fields(Marked(slot, k)) == Fields(slot);
    hide Fields;
  }

  lemma PatchedAt<T>(p: seq<T>, m: seq<T>, k: nat, i: nat)
    requires k + |m| <= |p| && i < |p|
    ensures (p[..k] + m + p[k + |m|..])[i] == if k <= i < k + |m| then m[i - k] else p[i]
  {
  }

  lemma MarkedPayload(slot: Slot, k: nat, i: nat)
    requires slot.WellFormed() && k + 3 <= PAYLOAD_BYTES && i < PAYLOAD_BYTES
    ensures Marked(slot, k).WellFormed()
    ensures Marked(slot, k).payload[i] == XorByte(slot.payload[i], ErrorAt(k + 18)[i + 18])
  {
    hide XorByte, ErrorAt;
    XorNothing(slot.payload[i]);
    ErrorByte(k + 18, i + 18);
    PatchedAt(slot.payload, XorBytes(slot.payload[k..k + 3], PATTERN), k, i);
  }

  lemma ErrorByte(k: nat, i: nat)
    requires k + 3 <= 146 && i < 146
    ensures ErrorAt(k)[i] == if k <= i < k + 3 then PATTERN[i - k] else 0
  {
  }

  lemma MarkedBytes(slot: Slot, k: nat)
    requires slot.WellFormed() && k + 3 <= PAYLOAD_BYTES
    ensures Marked(slot, k).WellFormed() && Marked(slot, k) != slot
    ensures Protected(Marked(slot, k)) == XorBytes(Protected(slot), ErrorAt(k + 18))
  {
    hide Protected, XorByte, Marked;
    MarkedFields(slot, k);
    var p, q, e := Protected(slot), Protected(Marked(slot, k)), ErrorAt(k + 18);
    MarkedPayload(slot, k, k + 2);
    XorNothing(slot.payload[k + 2]);
    forall i | 0 <= i < 146 ensures q[i] == XorByte(p[i], e[i]) {
      if i >= 18 {
        MarkedPayload(slot, k, i - 18);
        assert p[i] == p[18..][i - 18];
      } else {
        XorNothing(p[i]);
      }
    }
  }

  /** An error of the protected bytes that is a codeword by itself goes unnoticed. */
  lemma CodewordErrorPasses(valid: Slot, received: Slot, error: Bits, counter: bv8)
    requires valid.WellFormed() && received.WellFormed() && Verdict(valid, counter) == Ok
    requires received.crc == valid.crc && received.counter == valid.counter
    requires |error| == 1168 && ProtectedBits(received) == Xor(ProtectedBits(valid), error)
    requires IsCodeword(POLY, error + Zeros(16))
    ensures Verdict(received, counter) == Ok
  {
    hide WordBits, BitsOf, Protected, IsCodeword, ChecksumWord, POLY;
    PassesIsCodeword(valid, counter);
    PassesIsCodeword(received, counter);
    var a, b := SlotBits(valid), SlotBits(received);
    assert Xor(a, b) == error + Zeros(16);
    CodewordMoved(a, b);
  }

  /** A burst of 17 bits in the payload of any valid slot, from the start of any byte, goes unnoticed. */
  lemma PayloadBurstOf17(valid: Slot, counter: bv8, k: nat)
    requires valid.WellFormed() && Verdict(valid, counter) == Ok && k + 3 <= PAYLOAD_BYTES
    ensures var received := Marked(valid, k);
      && received.WellFormed() && received != valid && Verdict(received, counter) == Ok
      && InBurst(ImageBits(valid), ImageBits(received), 8 * (k + 20), 17)
  {
    hide WordBits, BitsOf, Protected, XorBytes, ErrorAt, IsCodeword, ChecksumWord, Image, Verdict;
    var received, error := Marked(valid, k), BitsOf(ErrorAt(k + 18));
    MarkedBytes(valid, k);
    BitsOfXor(Protected(valid), ErrorAt(k + 18));
    ErrorAtBits(k + 18);
    ConstantProperties();
    ConstantIsCodeword(POLY);
    Shifted(POLY, 8 * (k + 18), [true] + POLY, 1184 - 8 * (k + 18) - 17);
    assert error + Zeros(16) == Zeros(8 * (k + 18)) + ([true] + POLY) + Zeros(1184 - 8 * (k + 18) - 17);
    CodewordErrorPasses(valid, received, error, counter);
    ImageParts(valid);
    ImageParts(received);
  }
}
