/**
  The 1168 register steps from the first protected word of a slot to its check field, as a
  linear map on 16-bit words, and the words it moves from below a bit to that bit and above.
 */
module BoundaryMap {
  import opened ShiftRegister
  import opened Crc
  import opened ErrorDetection

  /** Bitwise exclusive or of words. */
  function XorWord(a: bv16, b: bv16): bv16 {
    a ^ b
  }

  function XorWords(a: bv16, b: bv16, c: bv16, d: bv16): bv16 {
    XorWord(XorWord(XorWord(a, b), c), d)
  }

  /** The register after 1168 steps: from the first protected word to the check field. */
  function Carried(x: bv16): bv16 {
    Jump(x, 73)
  }

  lemma CarriedSteps(x: bv16)
    ensures WordBits(Carried(x)) == Steps(POLY, WordBits(x), 1168)
  {
    hide WordBits, Steps, Jump;
    JumpSteps(x, 73);
  }

  lemma XorWordBits(x: bv16, y: bv16)
    ensures WordBits(XorWord(x, y)) == Xor(WordBits(x), WordBits(y))
  {
    hide WordBits;
    WordBitsXor(x, y);
  }

  lemma CarriedXorWord(x: bv16, y: bv16)
    ensures Carried(XorWord(x, y)) == XorWord(Carried(x), Carried(y))
  {
    hide WordBits, Steps, Carried, XorWord, Xor;
    CarriedSteps(x); CarriedSteps(y); CarriedSteps(XorWord(x, y));
    XorWordBits(x, y);
    StepsLinear(POLY, WordBits(x), WordBits(y), 1168);
    XorWordBits(Carried(x), Carried(y));
    WordBitsInjective(Carried(XorWord(x, y)), XorWord(Carried(x), Carried(y)));
  }

  lemma CarriedNext(x: bv16)
    ensures Carried(NextWord(x)) == NextWord(Carried(x))
  {
    hide WordBits, Step, NextWord, Carried;
    var c := WordBits(x);
    StepWord(x);
    StepWord(Carried(x));
    CarriedSteps(x);
    CarriedSteps(NextWord(x));
    StepsAdd(POLY, c, 1, 1168);
    StepsAdd(POLY, c, 1168, 1);
    OneStep(c);
    OneStep(Steps(POLY, c, 1168));
    WordBitsInjective(Carried(NextWord(x)), NextWord(Carried(x)));
  }

  lemma OneStep(c: Reg)
    ensures Steps(POLY, c, 1) == Step(POLY, c)
  {
    hide Step;
    assert Steps(POLY, c, 1) == Steps(POLY, Step(POLY, c), 0);
  }

  lemma NextInjective(x: bv16, y: bv16)
    requires NextWord(x) == NextWord(y)
    ensures x == y
  {
  }

  lemma DoubleNext(m: bv16)
    requires m <= 0x7FFF
    ensures NextWord(m << 1) == m
  {
  }

  /** If m is carried to f, then twice m is carried to the word whose next one is f. */
  lemma Doubled(m: bv16, twice: bv16, f: bv16, g: bv16)
    requires m <= 0x7FFF && twice == m << 1 && Carried(m) == f && NextWord(g) == f
    ensures Carried(twice) == g
  {
    hide Carried, NextWord;
    DoubleNext(m);
    CarriedNext(twice);
    NextInjective(Carried(twice), g);
  }

  lemma Halved(x: bv16, y: bv16, half: bv16, f: bv16)
    requires Carried(x) == y && NextWord(x) == half && NextWord(y) == f
    ensures Carried(half) == f
  {
    hide Carried, NextWord;
    CarriedNext(x);
  }

  lemma Added(a: bv16, b: bv16, f: bv16, g: bv16, sum: bv16, h: bv16)
    requires Carried(a) == f && Carried(b) == g && sum == a ^ b && h == f ^ g
    ensures Carried(sum) == h
  {
    hide Carried;
    CarriedXorWord(a, b);
  }

  /** Where the single bits of the header end up. */
  lemma CarriedLow()
    ensures Carried(0x0001) == 0x6FFD && Carried(0x0002) == 0xDFFA
    ensures Carried(0x0004) == 0xBFFF && Carried(0x0008) == 0x7FF5
    ensures Carried(0x0010) == 0xFFEA && Carried(0x0020) == 0xFFDF
    ensures Carried(0x0040) == 0xFFB5 && Carried(0x0080) == 0xFF61
  {
    hide Carried;
    CarriedOne();
    Doubled(0x0001, 0x0002, 0x6FFD, 0xDFFA);
    Doubled(0x0002, 0x0004, 0xDFFA, 0xBFFF);
    Doubled(0x0004, 0x0008, 0xBFFF, 0x7FF5);
    Doubled(0x0008, 0x0010, 0x7FF5, 0xFFEA);
    Doubled(0x0010, 0x0020, 0xFFEA, 0xFFDF);
    Doubled(0x0020, 0x0040, 0xFFDF, 0xFFB5);
    Doubled(0x0040, 0x0080, 0xFFB5, 0xFF61);
  }

  lemma CarriedMiddle()
    ensures Carried(0x0100) == 0xFEC9 && Carried(0x0200) == 0xFD99
    ensures Carried(0x0400) == 0xFB39 && Carried(0x0800) == 0xF679
  {
    hide Carried;
    CarriedLow();
    Doubled(0x0080, 0x0100, 0xFF61, 0xFEC9);
    Doubled(0x0100, 0x0200, 0xFEC9, 0xFD99);
    Doubled(0x0200, 0x0400, 0xFD99, 0xFB39);
    Doubled(0x0400, 0x0800, 0xFB39, 0xF679);
  }

  lemma CarriedOne()
    ensures Carried(0x0001) == 0x6FFD
  {
    hide Apart, Jump;
    AllApart();
  }

  /** The word that ends up as the last bit of the field. */
  lemma CarriedToTop()
    ensures Carried(0x0ECF) == 0x8000
  {
    hide Carried;
    CarriedLow();
    CarriedMiddle();
    Added(0x0001, 0x0002, 0x6FFD, 0xDFFA, 0x0003, 0xB007);
    Added(0x0003, 0x0004, 0xB007, 0xBFFF, 0x0007, 0x0FF8);
    Added(0x0007, 0x0008, 0x0FF8, 0x7FF5, 0x000F, 0x700D);
    Added(0x000F, 0x0040, 0x700D, 0xFFB5, 0x004F, 0x8FB8);
    Added(0x004F, 0x0080, 0x8FB8, 0xFF61, 0x00CF, 0x70D9);
    Added(0x00CF, 0x0200, 0x70D9, 0xFD99, 0x02CF, 0x8D40);
    Added(0x02CF, 0x0400, 0x8D40, 0xFB39, 0x06CF, 0x7679);
    Added(0x06CF, 0x0800, 0x7679, 0xF679, 0x0ECF, 0x8000);
  }

  /** The words that end up as the single bits of the field's second byte. */
  lemma CarriedToHigh()
    ensures Carried(0x3A1C) == 0x0100 && Carried(0x7438) == 0x0200
    ensures Carried(0xE870) == 0x0400 && Carried(0xD0EB) == 0x0800
    ensures Carried(0xA1DD) == 0x1000 && Carried(0x43B1) == 0x2000
    ensures Carried(0x8762) == 0x4000 && Carried(0x0ECF) == 0x8000
  {
    hide Carried;
    CarriedToTop();
    Halved(0x0ECF, 0x8000, 0x8762, 0x4000);
    Halved(0x8762, 0x4000, 0x43B1, 0x2000);
    Halved(0x43B1, 0x2000, 0xA1DD, 0x1000);
    Halved(0xA1DD, 0x1000, 0xD0EB, 0x0800);
    Halved(0xD0EB, 0x0800, 0xE870, 0x0400);
    Halved(0xE870, 0x0400, 0x7438, 0x0200);
    Halved(0x7438, 0x0200, 0x3A1C, 0x0100);
  }

  // ------------------------------------------------------------------
  // Closed forms, from the low byte and to the high byte
  // ------------------------------------------------------------------

  function Pick(x: bv16, m: bv16, v: bv16): bv16 {
    if x & m != 0 then v else 0
  }

  function Octet(a: bv16, b: bv16, c: bv16, d: bv16, e: bv16, f: bv16, g: bv16, h: bv16): bv16 {
    XorWord(XorWords(a, b, c, d), XorWords(e, f, g, h))
  }

  /** Where a word without bits from 0x0100 on is carried. */
  function Front(x: bv16): bv16 {
    Octet(Pick(x, 0x0001, 0x6FFD), Pick(x, 0x0002, 0xDFFA), Pick(x, 0x0004, 0xBFFF), Pick(x, 0x0008, 0x7FF5),
          Pick(x, 0x0010, 0xFFEA), Pick(x, 0x0020, 0xFFDF), Pick(x, 0x0040, 0xFFB5), Pick(x, 0x0080, 0xFF61))
  }

  /** The word that is carried to a given word without bits below 0x0100. */
  function Back(y: bv16): bv16 {
    Octet(Pick(y, 0x0100, 0x3A1C), Pick(y, 0x0200, 0x7438), Pick(y, 0x0400, 0xE870), Pick(y, 0x0800, 0xD0EB),
          Pick(y, 0x1000, 0xA1DD), Pick(y, 0x2000, 0x43B1), Pick(y, 0x4000, 0x8762), Pick(y, 0x8000, 0x0ECF))
  }

  lemma CarriedZero()
    ensures Carried(0) == 0
  {
    hide Carried;
    CarriedXorWord(0, 0);
    assert Carried(0) == Carried(0) ^ Carried(0);
  }

  lemma CarriedPick(x: bv16, m: bv16, v: bv16, w: bv16)
    requires Carried(v) == w
    ensures Carried(Pick(x, m, v)) == Pick(x, m, w)
  {
    hide Carried;
    CarriedZero();
  }

  lemma CarriedXorWords(a: bv16, b: bv16, c: bv16, d: bv16)
    ensures Carried(XorWords(a, b, c, d)) == XorWords(Carried(a), Carried(b), Carried(c), Carried(d))
  {
    hide Carried, XorWord;
    CarriedXorWord(a, b);
    CarriedXorWord(XorWord(a, b), c);
    CarriedXorWord(XorWord(XorWord(a, b), c), d);
  }

  lemma CarriedOctet(a: bv16, b: bv16, c: bv16, d: bv16, e: bv16, f: bv16, g: bv16, h: bv16)
    ensures Carried(Octet(a, b, c, d, e, f, g, h))
            == Octet(Carried(a), Carried(b), Carried(c), Carried(d), Carried(e), Carried(f), Carried(g), Carried(h))
  {
    hide Carried, XorWord, XorWords;
    CarriedXorWords(a, b, c, d);
    CarriedXorWords(e, f, g, h);
    CarriedXorWord(XorWords(a, b, c, d), XorWords(e, f, g, h));
  }

  lemma LowByteOnly(x: bv16)
    requires x & 0xFF00 == 0
    ensures Octet(Pick(x, 0x0001, 0x0001), Pick(x, 0x0002, 0x0002), Pick(x, 0x0004, 0x0004), Pick(x, 0x0008, 0x0008),
                  Pick(x, 0x0010, 0x0010), Pick(x, 0x0020, 0x0020), Pick(x, 0x0040, 0x0040), Pick(x, 0x0080, 0x0080))
            == x
  {
  }

  lemma HighByteOnly(y: bv16)
    requires y & 0x00FF == 0
    ensures Octet(Pick(y, 0x0100, 0x0100), Pick(y, 0x0200, 0x0200), Pick(y, 0x0400, 0x0400), Pick(y, 0x0800, 0x0800),
                  Pick(y, 0x1000, 0x1000), Pick(y, 0x2000, 0x2000), Pick(y, 0x4000, 0x4000), Pick(y, 0x8000, 0x8000))
            == y
  {
  }

  lemma CarriedFront(x: bv16)
    requires x & 0xFF00 == 0
    ensures Carried(x) == Front(x)
  {
    hide Carried, Octet, Pick;
    CarriedLow();
    CarriedPick(x, 0x0001, 0x0001, 0x6FFD);
    CarriedPick(x, 0x0002, 0x0002, 0xDFFA);
    CarriedPick(x, 0x0004, 0x0004, 0xBFFF);
    CarriedPick(x, 0x0008, 0x0008, 0x7FF5);
    CarriedPick(x, 0x0010, 0x0010, 0xFFEA);
    CarriedPick(x, 0x0020, 0x0020, 0xFFDF);
    CarriedPick(x, 0x0040, 0x0040, 0xFFB5);
    CarriedPick(x, 0x0080, 0x0080, 0xFF61);
    CarriedOctet(Pick(x, 0x0001, 0x0001), Pick(x, 0x0002, 0x0002), Pick(x, 0x0004, 0x0004), Pick(x, 0x0008, 0x0008),
                 Pick(x, 0x0010, 0x0010), Pick(x, 0x0020, 0x0020), Pick(x, 0x0040, 0x0040), Pick(x, 0x0080, 0x0080));
    LowByteOnly(x);
  }

  lemma CarriedBack(y: bv16)
    requires y & 0x00FF == 0
    ensures Carried(Back(y)) == y
  {
    hide Carried, Octet, Pick;
    CarriedToHigh();
    CarriedPick(y, 0x0100, 0x3A1C, 0x0100);
    CarriedPick(y, 0x0200, 0x7438, 0x0200);
    CarriedPick(y, 0x0400, 0xE870, 0x0400);
    CarriedPick(y, 0x0800, 0xD0EB, 0x0800);
    CarriedPick(y, 0x1000, 0xA1DD, 0x1000);
    CarriedPick(y, 0x2000, 0x43B1, 0x2000);
    CarriedPick(y, 0x4000, 0x8762, 0x4000);
    CarriedPick(y, 0x8000, 0x0ECF, 0x8000);
    CarriedOctet(Pick(y, 0x0100, 0x3A1C), Pick(y, 0x0200, 0x7438), Pick(y, 0x0400, 0xE870), Pick(y, 0x0800, 0xD0EB),
                 Pick(y, 0x1000, 0xA1DD), Pick(y, 0x2000, 0x43B1), Pick(y, 0x4000, 0x8762), Pick(y, 0x8000, 0x0ECF));
    HighByteOnly(y);
  }

  lemma CarriedInjective(x: bv16, y: bv16)
    requires Carried(x) == Carried(y)
    ensures x == y
  {
    hide WordBits, Steps, Carried;
    ConstantProperties();
    CarriedSteps(x);
    CarriedSteps(y);
    StepsInjective(POLY, WordBits(x), WordBits(y), 1168);
    WordBitsInjective(x, y);
  }

  // ------------------------------------------------------------------
  // The seven patterns
  // ------------------------------------------------------------------

  /** The error patterns across the boundary that the checksum does not see, in header and field. */
  predicate Unseen(header: bv16, crc: bv16) {
    || (header == 0x0007 && crc == 0x0FF8) || (header == 0x000E && crc == 0x1FF0)
    || (header == 0x001C && crc == 0x3FE0) || (header == 0x0038 && crc == 0x7FC0)
    || (header == 0x0070 && crc == 0xFF80) || (header == 0x01DD && crc == 0xAE00)
    || (header == 0x0ECF && crc == 0x8000)
  }

  /** Each changes the header's low byte, the sequence counter, and the field. */
  lemma UnseenChanges(x: bv16, y: bv16)
    requires Unseen(x, y)
    ensures x & 0x00FF != 0 && x != 0 && y != 0
  {
  }

  lemma UnseenSmall()
    ensures Carried(0x0070) == 0xFF80 && Carried(0x0038) == 0x7FC0 && Carried(0x001C) == 0x3FE0
    ensures Carried(0x000E) == 0x1FF0 && Carried(0x0007) == 0x0FF8
  {
    hide Carried;
    CarriedLow();
    Added(0x0010, 0x0020, 0xFFEA, 0xFFDF, 0x0030, 0x0035);
    Added(0x0030, 0x0040, 0x0035, 0xFFB5, 0x0070, 0xFF80);
    Halved(0x0070, 0xFF80, 0x0038, 0x7FC0);
    Halved(0x0038, 0x7FC0, 0x001C, 0x3FE0);
    Halved(0x001C, 0x3FE0, 0x000E, 0x1FF0);
    Halved(0x000E, 0x1FF0, 0x0007, 0x0FF8);
  }

  lemma UnseenLarge()
    ensures Carried(0x01DD) == 0xAE00
  {
    hide Carried;
    CarriedLow();
    CarriedMiddle();
    Added(0x0001, 0x0004, 0x6FFD, 0xBFFF, 0x0005, 0xD002);
    Added(0x0005, 0x0008, 0xD002, 0x7FF5, 0x000D, 0xAFF7);
    Added(0x000D, 0x0010, 0xAFF7, 0xFFEA, 0x001D, 0x501D);
    Added(0x001D, 0x0040, 0x501D, 0xFFB5, 0x005D, 0xAFA8);
    Added(0x005D, 0x0080, 0xAFA8, 0xFF61, 0x00DD, 0x50C9);
    Added(0x00DD, 0x0100, 0x50C9, 0xFEC9, 0x01DD, 0xAE00);
  }

  lemma UnseenCarried(x: bv16, y: bv16)
    requires Unseen(x, y)
    ensures Carried(x) == y
  {
    hide Carried;
    UnseenSmall();
    UnseenLarge();
    CarriedToTop();
  }

  /** x lies below the single bit m, and y has nothing below it. */
  predicate Split(x: bv16, y: bv16, m: bv16) {
    m != 0 && m & (m - 1) == 0 && x < m && y & (m - 1) == 0
  }

  lemma FrontLow(x: bv16, y: bv16, m: bv16)
    requires Split(x, y, m) && Front(x) == y && m <= 0x0100
    ensures Unseen(x, y) || (x == 0 && y == 0)
  {
  }

  lemma BackHigh(x: bv16, y: bv16, m: bv16)
    requires Split(x, y, m) && Back(y) == x && 0x0100 < m
    ensures Unseen(x, y) || (x == 0 && y == 0)
  {
  }

  lemma SplitBytes(x: bv16, y: bv16, m: bv16)
    requires Split(x, y, m)
    ensures m <= 0x0100 ==> x & 0xFF00 == 0
    ensures 0x0100 < m ==> y & 0x00FF == 0
  {
  }

  /** Exactly the listed patterns are carried from below a bit of the header to that bit and above in the field. */
  lemma CarriedIsUnseen(x: bv16, y: bv16, m: bv16)
    requires Split(x, y, m) && !(x == 0 && y == 0)
    ensures Carried(x) == y <==> Unseen(x, y)
  {
    hide Split, Front, Back, Unseen, Carried;
    SplitBytes(x, y, m);
    if Unseen(x, y) {
      UnseenCarried(x, y);
    } else if Carried(x) == y {
      if m <= 0x0100 {
        CarriedFront(x);
        FrontLow(x, y, m);
      } else {
        CarriedBack(y);
        CarriedInjective(x, Back(y));
        BackHigh(x, y, m);
      }
    }
  }
}
