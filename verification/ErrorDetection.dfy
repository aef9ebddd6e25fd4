/**
  What the checksum of src/IpcBridge.cpp detects.

  A message followed by its own checksum is a codeword; codewords are exactly the
  bit strings that leave the register at zero.  Errors are then bit strings
  added to a codeword, and an error goes unnoticed only when it is itself a
  codeword.
 */
module ErrorDetection {
  import opened ShiftRegister
  import opened Crc

  // ------------------------------------------------------------------
  // Weight, distance and parity
  // ------------------------------------------------------------------

  function Weight(bits: Bits): nat {
    if bits == [] then 0 else (if bits[0] then 1 else 0) + Weight(bits[1..])
  }

  /** The number of positions where two bit strings differ. */
  function Distance(a: Bits, b: Bits): nat
    requires |a| == |b|
  {
    Weight(Xor(a, b))
  }

  predicate Odd(bits: Bits) {
    Weight(bits) % 2 == 1
  }

  lemma {:induction false} WeightConcat(a: Bits, b: Bits)
    ensures Weight(a + b) == Weight(a) + Weight(b)
    decreases |a|
  {
    if a == [] {
      assert a + b == b;
    } else {
      assert (a + b)[1..] == a[1..] + b;
      WeightConcat(a[1..], b);
    }
  }

  lemma {:induction false} WeightZeros(n: nat)
    ensures Weight(Zeros(n)) == 0
    decreases n
  {
    if n != 0 {
      assert Zeros(n)[1..] == Zeros(n - 1);
      WeightZeros(n - 1);
    }
  }

  lemma {:induction false} OddXor(a: Bits, b: Bits)
    requires |a| == |b|
    ensures Odd(Xor(a, b)) == (Odd(a) != Odd(b))
    decreases |a|
  {
    if a != [] {
      assert Xor(a, b)[1..] == Xor(a[1..], b[1..]);
      OddXor(a[1..], b[1..]);
    }
  }

  // ------------------------------------------------------------------
  // Parity: a feedback constant of odd weight keeps the parity of everything fed in
  // ------------------------------------------------------------------

  lemma StepParity(poly: Reg, c: Reg)
    requires Odd(poly)
    ensures Odd(Step(poly, c)) == Odd(c)
  {
    var shifted := c[1..] + [false];
    WeightConcat(c[1..], [false]);
    assert Weight([false]) == 0;
    if c[0] {
      OddXor(shifted, poly);
      assert Step(poly, c) == Xor(shifted, poly);
    }
  }

  lemma FlipParity(c: Reg, bit: bool)
    ensures Odd(c[0 := c[0] != bit]) == (Odd(c) != bit)
  {
    assert c[0 := c[0] != bit][1..] == c[1..];
  }

  lemma {:induction false} SerialParity(poly: Reg, c: Reg, bits: Bits)
    requires Odd(poly)
    ensures Odd(Serial(poly, c, bits)) == (Odd(c) != Odd(bits))
    decreases |bits|
  {
    if bits != [] {
      FlipParity(c, bits[0]);
      StepParity(poly, c[0 := c[0] != bits[0]]);
      SerialParity(poly, Feed(poly, c, bits[0]), bits[1..]);
    }
  }

  // ------------------------------------------------------------------
  // Invertibility: a constant with its top bit set loses nothing
  // ------------------------------------------------------------------

  lemma StepToZero(poly: Reg, c: Reg)
    requires poly[15] && Step(poly, c) == Zeros(16)
    ensures c == Zeros(16)
  {
    var next := Step(poly, c);
    assert !next[15];
    forall i | 0 <= i < 16 ensures !c[i] {
      if i > 0 { assert !next[i - 1]; }
    }
  }

  lemma {:induction false} StepsToZero(poly: Reg, c: Reg, n: nat)
    requires poly[15] && Steps(poly, c, n) == Zeros(16)
    ensures c == Zeros(16)
    decreases n
  {
    if n != 0 {
      StepsToZero(poly, Step(poly, c), n - 1);
      StepToZero(poly, c);
    }
  }

  lemma StepsInjective(poly: Reg, c: Reg, d: Reg, n: nat)
    requires poly[15] && Steps(poly, c, n) == Steps(poly, d, n)
    ensures c == d
  {
    StepsLinear(poly, c, d, n);
    XorZero(Steps(poly, c, n));
    StepsToZero(poly, Xor(c, d), n);
    XorCancel(c, d);
  }

  // ------------------------------------------------------------------
  // Codewords
  // ------------------------------------------------------------------

  ghost predicate IsCodeword(poly: Reg, word: Bits) {
    Serial(poly, Zeros(16), word) == Zeros(16)
  }

  /** A message followed by a 16-bit check field is a codeword exactly when the field is the checksum. */
  lemma Residue(poly: Reg, message: Bits, check: Reg)
    requires poly[15]
    ensures IsCodeword(poly, message + check) <==> Serial(poly, Zeros(16), message) == check
  {
    var sum := Serial(poly, Zeros(16), message);
    SerialConcat(poly, Zeros(16), message, check);
    SerialIsSteps(poly, sum, check);
    assert Pad(check) == check;
    if sum == check {
      XorZero(sum);
      StepsOfZero(poly, 16);
    } else if IsCodeword(poly, message + check) {
      StepsToZero(poly, Xor(sum, check), 16);
      XorCancel(sum, check);
    }
  }

  /** The exclusive or of two codewords is a codeword. */
  lemma ErrorIsCodeword(poly: Reg, a: Bits, b: Bits)
    requires |a| == |b| && IsCodeword(poly, a) && IsCodeword(poly, b)
    ensures IsCodeword(poly, Xor(a, b))
  {
    SerialLinear(poly, Zeros(16), Zeros(16), a, b);
    XorZero(Zeros(16));
  }

  // ------------------------------------------------------------------
  // Parity theorem
  // ------------------------------------------------------------------

  /** Two codewords never differ in an odd number of bits. */
  lemma OddErrorsDetected(poly: Reg, a: Bits, b: Bits)
    requires Odd(poly) && |a| == |b| && IsCodeword(poly, a) && IsCodeword(poly, b)
    ensures Distance(a, b) % 2 == 0
  {
    ErrorIsCodeword(poly, a, b);
    SerialParity(poly, Zeros(16), Xor(a, b));
    WeightZeros(16);
  }

  // ------------------------------------------------------------------
  // Burst theorem
  // ------------------------------------------------------------------

  /** All differences lie in the n consecutive bits from lo on. */
  ghost predicate InBurst(a: Bits, b: Bits, lo: nat, n: nat)
    requires |a| == |b|
  {
    forall i :: 0 <= i < |a| && a[i] != b[i] ==> lo <= i < lo + n
  }

  /** Two codewords that differ only inside a window of 16 consecutive bits are equal. */
  lemma BurstDetected(poly: Reg, a: Bits, b: Bits, lo: nat)
    requires poly[15] && |a| == |b| && IsCodeword(poly, a) && IsCodeword(poly, b)
    requires InBurst(a, b, lo, 16)
    ensures a == b
  {
    var d := Xor(a, b);
    ErrorIsCodeword(poly, a, b);
    if lo < |d| {
      var hi := if lo + 16 <= |d| then lo + 16 else |d|;
      assert d == Zeros(lo) + d[lo..hi] + Zeros(|d| - hi);
      BurstIsZero(poly, lo, d[lo..hi], |d| - hi);
      XorCancel(a, b);
    } else {
      XorCancel(a, b);
    }
  }

  lemma BurstIsZero(poly: Reg, before: nat, window: Bits, after: nat)
    requires poly[15] && |window| <= 16
    requires IsCodeword(poly, Zeros(before) + window + Zeros(after))
    ensures window == Zeros(|window|)
  {
    var z := Zeros(16);
    SerialConcat(poly, z, Zeros(before) + window, Zeros(after));
    SerialConcat(poly, z, Zeros(before), window);
    SerialZeros(poly, z, before);
    StepsOfZero(poly, before);
    SerialZeros(poly, Serial(poly, z, window), after);
    StepsToZero(poly, Serial(poly, z, window), after);
    SerialIsSteps(poly, z, window);
    XorZero(Pad(window));
    StepsToZero(poly, Pad(window), |window|);
    assert forall i :: 0 <= i < |window| ==> window[i] == Pad(window)[i];
  }

  lemma Shifted(poly: Reg, before: nat, window: Bits, after: nat)
    requires IsCodeword(poly, window)
    ensures IsCodeword(poly, Zeros(before) + window + Zeros(after))
  {
    var z := Zeros(16);
    SerialConcat(poly, z, Zeros(before) + window, Zeros(after));
    SerialConcat(poly, z, Zeros(before), window);
    SerialZeros(poly, z, before);
    StepsOfZero(poly, before);
    SerialZeros(poly, z, after);
    StepsOfZero(poly, after);
  }

  /** The constant behind a one is a codeword of 17 bits. */
  lemma ConstantIsCodeword(poly: Reg)
    requires poly[15]
    ensures IsCodeword(poly, [true] + poly)
  {
    LastOne(poly);
    Residue(poly, [true], poly);
  }

  /** A window of 17 bits is not enough: the one error of that length to go unnoticed is the constant behind a one. */
  lemma Burst17Exact(poly: Reg, before: nat, window: Bits, after: nat)
    requires poly[15] && |window| == 17 && window[0]
    ensures IsCodeword(poly, Zeros(before) + window + Zeros(after)) <==> window == [true] + poly
  {
    hide IsCodeword;
    ConstantIsCodeword(poly);
    Shifted(poly, before, [true] + poly, after);
    var error, codeword := Zeros(before) + window + Zeros(after), Zeros(before) + ([true] + poly) + Zeros(after);
    if IsCodeword(poly, error) {
      assert error[before] && codeword[before];
      BurstDetected(poly, error, codeword, before + 1);
      assert window == error[before..before + 17] == codeword[before..before + 17];
    }
  }

  // ------------------------------------------------------------------
  // Two errors: the register started at one does not return to one too soon
  // ------------------------------------------------------------------

  lemma SerialUnit(poly: Reg, n: nat, i: nat)
    requires i < n
    ensures Serial(poly, Zeros(16), Unit(n, i)) == Steps(poly, ONE, n - i)
  {
    var z := Zeros(16);
    SerialConcat(poly, z, Zeros(i) + [true], Zeros(n - i - 1));
    SerialConcat(poly, z, Zeros(i), [true]);
    SerialZeros(poly, z, i);
    StepsOfZero(poly, i);
    FeedOne(poly);
    SerialZeros(poly, Step(poly, ONE), n - i - 1);
  }

  lemma FeedOne(poly: Reg)
    ensures Serial(poly, Zeros(16), [true]) == Step(poly, ONE)
  {
    assert [true][1..] == [];
    assert Zeros(16)[0 := Zeros(16)[0] != true] == ONE;
  }

  /** A codeword of weight two would bring the register back to one. */
  lemma TwoErrorsReturn(poly: Reg, n: nat, i: nat, j: nat)
    requires poly[15] && i < j < n && IsCodeword(poly, Xor(Unit(n, i), Unit(n, j)))
    ensures Steps(poly, ONE, j - i) == ONE
  {
    hide Serial, Steps, Step, Unit, Zeros, Xor;
    SerialLinear(poly, Zeros(16), Zeros(16), Unit(n, i), Unit(n, j));
    XorZero(Zeros(16));
    SerialUnit(poly, n, i);
    SerialUnit(poly, n, j);
    XorCancel(Steps(poly, ONE, n - i), Steps(poly, ONE, n - j));
    StepsAdd(poly, ONE, j - i, n - j);
    StepsInjective(poly, Steps(poly, ONE, j - i), ONE, n - j);
  }

  /** Sixteen register steps on words. */
  function Sixteen(c: bv16): bv16 {
    NextWord(NextWord(NextWord(NextWord(NextWord(NextWord(NextWord(NextWord(
    NextWord(NextWord(NextWord(NextWord(NextWord(NextWord(NextWord(NextWord(c))))))))))))))))
  }

  function Jump(c: bv16, n: nat): bv16
    decreases n
  {
    if n == 0 then c else Jump(Sixteen(c), n - 1)
  }

  /** None of the next n values, sixteen steps apart, has a single bit set. */
  predicate Apart(c: bv16, n: nat)
    decreases n
  {
    n == 0 || (Sixteen(c) & (Sixteen(c) - 1) != 0 && Apart(Sixteen(c), n - 1))
  }

  lemma Checkpoints0()
    ensures Apart(0x0001, 10) && Jump(0x0001, 10) == 0xA6B9
  {
  }

  lemma Checkpoints10()
    ensures Apart(0xA6B9, 10) && Jump(0xA6B9, 10) == 0xA9CB
  {
  }

  lemma Checkpoints20()
    ensures Apart(0xA9CB, 10) && Jump(0xA9CB, 10) == 0x284F
  {
  }

  lemma Checkpoints30()
    ensures Apart(0x284F, 10) && Jump(0x284F, 10) == 0xBE98
  {
  }

  lemma Checkpoints40()
    ensures Apart(0xBE98, 10) && Jump(0xBE98, 10) == 0xEBDC
  {
  }

  lemma Checkpoints50()
    ensures Apart(0xEBDC, 10) && Jump(0xEBDC, 10) == 0x3E95
  {
  }

  lemma Checkpoints60()
    ensures Apart(0x3E95, 10) && Jump(0x3E95, 10) == 0x0D6A
  {
  }

  lemma Checkpoints70()
    ensures Apart(0x0D6A, 3) && Jump(0x0D6A, 3) == 0x6FFD
  {
  }

  lemma {:induction false} ApartJoin(c: bv16, m: nat, n: nat)
    requires Apart(c, m) && Apart(Jump(c, m), n)
    ensures Apart(c, m + n) && Jump(c, m + n) == Jump(Jump(c, m), n)
    decreases m
  {
    if m != 0 {
      ApartJoin(Sixteen(c), m - 1, n);
    }
  }

  lemma AllApart()
    ensures Apart(1, 73) && Jump(1, 73) == 0x6FFD
  {
    hide Apart, Jump;
    Checkpoints0();
    Checkpoints10();
    Checkpoints20();
    Checkpoints30();
    Checkpoints40();
    Checkpoints50();
    Checkpoints60();
    Checkpoints70();
    ApartJoin(1, 10, 10);
    ApartJoin(1, 20, 10);
    ApartJoin(1, 30, 10);
    ApartJoin(1, 40, 10);
    ApartJoin(1, 50, 10);
    ApartJoin(1, 60, 10);
    ApartJoin(1, 70, 3);
  }

  lemma {:induction false} ApartAt(c: bv16, n: nat, a: nat)
    requires Apart(c, n) && 1 <= a <= n
    ensures Jump(c, a) & (Jump(c, a) - 1) != 0
    decreases n
  {
    hide Sixteen;
    if a == 1 {
      assert Jump(Sixteen(c), 0) == Sixteen(c);
    } else {
      ApartAt(Sixteen(c), n - 1, a - 1);
    }
  }

  lemma SixteenSteps(c: bv16)
    ensures WordBits(Sixteen(c)) == Steps(POLY, WordBits(c), 16)
  {
    hide WordBits, NextWord, Step;
    var c4 := NextWord(NextWord(NextWord(NextWord(c))));
    var c8 := NextWord(NextWord(NextWord(NextWord(c4))));
    var c12 := NextWord(NextWord(NextWord(NextWord(c8))));
    FourSteps(c); FourSteps(c4); FourSteps(c8); FourSteps(c12);
    StepsAdd(POLY, WordBits(c), 4, 4);
    StepsAdd(POLY, WordBits(c), 8, 4);
    StepsAdd(POLY, WordBits(c), 12, 4);
  }

  lemma FourSteps(c: bv16)
    ensures WordBits(NextWord(NextWord(NextWord(NextWord(c))))) == Steps(POLY, WordBits(c), 4)
  {
    hide WordBits, NextWord, Step;
    var c1 := NextWord(c); var c2 := NextWord(c1); var c3 := NextWord(c2);
    StepWord(c); StepWord(c1); StepWord(c2); StepWord(c3);
    var w := WordBits(c);
    assert Steps(POLY, w, 4) == Steps(POLY, Step(POLY, w), 3);
    assert Steps(POLY, WordBits(c1), 3) == Steps(POLY, WordBits(c2), 2);
    assert Steps(POLY, WordBits(c2), 2) == Steps(POLY, WordBits(c3), 1);
    assert Steps(POLY, WordBits(c3), 1) == Steps(POLY, WordBits(NextWord(c3)), 0);
  }

  lemma {:induction false} JumpSteps(c: bv16, n: nat)
    ensures WordBits(Jump(c, n)) == Steps(POLY, WordBits(c), 16 * n)
    decreases n
  {
    hide WordBits, Sixteen;
    if n != 0 {
      SixteenSteps(c);
      JumpSteps(Sixteen(c), n - 1);
      StepsAdd(POLY, WordBits(c), 16, 16 * (n - 1));
    }
  }

  lemma UnitReachesOne(poly: Reg, r: nat)
    requires r < 16
    ensures Steps(poly, Unit(16, r), r) == ONE
  {
    assert Unit(16, r)[..r] == Zeros(r);
    ShiftOnly(poly, Unit(16, r), r);
  }

  /** Returning to one after k steps means one bit is set at the last multiple of sixteen. */
  lemma ReturnIsSingleBit(poly: Reg, k: nat)
    requires poly[15] && Steps(poly, ONE, k) == ONE
    ensures Steps(poly, ONE, 16 * (k / 16)) == Unit(16, k % 16)
  {
    hide Steps, Unit, Step;
    var a, r := k / 16, k % 16;
    StepsAdd(poly, ONE, 16 * a, r);
    UnitReachesOne(poly, r);
    StepsInjective(poly, Steps(poly, ONE, 16 * a), Unit(16, r), r);
  }

  lemma NoReturnWithin16(poly: Reg, k: nat)
    requires poly[15] && 1 <= k < 16
    ensures Steps(poly, ONE, k) != ONE
  {
    assert !Unit(16, k)[0] && Unit(16, 0)[0] && ONE[0];
    if Steps(poly, ONE, k) == ONE {
      ReturnIsSingleBit(poly, k);
      assert false;
    }
  }

  /** With the constant 0x8005 the register needs more than 1183 steps to come back to one. */
  lemma NoEarlyReturn(k: nat)
    requires 1 <= k <= 1183
    ensures Steps(POLY, ONE, k) != ONE
  {
    hide WordBits, Steps, Step, Mask, Sixteen, Apart;
    var a, r := k / 16, k % 16;
    ConstantProperties();
    if a == 0 {
      NoReturnWithin16(POLY, k);
    } else if Steps(POLY, ONE, k) == ONE {
      ReturnIsSingleBit(POLY, k);
      OneBits();
      JumpSteps(1, a);
      MaskBits(r);
      WordBitsInjective(Jump(1, a), Mask(r));
      MaskIsOneBit(r);
      AllApart();
      ApartAt(1, 73, a);
      assert false;
    }
  }

  lemma ConstantWeight()
    ensures Odd([true, false, true] + Zeros(12) + [true])
  {
    WeightConcat([true, false, true] + Zeros(12), [true]);
    WeightConcat([true, false, true], Zeros(12));
    WeightZeros(12);
    assert Weight([true]) == 1 && Weight([true, false, true]) == 2;
  }

  lemma ConstantProperties()
    ensures POLY[15] && Odd(POLY)
  {
    hide WordBits, Odd;
    ConstantBits();
    ConstantWeight();
  }

  lemma ConstantBits()
    ensures POLY == [true, false, true] + Zeros(12) + [true]
  {
    Masks();
    var p := WordBits(0x8005);
    assert p[0] && !p[1] && p[2] && !p[3] && !p[4] && !p[5] && !p[6] && !p[7];
    assert !p[8] && !p[9] && !p[10] && !p[11] && !p[12] && !p[13] && !p[14] && p[15];
  }

  // ------------------------------------------------------------------
  // Minimum distance
  // ------------------------------------------------------------------

  lemma {:induction false} WeightZeroIsZeros(d: Bits)
    requires Weight(d) == 0
    ensures d == Zeros(|d|)
    decreases |d|
  {
    if d != [] {
      WeightZeroIsZeros(d[1..]);
      assert d == [false] + d[1..];
    }
  }

  lemma {:induction false} FirstOne(d: Bits) returns (i: nat)
    requires Weight(d) > 0
    ensures i < |d| && d == Zeros(i) + [true] + d[i + 1..] && Weight(d[i + 1..]) == Weight(d) - 1
    decreases |d|
  {
    if d[0] {
      i := 0;
      assert d == [true] + d[1..];
    } else {
      var k := FirstOne(d[1..]);
      i := k + 1;
      hide Weight;
      assert d[1..][k + 1..] == d[i + 1..];
      OneLater(d, k);
    }
  }

  lemma OneLater(d: Bits, k: nat)
    requires k + 1 < |d| && !d[0] && d[1..] == Zeros(k) + [true] + d[k + 2..]
    ensures d == Zeros(k + 1) + [true] + d[k + 2..]
  {
    forall j | 0 <= j < |d| ensures d[j] == (Zeros(k + 1) + [true] + d[k + 2..])[j] {
      if j > 0 { assert d[j] == d[1..][j - 1]; }
    }
  }

  lemma WeightTwo(d: Bits) returns (i: nat, j: nat)
    requires Weight(d) == 2
    ensures i < j < |d| && d == Xor(Unit(|d|, i), Unit(|d|, j))
  {
    i := FirstOne(d);
    var rest := d[i + 1..];
    var k := FirstOne(rest);
    j := i + 1 + k;
    WeightZeroIsZeros(rest[k + 1..]);
    assert d == Zeros(i) + [true] + Zeros(k) + [true] + Zeros(|rest| - k - 1);
  }

  /** Codewords of at most 1184 bits that differ at all differ in at least four bits. */
  lemma MinimumDistance(a: Bits, b: Bits)
    requires |a| == |b| <= 1184 && IsCodeword(POLY, a) && IsCodeword(POLY, b) && a != b
    ensures Distance(a, b) >= 4
  {
    hide Serial, Xor, Steps, WordBits, Unit;
    var d := Xor(a, b);
    ConstantProperties();
    ErrorIsCodeword(POLY, a, b);
    OddErrorsDetected(POLY, a, b);
    if Weight(d) == 0 {
      WeightZeroIsZeros(d);
      XorCancel(a, b);
    } else if Weight(d) == 2 {
      var i, j := WeightTwo(d);
      TwoErrorsReturn(POLY, |d|, i, j);
      NoEarlyReturn(j - i);
    }
  }
}
