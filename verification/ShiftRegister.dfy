/**
  Bit strings, and the shift register behind the end-to-end checksum.

  A register is a string of 16 bits, least significant first.  The reference
  definition of a checksum, `Serial`, feeds a message into the register one bit
  at a time.  Everything here holds for any feedback constant.
 */
module ShiftRegister {

  type Bits = seq<bool>

  /** Bit i of the register has weight 2 to the power i. */
  type Reg = r: Bits | |r| == 16 witness seq(16, _ => false)

  function Zeros(n: nat): (z: Bits)
    ensures |z| == n && forall i :: 0 <= i < n ==> !z[i]
  {
    seq(n, _ => false)
  }

  /** The string of length n whose only one is at position i. */
  function Unit(n: nat, i: nat): (u: Bits)
    requires i < n
    ensures |u| == n && forall k :: 0 <= k < n ==> u[k] == (k == i)
  {
    Zeros(i) + [true] + Zeros(n - i - 1)
  }

  const ONE: Reg := [true] + Zeros(15)

  function Xor(a: Bits, b: Bits): (r: Bits)
    requires |a| == |b|
    ensures |r| == |a|
    ensures forall i :: 0 <= i < |r| ==> r[i] == (a[i] != b[i])
  {
    seq(|a|, i requires 0 <= i < |a| => a[i] != b[i])
  }

  /** One right shift of the register; the feedback constant is added when a one falls out. */
  function Step(poly: Reg, c: Reg): (r: Reg)
    ensures forall i :: 0 <= i < 15 ==> r[i] == (c[i + 1] != (c[0] && poly[i]))
    ensures r[15] == (c[0] && poly[15])
  {
    var shifted := c[1..] + [false];
    if c[0] then Xor(shifted, poly) else shifted
  }

  function Steps(poly: Reg, c: Reg, n: nat): Reg
    decreases n
  {
    if n == 0 then c else Steps(poly, Step(poly, c), n - 1)
  }

  /** Add one message bit to the register and shift. */
  function Feed(poly: Reg, c: Reg, bit: bool): Reg {
    Step(poly, c[0 := c[0] != bit])
  }

  /** The register after feeding the bits in order. */
  function Serial(poly: Reg, c: Reg, bits: Bits): Reg
    decreases |bits|
  {
    if bits == [] then c else Serial(poly, Feed(poly, c, bits[0]), bits[1..])
  }

  // ------------------------------------------------------------------
  // Linearity over exclusive or
  // ------------------------------------------------------------------

  lemma XorZero(a: Bits)
    ensures Xor(a, Zeros(|a|)) == a && Xor(Zeros(|a|), a) == a && Xor(a, a) == Zeros(|a|)
  {
  }

  lemma XorCancel(a: Bits, b: Bits)
    requires |a| == |b| && Xor(a, b) == Zeros(|a|)
    ensures a == b
  {
    assert forall i :: 0 <= i < |a| ==> !Xor(a, b)[i];
  }

  lemma StepLinear(poly: Reg, c: Reg, d: Reg)
    ensures Step(poly, Xor(c, d)) == Xor(Step(poly, c), Step(poly, d))
  {
  }

  lemma {:induction false} StepsLinear(poly: Reg, c: Reg, d: Reg, n: nat)
    ensures Steps(poly, Xor(c, d), n) == Xor(Steps(poly, c, n), Steps(poly, d, n))
    decreases n
  {
    if n != 0 {
      StepLinear(poly, c, d);
      StepsLinear(poly, Step(poly, c), Step(poly, d), n - 1);
    }
  }

  lemma FeedLinear(poly: Reg, c: Reg, d: Reg, a: bool, b: bool)
    ensures Feed(poly, Xor(c, d), a != b) == Xor(Feed(poly, c, a), Feed(poly, d, b))
  {
    var c', d' := c[0 := c[0] != a], d[0 := d[0] != b];
    assert Xor(c, d)[0 := Xor(c, d)[0] != (a != b)] == Xor(c', d');
    StepLinear(poly, c', d');
  }

  lemma {:induction false} SerialLinear(poly: Reg, c: Reg, d: Reg, a: Bits, b: Bits)
    requires |a| == |b|
    ensures Serial(poly, Xor(c, d), Xor(a, b)) == Xor(Serial(poly, c, a), Serial(poly, d, b))
    decreases |a|
  {
    if a != [] {
      FeedLinear(poly, c, d, a[0], b[0]);
      assert Xor(a, b)[1..] == Xor(a[1..], b[1..]);
      SerialLinear(poly, Feed(poly, c, a[0]), Feed(poly, d, b[0]), a[1..], b[1..]);
    }
  }

  // ------------------------------------------------------------------
  // Composition
  // ------------------------------------------------------------------

  lemma {:induction false} SerialConcat(poly: Reg, c: Reg, a: Bits, b: Bits)
    ensures Serial(poly, c, a + b) == Serial(poly, Serial(poly, c, a), b)
    decreases |a|
  {
    if a == [] {
      assert a + b == b;
    } else {
      assert (a + b)[1..] == a[1..] + b;
      SerialConcat(poly, Feed(poly, c, a[0]), a[1..], b);
    }
  }

  lemma {:induction false} StepsAdd(poly: Reg, c: Reg, m: nat, n: nat)
    ensures Steps(poly, c, m + n) == Steps(poly, Steps(poly, c, m), n)
    decreases m
  {
    if m != 0 {
      StepsAdd(poly, Step(poly, c), m - 1, n);
    }
  }

  lemma {:induction false} SerialZeros(poly: Reg, c: Reg, n: nat)
    ensures Serial(poly, c, Zeros(n)) == Steps(poly, c, n)
    decreases n
  {
    if n != 0 {
      assert Zeros(n)[1..] == Zeros(n - 1);
      assert c[0 := c[0] != false] == c;
      SerialZeros(poly, Step(poly, c), n - 1);
    }
  }

  lemma {:induction false} StepsOfZero(poly: Reg, n: nat)
    ensures Steps(poly, Zeros(16), n) == Zeros(16)
    decreases n
  {
    if n != 0 {
      assert Step(poly, Zeros(16)) == Zeros(16);
      StepsOfZero(poly, n - 1);
    }
  }

  // ------------------------------------------------------------------
  // Up to 16 message bits enter the register as one exclusive or
  // ------------------------------------------------------------------

  function Pad(bits: Bits): Reg
    requires |bits| <= 16
  {
    bits + Zeros(16 - |bits|)
  }

  lemma FeedPad(poly: Reg, c: Reg, bits: Bits)
    requires 1 <= |bits| <= 16
    ensures Step(poly, Xor(c, Pad(bits))) == Xor(Feed(poly, c, bits[0]), Pad(bits[1..]))
  {
    var later := Pad(bits)[0 := false];
    assert Xor(c, Pad(bits)) == Xor(c[0 := c[0] != bits[0]], later);
    StepLinear(poly, c[0 := c[0] != bits[0]], later);
    PadShift(poly, bits);
  }

  lemma PadShift(poly: Reg, bits: Bits)
    requires 1 <= |bits| <= 16
    ensures Step(poly, Pad(bits)[0 := false]) == Pad(bits[1..])
  {
    var later := Pad(bits)[0 := false];
    assert Step(poly, later) == later[1..] + [false];
    assert later[1..] == bits[1..] + Zeros(16 - |bits|);
  }

  lemma {:induction false} SerialIsSteps(poly: Reg, c: Reg, bits: Bits)
    requires |bits| <= 16
    ensures Serial(poly, c, bits) == Steps(poly, Xor(c, Pad(bits)), |bits|)
    decreases |bits|
  {
    hide Step, Feed, Pad, Zeros;
    if bits == [] {
      assert Xor(c, Pad(bits)) == c by { PadNone(); }
    } else {
      FeedPad(poly, c, bits);
      SerialIsSteps(poly, Feed(poly, c, bits[0]), bits[1..]);
    }
  }

  lemma PadNone()
    ensures Pad([]) == Zeros(16)
  {
  }

  /** Eight shifts of a register whose low half is zero only shift. */
  lemma HighHalf(poly: Reg, h: Reg)
    requires h[..8] == Zeros(8)
    ensures Steps(poly, h, 8) == h[8..] + Zeros(8)
  {
    ShiftOnly(poly, h, 8);
  }

  lemma {:induction false} ShiftOnly(poly: Reg, h: Reg, n: nat)
    requires n <= 16 && h[..n] == Zeros(n)
    ensures Steps(poly, h, n) == h[n..] + Zeros(n)
    decreases n
  {
    if n == 0 {
    } else {
      var next := Step(poly, h);
      assert !h[..n][0];
      assert next == h[1..] + [false];
      assert next[..n - 1] == h[..n][1..] == Zeros(n - 1);
      ShiftOnly(poly, next, n - 1);
      assert next[n - 1..] == h[n..] + [false];
    }
  }

  /** A byte of shifts: the shifted high half plus eight steps of the low half. */
  lemma TableSplit(poly: Reg, x: Reg)
    ensures Steps(poly, x, 8) == Xor(x[8..] + Zeros(8), Steps(poly, x[..8] + Zeros(8), 8))
  {
    var lo, hi := x[..8] + Zeros(8), Zeros(8) + x[8..];
    assert x == Xor(hi, lo);
    StepsLinear(poly, hi, lo, 8);
    HighHalf(poly, hi);
    assert hi[8..] == x[8..];
  }
}
