/** Bytes as numbers, and 32-bit numbers as four bytes, least significant first. */
module Bytes {
  import opened GatewayTypes

  /** The byte with value n mod 256. */
  function ByteOf(n: nat): bv8 {
    (n % 256) as bv8
  }

  function NatOf(b: bv8): (n: nat)
    ensures n < 256
  {
    b as nat
  }

  /** Every number below 256 is the value of a byte, built up from its highest bit. */
  lemma {:induction false} SomeByte(m: nat) returns (b: bv8)
    requires m < 256
    ensures b as int == m
    decreases m
  {
    if m == 0 {
      b := 0;
    } else {
      var c := SomeByte(m / 2);
      SmallByte(c, m / 2);
      Twice(c);
      TwiceMore(c);
      b := if m % 2 == 0 then c * 2 else c * 2 + 1;
    }
  }

  lemma SmallByte(b: bv8, m: nat)
    requires b as int == m && m < 128
    ensures b < 128
  {
  }

  lemma Twice(b: bv8)
    requires b < 128
    ensures (b * 2) as int == 2 * (b as int)
  {
  }

  lemma TwiceMore(b: bv8)
    requires b < 128
    ensures (b * 2 + 1) as int == 2 * (b as int) + 1
  {
  }

  lemma BackToByte(m: nat, b: bv8)
    requires b as int == m
    ensures m < 256 && m as bv8 == b
  {
  }

  lemma AsByte(m: nat)
    requires m < 256
    ensures (m as bv8) as int == m
  {
    var b := SomeByte(m);
    BackToByte(m, b);
  }

  lemma ByteValue(n: nat)
    ensures ByteOf(n) as int == NatOf(ByteOf(n)) == n % 256
  {
    AsByte(n % 256);
  }

  lemma SameByte(b: bv8, c: bv8)
    ensures b == c <==> b as int == c as int
  {
  }

  lemma ByteRoundTrip(n: nat)
    requires n < 256
    ensures NatOf(ByteOf(n)) == n
  {
    ByteValue(n);
  }

  /** The four bytes of a 32-bit number. */
  function Word(n: U32): (b: seq<bv8>)
    ensures |b| == 4
  {
    [ByteOf(n), ByteOf(n / 0x100), ByteOf(n / 0x1_0000), ByteOf(n / 0x100_0000)]
  }

  function NatOfWord(b: seq<bv8>): U32
    requires |b| == 4
  {
    Digits(NatOf(b[0]), NatOf(b[1]), NatOf(b[2]), NatOf(b[3]))
  }

  /** Four digits to the base 256, the lowest first. */
  function Digits(d0: nat, d1: nat, d2: nat, d3: nat): U32
    requires d0 < 256 && d1 < 256 && d2 < 256 && d3 < 256
  {
    d0 + 0x100 * (d1 + 0x100 * (d2 + 0x100 * d3))
  }

  /** Byte i of a number is its i-th digit to the base 256, counted from the lowest. */
  lemma WordDigits(n: U32)
    ensures Word(n)[0] as int == n % 256
    ensures Word(n)[1] as int == n / 256 % 256
    ensures Word(n)[2] as int == n / 65536 % 256
    ensures Word(n)[3] as int == n / 16777216 % 256
  {
    hide ByteOf, NatOf;
    ByteValue(n);
    ByteValue(n / 0x100);
    ByteValue(n / 0x1_0000);
    ByteValue(n / 0x100_0000);
  }

  /** And four bytes are read the same way. */
  lemma ReadDigits(b: seq<bv8>)
    requires |b| == 4
    ensures NatOfWord(b) == b[0] as int + 256 * (b[1] as int) + 65536 * (b[2] as int) + 16777216 * (b[3] as int)
  {
  }

  lemma Recombine(n: nat)
    requires n < TWO_32
    ensures Digits(n % 0x100, n / 0x100 % 0x100, n / 0x1_0000 % 0x100, n / 0x100_0000 % 0x100) == n
  {
    var q1, q2, q3 := n / 0x100, n / 0x1_0000, n / 0x100_0000;
    assert q2 == q1 / 0x100 && q3 == q2 / 0x100;
    assert n == 0x100 * q1 + n % 0x100;
    assert q1 == 0x100 * q2 + q1 % 0x100;
    assert q2 == 0x100 * q3 + q2 % 0x100;
    assert q3 < 0x100;
  }

  lemma WordRoundTrip(n: U32)
    ensures NatOfWord(Word(n)) == n
  {
    hide ByteOf, NatOf, Digits;
    ByteValue(n);
    ByteValue(n / 0x100);
    ByteValue(n / 0x1_0000);
    ByteValue(n / 0x100_0000);
    Recombine(n);
  }
}
