/** Remainders of ring positions. */
module Modulo {

  lemma MulAtLeast(n: int, d: int)
    requires n >= 0
    ensures d >= 1 ==> n * d >= n
    ensures d <= -1 ==> n * d <= -n
  {
  }

  lemma ModUnique(a: nat, n: nat, q: nat, r: nat)
    requires r < n && a == n * q + r
    ensures a % n == r && a / n == q
  {
    var q' := a / n;
    assert n * (q - q') == a % n - r;
    MulAtLeast(n, q - q');
  }

  lemma MulMonotone(n: nat, a: nat, b: nat)
    ensures a <= b ==> n * a <= n * b
    ensures n * (a + 1) == n * a + n
  {
  }

  lemma ModStep(a: nat, n: nat)
    requires n > 0
    ensures (a % n + 1) % n == (a + 1) % n
  {
    var q, r := a / n, a % n;
    MulMonotone(n, q, q);
    if r + 1 < n {
      ModUnique(a + 1, n, q, r + 1);
      ModUnique(r + 1, n, 0, r + 1);
    } else {
      ModUnique(a + 1, n, q + 1, 0);
      ModUnique(n, n, 1, 0);
    }
  }

  /** Two positions less than n apart fall in different slots. */
  lemma ModDistinct(a: nat, b: nat, n: nat)
    requires a < b < a + n
    ensures a % n != b % n
  {
    if a % n == b % n {
      var qa, qb := a / n, b / n;
      assert b - a == n * qb - n * qa;
      MulMonotone(n, qa + 1, qb);
      MulMonotone(n, qa, qb);
      MulMonotone(n, qb, qa);
      assert false;
    }
  }

  lemma ModShift(d: nat, n: nat)
    requires n > 0
    ensures (d + n) % n == d % n
  {
    var q, r := d / n, d % n;
    MulMonotone(n, q, q);
    ModUnique(d + n, n, q + 1, r);
  }

  /** A ring of n slots is empty when the indices meet and full when the next head meets tail. */
  lemma RingFacts(taken: nat, sent: nat, n: nat)
    requires n >= 2 && taken <= sent <= taken + n - 1
    ensures sent % n == taken % n <==> sent == taken
    ensures (sent % n + 1) % n == taken % n <==> sent - taken == n - 1
    ensures forall k :: taken <= k < sent ==> k % n != sent % n
  {
    ModStep(sent, n);
    if sent + 1 == taken + n {
      ModShift(taken, n);
    } else {
      ModDistinct(taken, sent + 1, n);
    }
    forall k | taken <= k < sent ensures k % n != sent % n {
      ModDistinct(k, sent, n);
    }
    if taken < sent { ModDistinct(taken, sent, n); }
  }
}
