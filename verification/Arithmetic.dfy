/** Facts about products, quotients and remainders that the proofs need one at a time. */
module Arithmetic {

  lemma MulAssoc(a: int, b: int, c: int)
    ensures a * (b * c) == (a * b) * c
  {
  }

  lemma MulSteps(p: int, d: int)
    requires 0 < p
    ensures d >= 1 ==> p * d >= p
    ensures d <= -1 ==> p * d <= 0 - p
  {
  }

  lemma AtMostTimes(a: nat, b: nat, n: nat)
    requires a <= b
    ensures 0 <= a * n <= b * n
  {
  }

  lemma Distribute(a: nat, b: nat, h: nat, m: nat)
    ensures (a * b + h) * m == a * (b * m) + h * m
  {
    MulAssoc(a, b, m);
  }

  /** The quotient and remainder of a number are the only digits that make it up. */
  lemma DivModUnique(v: nat, p: nat, q: nat, r: nat)
    requires 0 < p && r < p && v == p * q + r
    ensures v / p == q && v % p == r
  {
    assert v == p * (v / p) + v % p;
    assert p * (v / p - q) == p * (v / p) - p * q;
    MulSteps(p, v / p - q);
  }

  /** The digits above a low digit vanish in the remainder and are the quotient. */
  lemma LowDigit(top: nat, a: nat, b: nat, r: nat)
    requires r < b
    ensures (top * (a * b) + r) % b == r && (top * (a * b) + r) / b == top * a
  {
    MulAssoc(top, a, b);
    DivModUnique(top * (a * b) + r, b, top * a, r);
  }

  lemma ModAtMost(v: nat, p: nat)
    requires 0 < p
    ensures 0 <= v % p <= v
  {
    assert v == p * (v / p) + v % p;
    MulSteps(p, v / p);
  }
}
