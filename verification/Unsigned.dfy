// Arithmetic of unsigned integer types: powers of two, and results modulo the range of the type.

module Unsigned {

  function Pow2(k: nat): (p: nat)
    ensures p > 0
  {
    if k == 0 then 1 else 2 * Pow2(k - 1)
  }

  function Pow10(k: nat): (p: nat)
    ensures p > 0
  {
    if k == 0 then 1 else 10 * Pow10(k - 1)
  }

  function Reduce(x: int, modulus: nat): (r: nat)
    requires modulus > 0
    ensures r < modulus
    ensures 0 <= x < modulus ==> r == x
  {
    x % modulus
  }

  // The result differs from x by a multiple of the modulus.
  lemma ReduceIsCongruent(x: int, modulus: nat) returns (q: int)
    requires modulus > 0
    ensures x == q * modulus + Reduce(x, modulus)
  {
    q := x / modulus;
  }

  lemma NegativeReduces(x: int, m: nat)
    requires 0 < m && 0 <= x + m && x < 0
    ensures Reduce(x, m) == x + m
  {
  }

  lemma DivisionLaw(a: nat, b: nat)
    requires b > 0
    ensures a == a / b * b + a % b && a % b < b
  {
  }

  lemma {:induction false} TimesAtLeastOne(q: nat, b: nat)
    requires b > 0
    ensures q <= q * b
  {
    if b > 1 {
      TimesAtLeastOne(q, b - 1);
      assert q * b == q * (b - 1) + q;
    }
  }

  lemma RemainderIs(a: int, q: int, m: int, r: int)
    requires 0 <= r < m && a == q * m + r
    ensures a % m == r
  {
    var d := q - a / m;
    assert d * m == a % m - r;
    assert d >= 1 ==> d * m >= m;
    assert d <= -1 ==> d * m <= -m;
  }

  // Reducing early changes nothing in the end.
  lemma ReduceInside(n: nat, b: nat, m: nat)
    requires m > 0
    ensures Reduce(n * 256 + b, m) == Reduce(Reduce(n, m) * 256 + b, m)
  {
    var x := n % m * 256 + b;
    calc {
      n * 256 + b;
      (n / m * m + n % m) * 256 + b;
      n / m * 256 * m + x;
      n / m * 256 * m + (x / m * m + x % m);
      (n / m * 256 + x / m) * m + x % m;
    }
    RemainderIs(n * 256 + b, n / m * 256 + x / m, m, x % m);
  }
}
