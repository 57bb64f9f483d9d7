/** Facts about products, quotients and remainders that the other modules share. */
module Arithmetic {

  lemma Mono(a: nat, b: nat, u: nat)
    requires a <= b
    ensures a * u <= b * u && u * a <= u * b
    ensures a < b ==> a * u + u <= b * u
  {
    assert b * u == a * u + (b - a) * u;
    if a < b {
      assert (b - a) * u == u + (b - a - 1) * u;
      assert (b - a - 1) * u >= 0;
    }
  }

  lemma MulSwap(a: nat, b: nat, c: nat)
    ensures a * b * c == a * c * b
  {
  }

  lemma MulSum(a: nat, b: nat, c: nat)
    ensures (a + b) * c == a * c + b * c
  {
  }

  lemma QuotientBounds(a: nat, u: nat)
    requires u > 0
    ensures a / u * u <= a < a / u * u + u
  {
    assert a == a / u * u + a % u;
  }

  /** Quotient and remainder are what they look like. */
  lemma Remainder(x: nat, d: nat, r: nat, n: nat)
    requires n > 0 && r < n && x == d * n + r
    ensures x % n == r && x / n == d
  {
    var q := x / n;
    assert x == q * n + x % n;
    if d < q {
      Mono(d, q, n);
    } else if q < d {
      Mono(q, d, n);
    }
  }

  lemma NextModulo(n: nat, m: nat)
    requires m > 0
    ensures (n + 1) % m == if n % m + 1 == m then 0 else n % m + 1
  {
    var q, r := n / m, n % m;
    assert n == q * m + r;
    if r + 1 == m {
      assert (q + 1) * m == q * m + m;
      Remainder(n + 1, q + 1, 0, m);
    } else {
      Remainder(n + 1, q, r + 1, m);
    }
  }

  function Pow2(n: nat): (p: nat)
    ensures p > 0
  {
    if n == 0 then 1 else 2 * Pow2(n - 1)
  }

  lemma {:induction false} PowersSplit(a: nat, b: nat)
    ensures Pow2(a) * Pow2(b) == Pow2(a + b)
  {
    if a > 0 {
      PowersSplit(a - 1, b);
      assert Pow2(a) * Pow2(b) == 2 * (Pow2(a - 1) * Pow2(b));
    }
  }

  lemma WordSize()
    ensures Pow2(8) == 256 && Pow2(32) == 0x1_0000_0000
  {
    assert Pow2(4) == 16;
    PowersSplit(4, 4);
    PowersSplit(8, 8);
    PowersSplit(16, 16);
  }
}
