/** Facts about products, quotients and remainders, each with plain integers in it, and the type of a byte. */
module Arithmetic {

  type Byte = x: nat | x < 256

  lemma MulMono(a: int, b: int, c: nat)
    requires a <= b
    ensures a * c <= b * c && c * a <= c * b
  {
  }

  lemma MulAtLeast(d: int, m: nat)
    requires d >= 1
    ensures d * m >= m
  {
    assert (d - 1) * m >= 0;
  }

  lemma Commute(x: int, y: int)
    ensures x * y == y * x
  {
  }

  lemma Associate(x: int, y: int, z: int)
    ensures (x * y) * z == x * (y * z)
  {
  }

  lemma Distribute(x: int, y: int, w: int)
    ensures (x + y) * w == x * w + y * w && w * (x + y) == w * x + w * y
  {
  }

  lemma DivMod(n: int, m: nat)
    requires m > 0
    ensures n == (n / m) * m + n % m && 0 <= n % m < m
  {
  }

  /** Quotient and remainder are determined by the division equation. */
  lemma DivUnique(x: int, m: nat, q: int, r: int)
    requires m > 0 && x == q * m + r && 0 <= r < m
    ensures x / m == q && x % m == r
  {
    var d := x / m - q;
    assert x == (x / m) * m + x % m;
    assert d * m == r - x % m by { assert (x / m) * m - q * m == d * m; }
    if d > 0 { MulAtLeast(d, m); } else if d < 0 { MulAtLeast(-d, m); }
  }

  lemma MultipleMod(q: int, m: nat)
    requires m > 0
    ensures (m * q) % m == 0 && (q * m) % m == 0
  {
    DivUnique(m * q, m, q, 0);
  }

  lemma SmallMod(x: nat, m: nat)
    requires x < m
    ensures x % m == x
  {
  }
}
