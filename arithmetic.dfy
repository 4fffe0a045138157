/** Facts about Euclidean division and remainder that the solver does not find
    on its own, because they involve products of variables. */
module Arithmetic {

  /** Division by m is unique: a quotient and a remainder in [0, m) determine a % m. */
  lemma ModUnique(a: int, m: int, q: int, r: int)
    requires m > 0 && a == q * m + r && 0 <= r < m
    ensures a % m == r && a / m == q
  {
    var q0, r0 := a / m, a % m;
    assert (q - q0) * m == r0 - r;
    if q > q0 {
      assert (q - q0) * m >= m by { MulAtLeast(q - q0, m); }
    } else if q < q0 {
      assert (q0 - q) * m >= m by { MulAtLeast(q0 - q, m); }
    }
  }

  lemma MulAtLeast(k: int, m: int)
    requires k >= 1 && m > 0
    ensures k * m >= m
  {
    assert k * m == (k - 1) * m + m;
  }

  /** A multiple of m leaves no remainder. */
  lemma MultipleMod(k: int, m: int)
    requires m > 0
    ensures (k * m) % m == 0
  {
    ModUnique(k * m, m, k, 0);
  }

  /** Adding a multiple of m does not change the remainder. */
  lemma ModAddMultiple(k: int, y: int, m: int)
    requires m > 0
    ensures (k * m + y) % m == y % m
  {
    ModUnique(k * m + y, m, k + y / m, y % m);
  }

  /** The left factor of a product may be reduced modulo m first. */
  lemma ModMulLeft(a: int, b: int, m: int)
    requires m > 0
    ensures (a * b) % m == ((a % m) * b) % m
  {
    var q, r := a / m, a % m;
    assert a * b == (q * b) * m + r * b;
    ModAddMultiple(q * b, r * b, m);
  }

  /** The right factor of a product may be reduced modulo m first. */
  lemma ModMulRight(a: int, b: int, m: int)
    requires m > 0
    ensures (a * b) % m == (a * (b % m)) % m
  {
    ModMulLeft(b, a, m);
    assert b * a == a * b && (b % m) * a == a * (b % m);
  }

  /** An even factor makes the product even. */
  lemma EvenFactor(e: int, k: int)
    requires e % 2 == 0
    ensures (e * k) % 2 == 0
  {
    assert e * k == (e / 2 * k) * 2;
    MultipleMod(e / 2 * k, 2);
  }
}
