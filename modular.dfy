/** Modular exponentiation: the meaning of Python's three-argument pow(b, e, m)
    that app.py:156, app.py:164, app.py:178 and app.py:196 call, and the
    square-and-multiply algorithm that computes it, together with the facts the
    Diffie-Hellman exchange and the discrete-logarithm search rest on. */
module ModularArithmetic {
  import opened Arithmetic
  import opened Primality

  /** b raised to the e-th power. */
  function Pow(b: int, e: nat): int
    decreases e
  {
    if e == 0 then 1 else b * Pow(b, e - 1)
  }

  /** pow(b, e, m) for a modulus m >= 1: the residue of b^e modulo m. */
  function ModPow(b: int, e: nat, m: int): (r: int)
    requires m >= 1
    ensures 0 <= r < m
  {
    Pow(b, e) % m
  }

  /** Square-and-multiply: O(log e) products, each of numbers below m. */
  method FastModPow(b: nat, e: nat, m: nat) returns (r: nat)
    requires m >= 1
    ensures r == ModPow(b, e, m)
  {
    r := 1 % m;
    var x, k := b % m, e;
    SquareStart(b, e, m);
    while k > 0
      invariant r < m && x < m
      invariant (r * Pow(x, k)) % m == Pow(b, e) % m
      decreases k
    {
      var r' := if k % 2 == 1 then (r * x) % m else r;
      var x' := (x * x) % m;
      SquareStep(r, x, k, m, r', x');
      r, x, k := r', x', k / 2;
    }
    SquareEnd(r, x, m);
  }

  /** With no exponent left, the accumulator is the answer. */
  lemma SquareEnd(r: int, x: int, m: int)
    requires 0 <= r < m
    ensures (r * Pow(x, 0)) % m == r
  {
    ModUnique(r, m, 0, r);
  }

  /** Square-and-multiply starts from 1 * (b mod m)^e. */
  lemma SquareStart(b: int, e: nat, m: int)
    requires m >= 1
    ensures ((1 % m) * Pow(b % m, e)) % m == Pow(b, e) % m
  {
    PowModBase(b, e, m);
    ModMulLeft(1, Pow(b % m, e), m);
  }

  /** One round of square-and-multiply keeps r * x^k unchanged modulo m. */
  lemma SquareStep(r: int, x: int, k: nat, m: int, r': int, x': int)
    requires m >= 1 && k > 0
    requires r' == (if k % 2 == 1 then (r * x) % m else r) && x' == (x * x) % m
    ensures (r' * Pow(x', k / 2)) % m == (r * Pow(x, k)) % m
  {
    var j := k / 2;
    var y := Pow(x * x, j);
    PowModBase(x * x, j, m);
    assert Pow((x * x) % m, j) % m == y % m;
    PowSquare(x, j);
    if k % 2 == 1 {
      assert k == 2 * j + 1;
      assert Pow(x, k) == x * Pow(x, 2 * j);
      ModMulLeft(r * x, Pow((x * x) % m, j), m);
      ModMulRight((r * x) % m, Pow((x * x) % m, j), m);
      ModMulRight(r * x, Pow((x * x) % m, j), m);
      ModMulLeft(r * x, y, m);
      ModMulRight(r * x, y, m);
      assert (r * x) * y == r * (x * y);
    } else {
      assert k == 2 * j;
      ModMulRight(r, Pow((x * x) % m, j), m);
      ModMulRight(r, y, m);
    }
  }

  /** Squaring the base halves the exponent. */
  lemma {:induction false} PowSquare(x: int, j: nat)
    ensures Pow(x, 2 * j) == Pow(x * x, j)
    decreases j
  {
    if j > 0 {
      PowSquare(x, j - 1);
      assert Pow(x, 2 * j) == x * (x * Pow(x, 2 * (j - 1)));
    }
  }

  /** Exponents add under multiplication. */
  lemma {:induction false} PowAdd(b: int, e1: nat, e2: nat)
    ensures Pow(b, e1 + e2) == Pow(b, e1) * Pow(b, e2)
    decreases e1
  {
    if e1 > 0 {
      PowAdd(b, e1 - 1, e2);
      assert Pow(b, e1 + e2) == b * Pow(b, (e1 - 1) + e2);
    }
  }

  /** A power of a power multiplies the exponents. */
  lemma {:induction false} PowMul(b: int, e1: nat, e2: nat)
    ensures Pow(Pow(b, e1), e2) == Pow(b, e1 * e2)
    decreases e2
  {
    if e2 > 0 {
      PowMul(b, e1, e2 - 1);
      PowAdd(b, e1, e1 * (e2 - 1));
      assert e1 + e1 * (e2 - 1) == e1 * e2;
    }
  }

  /** The base may be reduced modulo m before exponentiating. */
  lemma {:induction false} PowModBase(b: int, e: nat, m: int)
    requires m >= 1
    ensures Pow(b % m, e) % m == Pow(b, e) % m
    decreases e
  {
    if e > 0 {
      PowModBase(b, e - 1, m);
      calc {
        Pow(b % m, e) % m;
        ((b % m) * Pow(b % m, e - 1)) % m;
        { ModMulRight(b % m, Pow(b % m, e - 1), m); }
        ((b % m) * (Pow(b % m, e - 1) % m)) % m;
        ((b % m) * (Pow(b, e - 1) % m)) % m;
        { ModMulRight(b % m, Pow(b, e - 1), m); }
        ((b % m) * Pow(b, e - 1)) % m;
        { ModMulLeft(b, Pow(b, e - 1), m); }
        (b * Pow(b, e - 1)) % m;
      }
    }
  }

  /** Everything is congruent to 0 modulo 1. */
  lemma ModPowOne(b: int, e: nat)
    ensures ModPow(b, e, 1) == 0
  {
  }

  /** Diffie-Hellman agreement: raising g^a to b and g^b to a, both modulo m,
      gives the same residue, g^(a*b) modulo m. */
  lemma DiffieHellmanAgreement(g: int, a: nat, b: nat, m: int)
    requires m >= 1
    ensures ModPow(ModPow(g, a, m), b, m) == ModPow(ModPow(g, b, m), a, m) == ModPow(g, a * b, m)
  {
    PowModBase(Pow(g, a), b, m);
    PowModBase(Pow(g, b), a, m);
    PowMul(g, a, b);
    PowMul(g, b, a);
    assert a * b == b * a;
  }

  /** Two exponents with the same residue keep the same residue when both are
      increased by t. */
  lemma ShiftResidue(b: int, u: nat, v: nat, t: nat, m: int)
    requires m >= 1 && ModPow(b, u, m) == ModPow(b, v, m)
    ensures ModPow(b, u + t, m) == ModPow(b, v + t, m)
  {
    PowAdd(b, u, t);
    PowAdd(b, v, t);
    ModMulLeft(Pow(b, u), Pow(b, t), m);
    ModMulLeft(Pow(b, v), Pow(b, t), m);
  }

  /** Among more than n numbers in [0, n), two are equal. */
  lemma {:induction false} Pigeonhole(s: seq<int>, n: nat) returns (i: nat, j: nat)
    requires 1 <= n < |s|
    requires forall k :: 0 <= k < |s| ==> 0 <= s[k] < n
    ensures i < j < |s| && s[i] == s[j]
    decreases n
  {
    if n == 1 {
      return 0, 1;
    }
    var last := s[|s| - 1];
    if k :| 0 <= k < |s| - 1 && s[k] == last {
      return k, |s| - 1;
    }
    // No earlier element equals the last one: close the gap it leaves.
    var t := seq(|s| - 1, k requires 0 <= k < |s| - 1 => if s[k] > last then s[k] - 1 else s[k]);
    i, j := Pigeonhole(t, n - 1);
  }

  /** Every residue b^x modulo m is already reached by an exponent below m
      that is at most x. */
  lemma {:induction false} EarlierExponent(b: int, x: nat, m: int) returns (y: nat)
    requires m >= 1
    ensures y < m && y <= x && ModPow(b, y, m) == ModPow(b, x, m)
    decreases x
  {
    if x < m {
      return x;
    }
    // The m + 1 exponents x - m .. x have only m residues: two of them agree.
    var s := seq(m + 1, k requires 0 <= k <= m => ModPow(b, x - m + k, m));
    forall k | 0 <= k < |s|
      ensures 0 <= s[k] < m
    {
      assert s[k] == ModPow(b, x - m + k, m);
    }
    var i, j := Pigeonhole(s, m);
    var u, v := x - m + i, x - m + j;
    ShiftResidue(b, u, v, x - v, m);
    y := EarlierExponent(b, u + (x - v), m);
  }

  /** Euclid's lemma for a factor below p: a prime dividing a * c with
      0 < a < p divides c. */
  lemma {:induction false} EuclidBelow(p: int, a: int, c: int)
    requires IsPrimeSpec(p) && 0 < a < p && (a * c) % p == 0
    ensures c % p == 0
    decreases a
  {
    if a > 1 {
      var q, r := p / a, p % a;
      assert 0 < r < a;
      var k := (a * c) / p;
      assert a * c == k * p;
      assert r * c == (c - q * k) * p by {
        assert r * c == (p - q * a) * c;
      }
      MultipleMod(c - q * k, p);
      EuclidBelow(p, r, c);
    }
  }

  /** Euclid's lemma: a prime dividing x * c but not x divides c. */
  lemma Euclid(p: int, x: int, c: int)
    requires IsPrimeSpec(p) && x % p != 0 && (x * c) % p == 0
    ensures c % p == 0
  {
    ModMulLeft(x, c, p);
    EuclidBelow(p, x % p, c);
  }

  /** A prime that does not divide g divides no power of g. */
  lemma {:induction false} PowNotDivisible(p: int, g: int, e: nat)
    requires IsPrimeSpec(p) && g % p != 0
    ensures ModPow(g, e, p) != 0
    decreases e
  {
    if e > 0 {
      PowNotDivisible(p, g, e - 1);
      if Pow(g, e) % p == 0 {
        Euclid(p, g, Pow(g, e - 1));
        assert false;
      }
    }
  }
}
