/** The primality test `is_prime` (app.py:44-52): small cases, then trial
    division by the odd numbers 3, 5, 7, ... whose square is at most n. */
module Primality {
  import opened Arithmetic

  /** n is prime: at least 2, and no number strictly between 1 and n divides it. */
  ghost predicate IsPrimeSpec(n: int) {
    n >= 2 && forall d :: 2 <= d < n ==> n % d != 0
  }

  /** True when no odd candidate i, i + 2, i + 4, ... with square at most n
      divides n: the generator over range(3, isqrt(n) + 1, 2), whose bound
      isqrt(n) + 1 is exclusive, written as i * i <= n. */
  function NoOddDivisorFrom(n: int, i: int): bool
    requires 3 <= i
    decreases n - i
  {
    if i * i > n then true
    else
      assert i <= n by { MulAtLeast(i, i); }
      n % i != 0 && NoOddDivisorFrom(n, i + 2)
  }

  /** is_prime. */
  function IsPrime(n: int): bool {
    if n < 2 then false
    else if n == 2 || n == 3 then true
    else if n % 2 == 0 then false
    else NoOddDivisorFrom(n, 3)
  }

  /** The trial division decides primality: it is true exactly for the primes. */
  lemma IsPrimeCorrect(n: int)
    ensures IsPrime(n) <==> IsPrimeSpec(n)
  {
    if IsPrimeSpec(n) && n > 3 {
      assert n % 2 != 0;
      ScanPassesOnPrime(n, 3);
    }
    if IsPrime(n) && n > 3 {
      forall d | 2 <= d < n
        ensures n % d != 0
      {
        if n % d == 0 {
          var e := SmallDivisor(n, d);
          OddDivisorOfOdd(n, e);
          ScanFindsDivisor(n, 3, e);
          assert false;
        }
      }
    }
  }

  /** On a prime, no candidate of the scan divides. */
  lemma {:induction false} ScanPassesOnPrime(n: int, i: int)
    requires IsPrimeSpec(n) && 3 <= i
    ensures NoOddDivisorFrom(n, i)
    decreases n - i
  {
    if i * i <= n {
      assert i < n by { MulAtLeast(i, i); }
      ScanPassesOnPrime(n, i + 2);
    }
  }

  /** A number with a proper divisor has one whose square is at most n. */
  lemma SmallDivisor(n: int, d: int) returns (e: int)
    requires 2 <= d < n && n % d == 0
    ensures 2 <= e && e * e <= n && n % e == 0
  {
    var q := n / d;
    assert n == q * d;
    if d * d <= n {
      e := d;
    } else {
      assert 1 * d < q * d && q * d < d * d;
      MulCancelLess(1, q, d);
      MulCancelLess(q, d, d);
      assert q * q <= q * d by { MulMonotone(q, d, q); }
      ModUnique(n, q, d, 0);
      e := q;
    }
  }

  lemma MulMonotone(a: int, b: int, c: int)
    requires 0 <= a <= b && c >= 0
    ensures a * c <= b * c
  {
    assert b * c == a * c + (b - a) * c;
  }

  /** A factor can be cancelled from both sides of a strict inequality. */
  lemma MulCancelLess(a: int, b: int, c: int)
    requires c > 0 && a * c < b * c
    ensures a < b
  {
    assert (b - a) * c > 0;
  }

  /** Every divisor of an odd number is odd. */
  lemma OddDivisorOfOdd(n: int, e: int)
    requires n % 2 == 1 && e >= 1 && n % e == 0
    ensures e % 2 == 1
  {
    if e % 2 == 0 {
      assert n == e * (n / e);
      EvenFactor(e, n / e);
    }
  }

  /** An odd divisor e with e * e <= n is met by the scan from any odd i <= e. */
  lemma {:induction false} ScanFindsDivisor(n: int, i: int, e: int)
    requires 3 <= i <= e && i % 2 == 1 && e % 2 == 1
    requires e * e <= n && n % e == 0
    ensures !NoOddDivisorFrom(n, i)
    decreases e - i
  {
    assert i * i <= e * e by {
      MulMonotone(i, e, i);
      MulMonotone(i, e, e);
    }
    if i < e {
      ScanFindsDivisor(n, i + 2, e);
    }
  }

  lemma IsPrimeExamples()
    ensures IsPrime(2) && IsPrime(3) && IsPrime(23) && IsPrime(25) == false && IsPrime(4) == false
  {
  }
}
