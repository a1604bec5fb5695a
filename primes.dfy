/**
 * The prime-capacity policy shared by both hash maps: `_is_prime` decides
 * primality by trial division with odd factors, and `_next_prime` rounds a
 * requested capacity up to the next odd prime.  Both source files carry an
 * identical copy of these two helpers; they are modelled once here.
 */
module Primes {

  /** d is a positive divisor of n. */
  predicate Divides(d: int, n: int)
  {
    d > 0 && n % d == 0
  }

  /** n is prime: at least 2 and without a divisor strictly between 1 and n. */
  ghost predicate Prime(n: int)
  {
    n >= 2 && forall d :: 2 <= d < n ==> !Divides(d, n)
  }

  /** r is what rounding n up to a prime yields: the smallest ODD prime >= n. */
  ghost predicate IsNextPrime(n: int, r: int)
  {
    && Prime(r) && r % 2 == 1 && r >= n
    && forall q :: n <= q < r && q % 2 == 1 ==> !Prime(q)
  }

  // ---------------------------------------------------------------------
  // The two operations of the policy
  // ---------------------------------------------------------------------

  /** `_is_prime`: 2 and 3 are prime, 0, 1 and every even number are not,
      any other n is decided by trial division with 3, 5, 7, ... up to sqrt(n). */
  method IsPrime(n: nat) returns (r: bool)
    ensures r <==> Prime(n)
  {
    if n == 2 || n == 3 {
      assert !Divides(2, 3);
      return true;
    }
    if n == 1 || n % 2 == 0 {
      assert n >= 2 ==> Divides(2, n);
      return false;
    }
    var factor := 3;
    while factor * factor <= n
      invariant factor >= 3 && factor % 2 == 1
      invariant forall d :: 2 <= d < factor ==> !Divides(d, n)
      decreases n - factor * factor
    {
      if n % factor == 0 {
        FactorBelow(n, factor);
        return false;
      }
      NextOddFactor(n, factor);
      factor := factor + 2;
    }
    forall d | factor <= d < n
      ensures !Divides(d, n)
    {
      if Divides(d, n) {
        var q := CofactorBelow(n, d, factor);
        assert false;
      }
    }
    r := true;
  }

  /** A factor found by the trial division is a divisor between 2 and n. */
  lemma FactorBelow(n: nat, f: int)
    requires f >= 3 && f * f <= n && n % f == 0
    ensures 2 <= f < n && Divides(f, n)
  {
    MulSign(f, f);
  }

  /** Trial division steps from the odd factor f to f + 2: the even f + 1
      does not divide the odd n, and the loop measure goes down. */
  lemma NextOddFactor(n: int, f: int)
    requires n % 2 == 1 && f >= 3 && f % 2 == 1
    ensures !Divides(f + 1, n)
    ensures (f + 2) * (f + 2) == f * f + 4 * f + 4
  {
    OddHasNoEvenDivisor(n, f + 1);
  }

  /** `_next_prime`: make an even request odd, then step by 2 until prime. */
  method NextPrime(n: nat) returns (r: nat)
    ensures IsNextPrime(n, r)
  {
    r := n;
    if r % 2 == 0 {
      r := r + 1;
    }
    ghost var bound := OddPrimeAtLeast(r);
    var isPrime := IsPrime(r);
    while !isPrime
      invariant r % 2 == 1 && n <= r <= bound
      invariant isPrime <==> Prime(r)
      invariant forall q :: n <= q < r && q % 2 == 1 ==> !Prime(q)
      decreases bound - r
    {
      SkipComposite(n, r, bound);
      r := r + 2;
      isPrime := IsPrime(r);
    }
  }

  /** An odd r that is not prime extends the run of skipped candidates by
      one step of 2, and the next candidate stays below the prime bound. */
  lemma SkipComposite(n: int, r: int, bound: int)
    requires r % 2 == 1 && r <= bound && Prime(bound) && !Prime(r)
    requires forall q :: n <= q < r && q % 2 == 1 ==> !Prime(q)
    ensures r + 2 <= bound + 1 && (r + 2) % 2 == 1
    ensures forall q :: n <= q < r + 2 && q % 2 == 1 ==> !Prime(q)
  {
    forall q | n <= q < r + 2 && q % 2 == 1
      ensures !Prime(q)
    {
      if q != r {
        assert q < r;
      }
    }
  }

  // ---------------------------------------------------------------------
  // Properties of the rounding rule
  // ---------------------------------------------------------------------

  /** The rounding rule determines its result. */
  lemma NextPrimeUnique(n: int, r1: int, r2: int)
    requires IsNextPrime(n, r1) && IsNextPrime(n, r2)
    ensures r1 == r2
  {
    assert r1 < r2 ==> !Prime(r1);
    assert r2 < r1 ==> !Prime(r2);
  }

  /** An odd prime is left as it is; an even request is never kept. */
  lemma NextPrimeOfOddPrime(p: int)
    requires Prime(p) && p % 2 == 1
    ensures IsNextPrime(p, p)
  {
  }

  /** A request of 2 rounds up to 3: the policy never yields 2 by itself. */
  lemma {:induction false} NextPrimeOfTwo()
    ensures IsNextPrime(2, 3)
  {
    assert !Divides(2, 3);
  }

  /** The map's constructor turns a requested capacity of 20 into 23. */
  lemma {:induction false} NextPrimeOfTwenty()
    ensures IsNextPrime(20, 23)
  {
    assert Divides(3, 21);
    forall d | 2 <= d < 23
      ensures !Divides(d, 23)
    {
      assert 23 % d != 0;
    }
  }

  /** Rounding a doubled request up to an odd prime lands strictly above
      it. */
  lemma NextPrimeOfDouble(c: int, r: int)
    requires IsNextPrime(2 * c, r)
    ensures r > 2 * c
  {
    assert (2 * c) % 2 == 0;
  }

  /** A prime larger than 2 is odd. */
  lemma PrimeAboveTwoIsOdd(p: int)
    requires Prime(p) && p > 2
    ensures p % 2 == 1
  {
    assert p % 2 == 0 ==> Divides(2, p);
  }

  // ---------------------------------------------------------------------
  // Arithmetic facts behind the proofs above
  // ---------------------------------------------------------------------

  lemma MulSign(d: int, k: int)
    requires d > 0
    ensures k >= 1 ==> d * k >= d
    ensures k <= -1 ==> d * k <= -d
  {
  }

  lemma MulMonotone(a: int, b: int, c: int)
    requires 0 <= a <= b && c >= 0
    ensures a * c <= b * c
  {
  }

  lemma MulCancel(f: int, q: int, g: int)
    requires f > 0 && f * q < f * g
    ensures q < g
  {
  }

  /** Quotient and remainder are unique. */
  lemma ModUnique(n: int, d: int, q: int, r: int)
    requires d > 0 && 0 <= r < d && n == d * q + r
    ensures n % d == r && n / d == q
  {
    var k := q - n / d;
    assert d * k == n % d - r;
    MulSign(d, k);
  }

  lemma DividesProduct(d: int, q: int)
    requires d > 0
    ensures Divides(d, d * q)
  {
    ModUnique(d * q, d, q, 0);
  }

  lemma DividesTransitive(a: int, b: int, c: int)
    requires Divides(a, b) && Divides(b, c)
    ensures Divides(a, c)
  {
    var x, y := b / a, c / b;
    assert b == a * x && c == b * y;
    assert c == a * (x * y);
    DividesProduct(a, x * y);
  }

  lemma OddHasNoEvenDivisor(n: int, d: int)
    requires n % 2 == 1 && d > 0 && d % 2 == 0
    ensures !Divides(d, n)
  {
    if Divides(d, n) {
      assert Divides(2, d);
      DividesTransitive(2, d, n);
    }
  }

  /** A divisor d of n at or above f, where f * f > n, has its cofactor
      n / d below f, and that cofactor divides n too. */
  lemma CofactorBelow(n: int, d: int, f: int) returns (q: int)
    requires 2 <= d < n && f > 0 && f * f > n && f <= d && Divides(d, n)
    ensures 2 <= q < f && Divides(q, n)
  {
    q := n / d;
    assert n == d * q;
    QuotientAtLeastTwo(n, d, q);
    CofactorSmall(n, d, q, f);
    assert n == q * d;
    DividesProduct(q, d);
  }

  lemma QuotientAtLeastTwo(n: int, d: int, q: int)
    requires 2 <= d < n && n == d * q
    ensures q >= 2
  {
    MulSign(d, q);
  }

  lemma CofactorSmall(n: int, d: int, q: int, f: int)
    requires 0 < f <= d && q >= 2 && n == d * q && f * f > n
    ensures q < f
  {
    MulMonotone(f, d, q);
    assert f * q < f * f;
    MulCancel(f, q, f);
  }

  function Factorial(n: nat): (r: nat)
    ensures r >= 1
  {
    if n == 0 then 1 else n * Factorial(n - 1)
  }

  lemma {:induction false} FactorialDivisible(n: nat, d: int)
    requires 1 <= d <= n
    ensures Divides(d, Factorial(n))
  {
    DividesProduct(n, Factorial(n - 1));
    if d < n {
      FactorialDivisible(n - 1, d);
      assert Factorial(n) == Factorial(n - 1) * n;
      DividesProduct(Factorial(n - 1), n);
      DividesTransitive(d, Factorial(n - 1), Factorial(n));
    }
  }

  /** Every m >= 2 has a prime divisor. */
  lemma {:induction false} PrimeDivisor(m: int) returns (p: int)
    requires m >= 2
    ensures Prime(p) && Divides(p, m)
    decreases m
  {
    if Prime(m) {
      p := m;
      assert m % m == 0;
    } else {
      var d :| 2 <= d < m && Divides(d, m);
      p := PrimeDivisor(d);
      DividesTransitive(p, d, m);
    }
  }

  /** Euclid: above every n lies an odd prime, so `_next_prime` stops. */
  lemma OddPrimeAtLeast(n: nat) returns (p: int)
    ensures Prime(p) && p % 2 == 1 && p >= n
  {
    var k := if n < 2 then 2 else n;
    var f := Factorial(k);
    p := PrimeDivisor(f + 1);
    if p <= k {
      FactorialDivisible(k, p);
      var x, y := f / p, (f + 1) / p;
      assert f == p * x && f + 1 == p * y;
      assert p * (y - x) == 1;
      MulSign(p, y - x);
      assert false;
    }
    PrimeAboveTwoIsOdd(p);
  }
}
