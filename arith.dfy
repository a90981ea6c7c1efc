/** Number theory the prime encoding rests on: primality, divisibility
    (written as `x % p == 0`, the test the source itself uses), Euclid's
    lemma and the existence of arbitrarily large primes. */
module Arith {

  /** The textbook definition: at least 2, and no divisor strictly between 1 and n. */
  ghost predicate IsPrime(n: int) {
    n >= 2 && forall d :: 2 <= d < n ==> n % d != 0
  }

  /** Division with remainder has only one solution. */
  lemma ModUnique(x: int, p: int, q: int, r: int)
    requires p > 0 && x == p * q + r && 0 <= r < p
    ensures x % p == r && x / p == q
  {
    var t := q - x / p;
    assert p * t == x % p - r;
  }

  /** A multiple of p leaves no remainder. */
  lemma MultipleMod(p: int, k: int)
    requires p > 0
    ensures (p * k) % p == 0
  {
    ModUnique(p * k, p, k, 0);
  }

  lemma MulDivisible(x: int, k: int, p: int)
    requires p > 0 && x % p == 0
    ensures (x * k) % p == 0
  {
    var q := x / p;
    assert x == p * q;
    assert x * k == p * (q * k);
    MultipleMod(p, q * k);
  }

  lemma SubDivisible(x: int, y: int, p: int)
    requires p > 0 && x % p == 0 && y % p == 0
    ensures (x - y) % p == 0
  {
    var a, b := x / p, y / p;
    assert x - y == p * (a - b);
    MultipleMod(p, a - b);
  }

  lemma AddDivisible(x: int, y: int, p: int)
    requires p > 0 && x % p == 0 && y % p == 0
    ensures (x + y) % p == 0
  {
    var a, b := x / p, y / p;
    assert x + y == p * (a + b);
    MultipleMod(p, a + b);
  }

  /** Divisibility is transitive. */
  lemma DivisibleTrans(x: int, d: int, q: int)
    requires d > 0 && q > 0 && x % d == 0 && d % q == 0
    ensures x % q == 0
  {
    var a := x / d;
    assert x == d * a;
    MulDivisible(d, a, q);
  }

  /** A number strictly between 0 and p is not a multiple of p. */
  lemma SmallNotDivisible(r: int, p: int)
    requires 0 < r < p
    ensures r % p == r
  {
    ModUnique(r, p, 0, r);
  }

  /** Of two distinct primes, neither divides the other. */
  lemma DistinctPrimesCoprime(p: int, q: int)
    requires IsPrime(p) && IsPrime(q) && p != q
    ensures q % p != 0
  {
    if p > q {
      SmallNotDivisible(q, p);
    }
  }

  /** Multiplying by p a number p does not divide gives one p divides exactly once. */
  lemma OnceByNewFactor(acc: int, p: int)
    requires p > 0 && acc % p != 0
    ensures (acc * p) % p == 0 && ((acc * p) / p) % p != 0
  {
    ModUnique(acc * p, p, acc, 0);
  }

  /** Multiplying by a factor the prime p does not divide keeps p dividing exactly once. */
  lemma OnceKeptByOtherFactor(acc: int, q: int, p: int)
    requires IsPrime(p) && q > 0 && q % p != 0
    requires acc % p == 0 && (acc / p) % p != 0
    ensures (acc * q) % p == 0 && ((acc * q) / p) % p != 0
  {
    var a := acc / p;
    assert acc == p * a;
    assert acc * q == p * (a * q);
    ModUnique(acc * q, p, a * q, 0);
    if (a * q) % p == 0 {
      Euclid(p, a, q);
    }
  }

  /** Euclid's lemma: a prime dividing a product divides one of its factors. */
  lemma {:induction false} Euclid(p: int, a: int, b: int)
    requires IsPrime(p) && b > 0 && (a * b) % p == 0
    ensures a % p == 0 || b % p == 0
    decreases b
  {
    if b >= p {
      if b > p {
        assert a * (b - p) == a * b - a * p;
        MultipleMod(p, a);
        assert (a * p) % p == 0 by { assert a * p == p * a; }
        SubDivisible(a * b, a * p, p);
        Euclid(p, a, b - p);
        if (b - p) % p == 0 {
          MultipleMod(p, 1);
          AddDivisible(b - p, p, p);
        }
      } else {
        MultipleMod(p, 1);
      }
    } else if b == 1 {
      assert a * b == a;
    } else {
      var k, r := p / b, p % b;
      assert p == b * k + r;
      assert r != 0 by { assert p % b != 0; }
      assert a * r == a * p - (a * b) * k;
      assert (a * p) % p == 0 by { assert a * p == p * a; MultipleMod(p, a); }
      MulDivisible(a * b, k, p);
      SubDivisible(a * p, (a * b) * k, p);
      Euclid(p, a, r);
      SmallNotDivisible(r, p);
    }
  }

  /** Every integer from 2 on has a prime divisor. */
  lemma {:induction false} PrimeDivisor(m: int) returns (q: int)
    requires m >= 2
    ensures IsPrime(q) && q <= m && m % q == 0
    decreases m
  {
    if IsPrime(m) {
      q := m;
      MultipleMod(m, 1);
    } else {
      var d :| 2 <= d < m && m % d == 0;
      q := PrimeDivisor(d);
      DivisibleTrans(m, d, q);
    }
  }

  function Factorial(n: nat): (r: nat)
    ensures r >= 1
  {
    if n == 0 then 1 else n * Factorial(n - 1)
  }

  /** n! is a multiple of every number from 1 to n. */
  lemma {:induction false} FactorialDivisible(n: nat, d: int)
    requires 1 <= d <= n
    ensures Factorial(n) % d == 0
  {
    if d == n {
      MultipleMod(n, Factorial(n - 1));
    } else {
      FactorialDivisible(n - 1, d);
      MulDivisible(Factorial(n - 1), n, d);
      assert Factorial(n - 1) * n == Factorial(n);
    }
  }

  /** There is no largest prime: n! + 1 has a prime divisor above n. */
  lemma PrimeAtLeast(n: int) returns (p: int)
    ensures IsPrime(p) && p >= n
  {
    var k: nat := if n < 2 then 2 else n;
    var m := Factorial(k) + 1;
    p := PrimeDivisor(m);
    if p <= k {
      FactorialDivisible(k, p);
      ModUnique(m, p, Factorial(k) / p, 1);
    }
  }
}
