/** The prime source: a trial-division primality test and the generator of
    the first `count` primes, both written as the loops they are. */
module PrimeSource {
  import opened Arith

  /** No i with 2 <= i and i*i <= n divides n: the condition the trial loop checks. */
  ghost predicate NoSmallDivisor(n: int) {
    forall i :: 2 <= i && i * i <= n ==> n % i != 0
  }

  /** A positive product with one positive factor has a positive other factor. */
  lemma PositiveFactor(a: int, b: int)
    requires b > 0 && a * b > 0
    ensures a > 0
  {
  }

  /** The cofactor of a proper divisor is at least 2. */
  lemma CofactorAtLeastTwo(n: int, d: int, e: int)
    requires 2 <= d < n && n == d * e
    ensures e >= 2
  {
    assert (e - 1) * d == n - d;
    PositiveFactor(e - 1, d);
  }

  /** When d is above the square root of n = d * e, the cofactor e is not. */
  lemma CofactorBelowRoot(n: int, d: int, e: int)
    requires d >= 2 && e >= 2 && n == d * e && d * d > n
    ensures e * e <= n
  {
    assert (d - e) * d == d * d - n;
    PositiveFactor(d - e, d);
    assert n - e * e == e * (d - e);
  }

  /** A proper divisor d of n comes with a divisor m of n no larger than its square root:
      d itself, or its cofactor n / d. */
  lemma SmallPartner(n: int, d: int) returns (m: int)
    requires 2 <= d < n && n % d == 0
    ensures 2 <= m && m * m <= n && n % m == 0
  {
    var e := n / d;
    ModUnique(n, d, e, 0);
    CofactorAtLeastTwo(n, d, e);
    if d * d <= n {
      m := d;
    } else {
      CofactorBelowRoot(n, d, e);
      MultipleMod(e, d);
      assert e * d == n;
      m := e;
    }
  }

  /** Trial division up to the square root decides primality. */
  lemma SmallDivisorSuffices(n: int)
    requires n >= 2 && NoSmallDivisor(n)
    ensures IsPrime(n)
  {
    forall d | 2 <= d < n
      ensures n % d != 0
    {
      if n % d == 0 {
        var m := SmallPartner(n, d);
      }
    }
  }

  /** is_prime: false below 2, otherwise trial division by every i with i*i <= num,
      returning at the first divisor found. */
  method IsPrimeTrial(num: int) returns (b: bool)
    ensures b <==> num >= 2 && NoSmallDivisor(num)
    ensures b <==> IsPrime(num)
  {
    if num < 2 {
      return false;
    }
    var i := 2;
    while i * i <= num
      invariant 2 <= i
      invariant forall j :: 2 <= j < i ==> num % j != 0
    {
      if num % i == 0 {
        assert !IsPrime(num) by { assert i < num by { assert i * i >= 2 * i; } }
        return false;
      }
      i := i + 1;
    }
    assert NoSmallDivisor(num) by {
      forall j | 2 <= j && j * j <= num
        ensures num % j != 0
      {
      }
    }
    SmallDivisorSuffices(num);
    return true;
  }

  ghost predicate AllPrime(ps: seq<int>) {
    forall k :: 0 <= k < |ps| ==> IsPrime(ps[k])
  }

  predicate StrictlyIncreasing(ps: seq<int>) {
    forall j, k :: 0 <= j < k < |ps| ==> ps[j] < ps[k]
  }

  /** Every prime up to the last element appears in ps. */
  ghost predicate NoPrimeSkipped(ps: seq<int>) {
    ps != [] ==> forall n :: IsPrime(n) && n <= ps[|ps| - 1] ==> n in ps
  }

  /** ps are the first |ps| primes, in increasing order. */
  ghost predicate FirstPrimes(ps: seq<int>) {
    AllPrime(ps) && StrictlyIncreasing(ps) && NoPrimeSkipped(ps)
  }

  /** generate_primes: test 2, 3, 4, ... and keep the primes until there are `count`
      of them. A count of zero or less never enters the loop. */
  method GeneratePrimes(count: int) returns (primes: seq<int>)
    ensures |primes| == if count > 0 then count else 0
    ensures AllPrime(primes) && StrictlyIncreasing(primes)
    ensures NoPrimeSkipped(primes)
    ensures primes != [] ==> primes[0] == 2
  {
    primes := [];
    var num := 2;
    ghost var next := PrimeAtLeast(num);
    while |primes| < count
      invariant num >= 2
      invariant |primes| <= if count > 0 then count else 0
      invariant AllPrime(primes) && StrictlyIncreasing(primes)
      invariant forall k :: 0 <= k < |primes| ==> primes[k] < num
      invariant forall n :: IsPrime(n) && n < num ==> n in primes
      invariant IsPrime(next) && num <= next
      decreases count - |primes|, next - num
    {
      var isPrime := IsPrimeTrial(num);
      if isPrime {
        primes := primes + [num];
      }
      num := num + 1;
      if isPrime {
        next := PrimeAtLeast(num);
      }
    }
    if primes != [] {
      assert 2 <= primes[0] < num;
      assert 2 in primes by { assert IsPrime(2); }
      assert primes[0] == 2 by {
        var k :| 0 <= k < |primes| && primes[k] == 2;
      }
    }
  }

  /** The first k primes are determined by k: a second run of the generator cannot
      return anything else. */
  lemma {:induction false} FirstPrimesUnique(a: seq<int>, b: seq<int>)
    requires FirstPrimes(a) && FirstPrimes(b) && |a| == |b|
    ensures a == b
  {
    if a != [] {
      var n := |a|;
      // Each sequence lists exactly the primes up to its last element.
      forall k | 0 <= k < n ensures a[k] == b[k] {
        FirstPrimesAgree(a, b, k);
      }
    }
  }

  /** The k-th entries agree: by induction on k, each is the least prime above the previous one. */
  lemma {:induction false} FirstPrimesAgree(a: seq<int>, b: seq<int>, k: nat)
    requires FirstPrimes(a) && FirstPrimes(b) && k < |a| && k < |b|
    ensures a[k] == b[k]
  {
    if a[k] < b[k] {
      LaterPrimeMissing(a, b, k);
    } else if b[k] < a[k] {
      LaterPrimeMissing(b, a, k);
    }
  }

  /** If a[k] < b[k], the prime a[k] must appear in b strictly before index k, and in
      a it has k smaller primes: counting those gives the contradiction. */
  lemma {:induction false} LaterPrimeMissing(a: seq<int>, b: seq<int>, k: nat)
    requires FirstPrimes(a) && FirstPrimes(b) && k < |a| && k < |b|
    ensures a[k] >= b[k]
    decreases k
  {
    if a[k] < b[k] {
      // a[k] is a prime below b's last element, so it sits in b at some index j < k.
      assert a[k] in b;
      var j :| 0 <= j < |b| && b[j] == a[k];
      assert j < k;
      // Then b[..j] and a[..k] list primes below a[k]; every one of a[..k] is in b[..j].
      var sa := set i | 0 <= i < k :: a[i];
      var sb := set i | 0 <= i < j :: b[i];
      assert sa <= sb by {
        forall x | x in sa ensures x in sb {
          var i :| 0 <= i < k && a[i] == x;
          assert IsPrime(x) && x <= b[|b| - 1];
          assert x in b;
          var i' :| 0 <= i' < |b| && b[i'] == x;
          assert a[i] < a[k];
          assert i' < j;
        }
      }
      CardIndexSet(a, k);
      CardIndexSet(b, j);
      SubsetCard(sa, sb);
    }
  }

  /** A strictly increasing prefix of length k has k distinct values. */
  lemma {:induction false} CardIndexSet(s: seq<int>, k: nat)
    requires StrictlyIncreasing(s) && k <= |s|
    ensures |set i | 0 <= i < k :: s[i]| == k
  {
    if k > 0 {
      CardIndexSet(s, k - 1);
      var prev := set i | 0 <= i < k - 1 :: s[i];
      assert (set i | 0 <= i < k :: s[i]) == prev + {s[k - 1]};
      assert s[k - 1] !in prev;
    }
  }

  lemma SubsetCard(x: set<int>, y: set<int>)
    requires x <= y
    ensures |x| <= |y|
  {
    assert y == x + (y - x);
  }
}
