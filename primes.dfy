/** Divisibility and primality on mathematical integers, and the largest prime
    divisor of a positive integer as a reference definition that is independent
    of the worker's trial-division loop. Divisibility is written as the worker
    writes it, `n % d == 0`. */
module Primes {

  /** `p` is prime: at least 2, and no divisor strictly between 1 and `p`. */
  predicate IsPrime(p: int) {
    p >= 2 && forall d :: 2 <= d < p ==> p % d != 0
  }

  /** A multiple of `d` leaves no remainder, and dividing it by `d` gives the multiplier back. */
  lemma MulMod(d: int, k: int)
    requires d > 0
    ensures (d * k) % d == 0 && (d * k) / d == k
  {
    var q, r := (d * k) / d, (d * k) % d;
    assert d * (k - q) == r;
    if k - q >= 1 {
      MulMonotone(d, d, 1, k - q);
    } else if k - q <= -1 {
      MulMonotone(d, d, 1, q - k);
    }
  }

  /** A positive number is at least as large as any of its positive divisors. */
  lemma DivisorAtMost(n: int, d: int)
    requires n >= 1 && d >= 1 && n % d == 0
    ensures d <= n
  {
  }

  /** Divisibility is transitive. */
  lemma DividesTrans(a: int, b: int, c: int)
    requires a > 0 && b > 0
    requires b % a == 0 && c % b == 0
    ensures c % a == 0
  {
    var i, j := b / a, c / b;
    assert c == b * j;
    assert b == a * i;
    assert c == a * (i * j);
    MulMod(a, i * j);
  }

  /** A multiple of a multiple of `d` is a multiple of `d`. */
  lemma DividesMul(d: int, x: int, m: int)
    requires d > 0 && x % d == 0
    ensures (x * m) % d == 0
  {
    var i := x / d;
    assert x == d * i;
    assert x * m == d * (i * m);
    MulMod(d, i * m);
  }

  /** The difference of two multiples of `d` is a multiple of `d`. */
  lemma DividesSub(d: int, x: int, y: int)
    requires d > 0 && x % d == 0 && y % d == 0
    ensures (x - y) % d == 0
  {
    var i, j := x / d, y / d;
    assert x - y == d * (i - j);
    MulMod(d, i - j);
  }

  /** Euclid's lemma when the first factor is positive and below `p`:
      then `p` must divide the second factor. */
  lemma {:induction false} EuclidBelow(p: int, a: int, b: int)
    requires IsPrime(p) && 0 < a < p
    requires (a * b) % p == 0
    ensures b % p == 0
    decreases a
  {
    if a > 1 {
      var t, s := p / a, p % a;
      assert s != 0;
      assert p == a * t + s;
      assert s * b == p * b - t * (a * b);
      MulMod(p, b);
      DividesMul(p, a * b, t);
      assert (t * (a * b)) % p == 0;
      DividesSub(p, p * b, t * (a * b));
      EuclidBelow(p, s, b);
    }
  }

  /** Euclid's lemma: a prime that divides a product divides one of its factors. */
  lemma Euclid(p: int, a: int, b: int)
    requires IsPrime(p) && (a * b) % p == 0
    ensures a % p == 0 || b % p == 0
  {
    var q, r := a / p, a % p;
    if r != 0 {
      assert a == p * q + r;
      assert r * b == a * b - p * (q * b);
      MulMod(p, q * b);
      DividesSub(p, a * b, p * (q * b));
      EuclidBelow(p, r, b);
    }
  }

  /** A number at least 2 with no divisor in `[2, c)`, where `c * c` exceeds it, is prime. */
  lemma NoSmallDivisorMeansPrime(v: int, c: int)
    requires v >= 2 && c >= 2 && c * c > v
    requires forall d :: 2 <= d < c ==> v % d != 0
    ensures IsPrime(v)
  {
    forall d | 2 <= d < v
      ensures v % d != 0
    {
      if v % d == 0 && d >= c {
        CofactorBelow(v, c, d);
      }
    }
  }

  /** When `d >= c` divides `v < c * c`, the cofactor `v / d` is a divisor of
      `v` in `[2, c)`. */
  lemma CofactorBelow(v: int, c: int, d: int)
    requires 2 <= d < v && c >= 2 && c * c > v && d >= c && v % d == 0
    ensures 2 <= v / d < c && v % (v / d) == 0
  {
    var e := v / d;
    assert v == d * e;
    assert e >= 2;
    MulMod(e, d);
    assert e * d == v;
    if e >= c {
      MulMonotone(c, d, c, e);
    }
  }

  lemma MulMonotone(a: int, b: int, c: int, e: int)
    requires 0 <= a <= b && 0 <= c <= e
    ensures a * c <= b * e
  {
  }

  /** The smallest divisor at least 2 of a number at least 2 is prime, so such a
      number has a prime divisor. */
  lemma {:induction false} HasPrimeDivisor(n: int)
    requires n >= 2
    ensures exists p :: IsPrime(p) && n % p == 0
    decreases n
  {
    if IsPrime(n) {
      assert n % n == 0;
    } else {
      var d :| 2 <= d < n && n % d == 0;
      HasPrimeDivisor(d);
      var p :| IsPrime(p) && d % p == 0;
      DividesTrans(p, d, n);
    }
  }

  /** The largest prime divisor of `n` that is at most `k`, or 1 when there is none. */
  function PrimeDivisorAtMost(n: int, k: int): (r: int)
    ensures r == 1 || (2 <= r <= k && IsPrime(r) && n % r == 0)
    ensures forall q :: r < q <= k && IsPrime(q) ==> n % q != 0
    decreases k
  {
    if k < 2 then 1
    else if IsPrime(k) && n % k == 0 then k
    else PrimeDivisorAtMost(n, k - 1)
  }

  /** The largest prime divisor of a positive `n`; 1 for `n == 1`, which has none. */
  function LargestPrimeDivisor(n: int): (r: int)
    requires n >= 1
    ensures r == 1 <==> n == 1
    ensures n >= 2 ==> IsPrime(r) && n % r == 0 && r <= n
    ensures forall q :: IsPrime(q) && n % q == 0 ==> q <= r
  {
    var r := PrimeDivisorAtMost(n, n);
    assert forall q :: IsPrime(q) && n % q == 0 ==> q <= n by {
      forall q | IsPrime(q) && n % q == 0 ensures q <= n {
        DivisorAtMost(n, q);
      }
    }
    if n >= 2 then
      HasPrimeDivisor(n);
      r
    else
      r
  }

  /** The three facts that pin down the largest prime divisor of `n >= 2`
      determine it uniquely. */
  lemma LargestPrimeDivisorUnique(n: int, r: int)
    requires n >= 1 && IsPrime(r) && n % r == 0
    requires forall q :: IsPrime(q) && n % q == 0 ==> q <= r
    ensures LargestPrimeDivisor(n) == r
  {
    DivisorAtMost(n, r);
    var l := LargestPrimeDivisor(n);
    assert r <= l;
  }

  /** A prime is its own largest prime divisor. */
  lemma LargestPrimeDivisorOfPrime(p: int)
    requires IsPrime(p)
    ensures LargestPrimeDivisor(p) == p
  {
    assert p % p == 0;
    LargestPrimeDivisorUnique(p, p);
  }
}
