/** Division, primes and the integer square root on unbounded naturals: the mathematics that the
    prime tests, the stride order and the generators are specified with. */
module Numbers {

  function Min(a: nat, b: nat): nat
  {
    if a <= b then a else b
  }

  lemma {:induction false} ProductNonNegative(m: nat, d: nat)
    ensures m * d >= 0
  {
    if d > 0 {
      assert m * d == m * (d - 1) + m;
      ProductNonNegative(m, d - 1);
    }
  }

  lemma MultipleGap(m: int, d: int)
    requires m > 0
    ensures d > 0 ==> m * d >= m
    ensures d < 0 ==> m * d <= -m
  {
    if d > 0 {
      ProductNonNegative(m, d - 1);
      assert m * d == m * (d - 1) + m;
    } else if d < 0 {
      ProductNonNegative(m, -d - 1);
      assert m * d == -(m * (-d - 1)) - m;
    }
  }

  /** Quotient and remainder are unique. */
  lemma RemainderIs(x: int, m: int, q: int, r: int)
    requires m > 0 && x == m * q + r && 0 <= r < m
    ensures x % m == r && x / m == q
  {
    var d := x / m - q;
    assert m * d == r - x % m by { assert x == m * (x / m) + x % m; }
    MultipleGap(m, d);
  }

  lemma Reassociate(a: int, b: int, c: int)
    ensures (a * b) * c == b * (a * c) && (a * b) * c == a * (b * c)
  {}

  lemma Distribute(a: int, b: int, c: int)
    ensures a * (b + c) == a * b + a * c
  {}

  lemma MultipleModulo(m: int, q: int)
    requires m > 0
    ensures (m * q) % m == 0 && (m * q) / m == q
  {
    RemainderIs(m * q, m, q, 0);
  }

  /** Adding a multiple of the modulus changes nothing. */
  lemma AddMultiple(x: int, m: int, q: int)
    requires m > 0
    ensures (x + m * q) % m == x % m
  {
    assert x + m * q == m * (x / m + q) + x % m by { assert x == m * (x / m) + x % m; }
    RemainderIs(x + m * q, m, x / m + q, x % m);
  }

  lemma SameResidue(u: nat, v: nat, n: nat)
    requires n > 0 && u <= v && u % n == v % n
    ensures (v - u) % n == 0
  {
    ResidueDifference(u, v, n, u / n, v / n, u % n);
  }

  lemma ResidueDifference(u: int, v: int, n: int, a: int, b: int, r: int)
    requires n > 0 && u == n * a + r && v == n * b + r
    ensures (v - u) % n == 0
  {
    Distribute(n, b, -a);
    MultipleModulo(n, b - a);
  }

  /** Divisors of the divisor are divisors. */
  lemma DividesTransitive(d: nat, e: nat, n: nat)
    requires d > 0 && e > 0 && e % d == 0 && n % e == 0
    ensures n % d == 0
  {
    var u, v := e / d, n / e;
    assert n == d * (u * v) by { assert e == d * u && n == e * v; }
    MultipleModulo(d, u * v);
  }

  ghost predicate Prime(n: nat)
  {
    n >= 2 && forall d :: 2 <= d < n ==> n % d != 0
  }

  lemma {:induction false} PrimeFactor(n: nat) returns (p: nat)
    requires n >= 2
    ensures Prime(p) && n % p == 0 && p <= n
  {
    if Prime(n) {
      p := n;
    } else {
      var d :| 2 <= d < n && n % d == 0;
      p := PrimeFactor(d);
      DividesTransitive(p, d, n);
    }
  }

  lemma {:induction false} ProductMonotone(a: nat, b: nat, c: nat)
    requires a <= b
    ensures a * c <= b * c && c * a <= c * b
  {
    ProductNonNegative(b - a, c);
    assert b * c == a * c + (b - a) * c;
  }

  lemma CofactorBounds(n: nat, d: nat, e: nat)
    requires n == d * e && 2 <= d < n
    ensures 2 <= e < n
  {
    if e <= 1 { ProductMonotone(e, 1, d); }
    ProductMonotone(2, d, e);
  }

  lemma SmallDivisor(n: nat, d: nat) returns (f: nat)
    requires 2 <= d < n && n % d == 0
    ensures 2 <= f < n && n % f == 0 && f * f <= n
  {
    var e := n / d;
    assert n == d * e;
    CofactorBounds(n, d, e);
    if d <= e {
      f := d;
      ProductMonotone(d, e, d);
    } else {
      f := e;
      MultipleModulo(e, d);
      ProductMonotone(e, d, e);
    }
  }

  lemma SquareMonotone(a: nat, b: nat)
    requires a <= b
    ensures a * a <= b * b
  {
    ProductMonotone(a, b, a);
    ProductMonotone(a, b, b);
  }

  /** A composite number has a prime factor not above its square root. */
  lemma SmallPrimeFactor(n: nat) returns (p: nat)
    requires n >= 2 && !Prime(n)
    ensures Prime(p) && n % p == 0 && p * p <= n && p < n
  {
    var d :| 2 <= d < n && n % d == 0;
    var f := SmallDivisor(n, d);
    p := PrimeFactor(f);
    DividesTransitive(p, f, n);
    SquareMonotone(p, f);
  }

  lemma ReduceFactor(p: nat, a: nat, b: nat)
    requires p > 0 && a > 0 && (a * b) % p == 0
    ensures ((p % a) * b) % p == 0 && ((a % p) * b) % p == 0
  {
    var q, k := p / a, (a * b) / p;
    calc {
      (p % a) * b;
      { assert p == a * q + p % a; }
      (p - a * q) * b;
      p * b - q * (a * b);
      { assert a * b == p * k; }
      p * b - q * (p * k);
      p * (b - q * k);
    }
    MultipleModulo(p, b - q * k);
    calc {
      a * b;
      { assert a == p * (a / p) + a % p; }
      (p * (a / p) + a % p) * b;
      (a % p) * b + p * ((a / p) * b);
    }
    AddMultiple((a % p) * b, p, (a / p) * b);
  }

  lemma {:induction false} EuclidReduced(p: nat, a: nat, b: nat)
    requires Prime(p) && 0 < a < p && (a * b) % p == 0
    ensures b % p == 0
    decreases a
  {
    if a == 1 {
      assert a * b == b;
    } else {
      ReduceFactor(p, a, b);
      var r := p % a;
      assert r != 0;
      EuclidReduced(p, r, b);
    }
  }

  /** Euclid's lemma. */
  lemma Euclid(p: nat, a: nat, b: nat)
    requires Prime(p) && (a * b) % p == 0 && a % p != 0
    ensures b % p == 0
  {
    ReduceFactor(p, a, b);
    EuclidReduced(p, a % p, b);
  }

  lemma DifferentPrimes(p: nat, q: nat)
    requires Prime(p) && Prime(q) && p != q
    ensures p % q != 0
  {
    if p % q == 0 && q > p { RemainderIs(p, q, 0, p); }
  }

  /** The integer square root. */
  function ISqrt(n: nat): (s: nat)
    ensures s * s <= n < (s + 1) * (s + 1)
  {
    if n == 0 then 0
    else
      var s := ISqrt(n - 1);
      if (s + 1) * (s + 1) <= n then s + 1 else s
  }

  lemma ISqrtBound(d: nat, n: nat)
    ensures d * d <= n <==> d <= ISqrt(n)
  {
    var s := ISqrt(n);
    if d <= s { SquareMonotone(d, s); } else { SquareMonotone(s + 1, d); }
  }

  lemma ISqrtIs(n: nat, s: nat)
    requires s * s <= n < (s + 1) * (s + 1)
    ensures ISqrt(n) == s
  {
    ISqrtBound(s, n);
    ISqrtBound(s + 1, n);
  }

  /** Trial division up to the square root decides primality. */
  lemma PrimeByTrial(n: nat)
    requires n >= 2 && forall d :: 2 <= d <= ISqrt(n) ==> n % d != 0
    ensures Prime(n)
  {
    if !Prime(n) {
      var p := SmallPrimeFactor(n);
      ISqrtBound(p, n);
      assert false;
    }
  }

  // ---- counting

  /** The numbers below `n`. */
  ghost function Range(n: nat): (s: set<nat>)
    ensures |s| == n && forall c: nat :: c in s <==> c < n
  {
    if n == 0 then {} else Range(n - 1) + {n - 1}
  }

  lemma SubsetCount<T>(a: set<T>, b: set<T>)
    requires a <= b
    ensures |a| <= |b| && (|a| == |b| ==> a == b)
  {
    assert b == a + (b - a);
    assert |b| == |a| + |b - a|;
  }
}
