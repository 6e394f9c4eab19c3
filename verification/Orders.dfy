/** Powers modulo a number: the order of an element, and a test that proves a number prime from an
    element of large prime order. */
module Orders {
  import opened Numbers

  function Power(b: nat, n: nat): nat
  {
    if n == 0 then 1 else b * Power(b, n - 1)
  }

  lemma {:induction false} PowerAdd(b: nat, i: nat, j: nat)
    ensures Power(b, i + j) == Power(b, i) * Power(b, j)
  {
    if i > 0 {
      PowerAdd(b, i - 1, j);
      Reassociate(b, Power(b, i - 1), Power(b, j));
    }
  }

  lemma ProductOfSums(x: int, y: int, n: int, a: int, r: int, c: int, s: int)
    requires x == n * a + r && y == n * c + s
    ensures x * y == r * s + n * (a * y + r * c)
  {
    Distribute(y, n * a, r);
    Reassociate(n, a, y);
    Distribute(r, n * c, s);
    Reassociate(r, n, c);
    Distribute(n, a * y, r * c);
  }

  lemma ModProduct(x: nat, y: nat, n: nat)
    requires n > 0
    ensures ((x % n) * (y % n)) % n == (x * y) % n
  {
    ResidueProduct(x, y, n, x / n, x % n, y / n, y % n);
  }

  lemma ResidueProduct(x: nat, y: nat, n: nat, a: nat, r: nat, c: nat, s: nat)
    requires n > 0 && x == n * a + r && y == n * c + s
    ensures (r * s) % n == (x * y) % n
  {
    ProductOfSums(x, y, n, a, r, c, s);
    AddMultiple(r * s, n, a * y + r * c);
  }

  lemma ZeroFactor(x: nat, y: nat, n: nat)
    requires n > 0 && x % n == 0
    ensures (x * y) % n == 0 && (y * x) % n == 0
  {
    var t := x / n;
    assert x == n * t;
    Reassociate(n, t, y);
    Reassociate(y, n, t);
    Swap(x, y);
    MultipleModulo(n, t * y);
  }

  lemma Swap(x: int, y: int)
    ensures x * y == y * x
  {}

  lemma PowerSplit(b: nat, i: nat, j: nat, n: nat)
    requires n > 0
    ensures Power(b, i + j) % n == ((Power(b, i) % n) * (Power(b, j) % n)) % n
  {
    PowerAdd(b, i, j);
    ModProduct(Power(b, i), Power(b, j), n);
  }

  // ---- exponents with power 1

  lemma OneTimes(b: nat, i: nat, j: nat, n: nat)
    requires n > 1 && Power(b, i) % n == 1
    ensures Power(b, i + j) % n == Power(b, j) % n
  {
    hide Power;
    PowerSplit(b, i, j, n);
    RemainderTwice(Power(b, j), n);
  }

  lemma RemainderTwice(x: int, n: int)
    requires n > 0
    ensures (x % n) % n == x % n
  {}

  lemma {:induction false} OneMultiple(b: nat, k: nat, t: nat, n: nat)
    requires n > 1 && Power(b, k) % n == 1
    ensures Power(b, k * t) % n == 1
  {
    if t == 0 {
      assert Power(b, k * 0) == 1;
    } else {
      OneMultiple(b, k, t - 1, n);
      OneTimes(b, k, k * (t - 1), n);
      Distribute(k, t - 1, 1);
    }
  }

  lemma OneRemainder(b: nat, q: nat, k: nat, n: nat)
    requires n > 1 && k > 0 && Power(b, k) % n == 1
    ensures Power(b, q) % n == Power(b, q % k) % n
  {
    hide Power;
    var t := q / k;
    assert q == k * t + q % k;
    OneMultiple(b, k, t, n);
    OneTimes(b, k * t, q % k, n);
  }

  lemma {:induction false} OrderOne(b: nat, n: nat, q: nat, k: nat)
    requires Prime(q) && n > 1 && 0 < k < q
    requires Power(b, q) % n == 1 && Power(b, k) % n == 1
    ensures b % n == 1
    decreases k
  {
    if k == 1 {
      assert Power(b, 1) == b * Power(b, 0) == b;
    } else {
      OneRemainder(b, q, k, n);
      assert q % k != 0;
      OrderOne(b, n, q, q % k);
    }
  }

  /** An element other than 1 with a prime power `q` equal to 1 has the order `q`. */
  lemma OrderIs(b: nat, n: nat, q: nat, k: nat)
    requires Prime(q) && n > 1 && Power(b, q) % n == 1 && b % n != 1
    ensures Power(b, k) % n == 1 <==> k % q == 0
  {
    hide Power, Prime;
    AboveOne(q);
    OneRemainder(b, k, q, n);
    var r := k % q;
    if r == 0 {
      PowerZero(b);
    } else if Power(b, k) % n == 1 {
      OrderOne(b, n, q, r);
    }
  }

  lemma PowerZero(b: nat)
    ensures Power(b, 0) == 1
  {}

  // ---- powers modulo a prime

  lemma BaseIsUnit(b: nat, p: nat, q: nat)
    requires p > 1 && q > 0 && Power(b, q) % p == 1
    ensures b % p != 0
  {
    if b % p == 0 { ZeroFactor(b, Power(b, q - 1), p); }
  }

  lemma {:induction false} PowerIsUnit(b: nat, p: nat, i: nat)
    requires Prime(p) && b % p != 0
    ensures Power(b, i) % p != 0
  {
    if i > 0 {
      PowerIsUnit(b, p, i - 1);
      if Power(b, i) % p == 0 { Euclid(p, b, Power(b, i - 1)); }
    }
  }

  lemma ProductLess(x: nat, y: nat)
    requires y > 0
    ensures x * y - x == x * (y - 1)
  {
    Distribute(x, y - 1, 1);
  }

  lemma OneMore(y: nat, p: nat)
    requires p > 1 && y > 0 && (y - 1) % p == 0
    ensures y % p == 1
  {
    var t := (y - 1) / p;
    assert y == p * t + 1;
    RemainderIs(y, p, t, 1);
  }

  /** Cancelling a factor modulo a prime. */
  lemma CancelModulo(p: nat, x: nat, y: nat)
    requires Prime(p) && x % p != 0 && y > 0 && (x * y) % p == x % p
    ensures y % p == 1
  {
    ProductLess(x, y);
    ProductMonotone(1, y, x);
    SameResidue(x, x * y, p);
    Euclid(p, x, y - 1);
    OneMore(y, p);
  }

  ghost function Powers(b: nat, p: nat, m: nat): set<nat>
    requires p > 0
  {
    set i | 0 <= i < m :: Power(b, i) % p
  }

  lemma CancelPower(b: nat, p: nat, i: nat, d: nat)
    requires Prime(p) && b % p != 0 && Power(b, i) % p == Power(b, i + d) % p
    ensures Power(b, d) % p == 1
  {
    hide Power, Prime;
    AboveOne(p);
    PowerAdd(b, i, d);
    PowerIsUnit(b, p, i);
    PowerIsUnit(b, p, d);
    NotZero(Power(b, d), p);
    CancelModulo(p, Power(b, i), Power(b, d));
  }

  lemma NotZero(x: nat, p: nat)
    requires p > 0 && x % p != 0
    ensures x > 0
  {}

  lemma PowersDiffer(b: nat, p: nat, q: nat, i: nat, j: nat)
    requires Prime(p) && Prime(q) && Power(b, q) % p == 1 && b % p != 1 && i < j < q
    ensures Power(b, i) % p != Power(b, j) % p
  {
    hide Power, Prime;
    AboveOne(p);
    AboveOne(q);
    BaseIsUnit(b, p, q);
    var d := j - i;
    assert j == i + d;
    if Power(b, i) % p == Power(b, j) % p {
      CancelPower(b, p, i, d);
      OrderOne(b, p, q, d);
    }
  }

  lemma AboveOne(p: nat)
    requires Prime(p)
    ensures p >= 2
  {}

  lemma {:induction false} PowersCount(b: nat, p: nat, q: nat, m: nat)
    requires Prime(p) && Prime(q) && Power(b, q) % p == 1 && b % p != 1 && m <= q
    ensures |Powers(b, p, m)| == m
  {
    hide Power, Prime;
    AboveOne(p);
    if m > 0 {
      PowersCount(b, p, q, m - 1);
      assert Powers(b, p, m) == Powers(b, p, m - 1) + {Power(b, m - 1) % p};
      forall i | 0 <= i < m - 1 ensures Power(b, i) % p != Power(b, m - 1) % p {
        PowersDiffer(b, p, q, i, m - 1);
      }
    }
  }

  /** A prime modulus is larger than the order of any element, for the powers are different and none
      of them is 0. */
  lemma OrderBelow(b: nat, p: nat, q: nat)
    requires Prime(p) && Prime(q) && Power(b, q) % p == 1 && b % p != 1
    ensures q < p
  {
    hide Power, Prime;
    AboveOne(p);
    AboveOne(q);
    BaseIsUnit(b, p, q);
    PowersCount(b, p, q, q);
    var s := Powers(b, p, q) + {0};
    forall i | 0 <= i < q ensures Power(b, i) % p != 0 { PowerIsUnit(b, p, i); }
    assert 0 !in Powers(b, p, q);
    assert s <= Range(p);
    SubsetCount(s, Range(p));
  }

  // ---- primality from an element of large order

  lemma ResidueOfFactor(x: nat, n: nat, p: nat, r: nat)
    requires n > 0 && p > 0 && n % p == 0 && x % n == r < p
    ensures x % p == r
  {
    var t, f := x / n, n / p;
    assert x == n * t + r && n == p * f;
    Reassociate(p, f, t);
    RemainderIs(x, p, f * t, r);
  }

  lemma ProductResidue(u: nat, c: nat, p: nat)
    requires p > 1 && (u * c) % p == 1
    ensures c % p != 0
  {
    if c % p == 0 { ZeroFactor(c, u, p); }
  }

  /** `n` is prime if it has an element of prime order `q` with `n < (q + 1)^2`, the element being
      different from 1 modulo every divisor of `n`. */
  lemma PrimeFromOrder(n: nat, q: nat, b: nat, u: nat)
    requires n >= 2 && b >= 1 && Prime(q) && n < (q + 1) * (q + 1)
    requires PowerIs(b, q, n, 1) && (u * (b - 1)) % n == 1
    ensures Prime(n)
  {
    hide Power, Prime, PowerModulo;
    PowerModuloIs(b, q, n);
    if !Prime(n) {
      var p := SmallPrimeFactor(n);
      AboveOne(p);
      ResidueOfFactor(Power(b, q), n, p, 1);
      ResidueOfFactor(u * (b - 1), n, p, 1);
      ProductResidue(u, b - 1, p);
      if b % p == 1 { OneLess(b, p); }
      OrderBelow(b, p, q);
      SquareMonotone(q + 1, p);
    }
  }

  lemma OneLess(b: nat, p: nat)
    requires p > 1 && b % p == 1
    ensures b >= 1 && (b - 1) % p == 0
  {
    var t := b / p;
    assert b == p * t + 1;
    MultipleModulo(p, t);
  }

  // ---- computing powers

  /** `b^k` modulo `n`, reduced at every step. */
  function PowerModulo(b: nat, k: nat, n: nat): (r: nat)
    requires n > 0
    ensures r < n
  {
    if k == 0 then 1 % n else (b * PowerModulo(b, k - 1, n)) % n
  }

  lemma {:induction false} PowerModuloIs(b: nat, k: nat, n: nat)
    requires n > 0
    ensures PowerModulo(b, k, n) == Power(b, k) % n
  {
    if k > 0 {
      PowerModuloIs(b, k - 1, n);
      ReduceSecond(b, Power(b, k - 1), n);
    }
  }

  lemma ReduceFirst(a: nat, d: nat, n: nat)
    requires n > 0
    ensures ((a % n) * d) % n == (a * d) % n
  {
    assert a == n * (a / n) + a % n && d == n * 0 + d;
    ResidueProduct(a, d, n, a / n, a % n, 0, d);
  }

  lemma ReduceSecond(d: nat, x: nat, n: nat)
    requires n > 0
    ensures (d * (x % n)) % n == (d * x) % n
  {
    assert x == n * (x / n) + x % n && d == n * 0 + d;
    ResidueProduct(d, x, n, 0, d, x / n, x % n);
  }

  /** `b^k` is `r` modulo `n`. */
  ghost predicate PowerIs(b: nat, k: nat, n: nat, r: nat)
    requires n > 0
  {
    PowerModulo(b, k, n) == r
  }

  /** Squaring, with the quotient `q` of the square. */
  lemma PowerDouble(b: nat, k: nat, n: nat, r: nat, q: nat, s: nat)
    requires s < n && PowerIs(b, k, n, r) && r * r == n * q + s
    ensures PowerIs(b, 2 * k, n, s)
  {
    hide Power, PowerModulo;
    PowerModuloIs(b, k, n);
    PowerModuloIs(b, 2 * k, n);
    PowerSplit(b, k, k, n);
    assert 2 * k == k + k;
    RemainderIs(r * r, n, q, s);
  }

  /** Squaring and multiplying once more. */
  lemma PowerDoubleNext(b: nat, k: nat, n: nat, r: nat, q: nat, t: nat, u: nat, s: nat)
    requires t < n && s < n && PowerIs(b, k, n, r) && r * r == n * q + t && t * b == n * u + s
    ensures PowerIs(b, 2 * k + 1, n, s)
  {
    hide PowerModulo;
    PowerDouble(b, k, n, r, q, t);
    PowerModuloIs(b, 2 * k, n);
    PowerModuloIs(b, 2 * k + 1, n);
    var x := Power(b, 2 * k);
    assert Power(b, 2 * k + 1) == b * x;
    Swap(b, x);
    assert x == n * (x / n) + t && b == n * 0 + b;
    ResidueProduct(x, b, n, x / n, t, 0, b);
    RemainderIs(t * b, n, u, s);
  }

  lemma PowerFirst(b: nat, n: nat)
    requires b < n
    ensures PowerIs(b, 1, n, b)
  {
    hide Power, PowerModulo;
    PowerModuloIs(b, 1, n);
    PowerOne(b);
    RemainderIs(b, n, 0, b);
  }

  lemma PowerOne(b: nat)
    ensures Power(b, 1) == b
  {
    assert Power(b, 1) == b * Power(b, 0);
  }
}
