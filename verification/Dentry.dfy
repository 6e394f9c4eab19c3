/** The directory stressor: files named by Gray codes, removed in one of three orders, with a static
    prime as the stride of the third. */
module Dentry {
  import opened Numbers
  import opened Words
  import opened Primes

  const MAX_DENTRIES := 1_000_000

  // ---- names

  /** `(k >> 1) ^ k`. */
  function Gray(k: nat): nat
  {
    Xor(k / 2, k)
  }

  /** The number in the name of entry `k`. */
  function Name(k: nat): nat
  {
    2 * Gray(k)
  }

  lemma {:induction false} XorHalves(x: nat, y: nat)
    ensures Xor(x, y) % 2 == (if x % 2 == y % 2 then 0 else 1)
    ensures Xor(x, y) / 2 == Xor(x / 2, y / 2)
  {
    if x != 0 && y != 0 {
      var q := Xor(x / 2, y / 2);
      var b := if x % 2 == y % 2 then 0 else 1;
      assert Xor(x, y) == b + 2 * q;
      HalfOf(b, q);
    }
  }

  lemma HalfOf(b: nat, q: nat)
    requires b < 2
    ensures (b + 2 * q) / 2 == q && (b + 2 * q) % 2 == b
  {}

  lemma {:induction false} GrayInjective(k: nat, l: nat)
    requires Gray(k) == Gray(l)
    ensures k == l
    decreases k + l
  {
    XorHalves(k / 2, k);
    XorHalves(l / 2, l);
    if k > 0 || l > 0 {
      GrayInjective(k / 2, l / 2);
    }
  }

  lemma GrayParts(k: nat)
    ensures Gray(k) / 2 == Gray(k / 2)
    ensures Gray(k) % 2 == if (k / 2) % 2 == k % 2 then 0 else 1
  {
    XorHalves(k / 2, k);
  }

  /** The codes of neighbours differ in exactly one binary digit. */
  lemma {:induction false} GrayNeighbours(k: nat) returns (i: nat)
    ensures forall j: nat :: (Bit(Gray(k), j) <==> Bit(Gray(k + 1), j)) <==> j != i
    decreases k
  {
    hide Gray;
    GrayParts(k);
    GrayParts(k + 1);
    if k % 2 == 0 {
      i := 0;
    } else {
      assert (k + 1) / 2 == k / 2 + 1;
      i := GrayNeighbours(k / 2);
      i := i + 1;
    }
    forall j: nat ensures (Bit(Gray(k), j) <==> Bit(Gray(k + 1), j)) <==> j != i {
      if j > 0 { assert Bit(Gray(k), j) == Bit(Gray(k / 2), j - 1); }
    }
  }

  lemma GrayBound(k: nat, w: nat)
    requires k < Pow2(w)
    ensures Gray(k) < Pow2(w)
  {
    XorBound(k / 2, k, w);
  }

  /** The code is reflected: the second half of the codes of `w + 1` digits is the first half backwards,
      with the top digit set. */
  lemma {:induction false} GrayReflected(k: nat, w: nat)
    requires k < Pow2(w)
    ensures Gray(Pow2(w + 1) - 1 - k) == Gray(k) + Pow2(w)
    decreases w
  {
    hide Gray;
    var r := Pow2(w + 1) - 1 - k;
    GrayParts(k);
    GrayParts(r);
    if w == 0 {
      FirstCodes();
    } else {
      MirrorHalves(k, Pow2(w - 1));
      assert Pow2(w) == 2 * Pow2(w - 1) && Pow2(w + 1) == 4 * Pow2(w - 1);
      GrayReflected(k / 2, w - 1);
    }
  }

  lemma FirstCodes()
    ensures Gray(0) == 0 && Gray(1) == 1
  {}

  lemma MirrorHalves(k: nat, p: nat)
    requires k < 2 * p
    ensures (4 * p - 1 - k) / 2 == 2 * p - 1 - k / 2
    ensures (4 * p - 1 - k) % 2 == 1 - k % 2 && (2 * p - 1 - k / 2) % 2 == 1 - (k / 2) % 2
  {
    var h := k / 2;
    RemainderIs(4 * p - 1 - k, 2, 2 * p - 1 - h, 1 - k % 2);
    RemainderIs(2 * p - 1 - h, 2, p - 1 - h / 2, 1 - h % 2);
  }

  ghost function Grays(n: nat): set<nat>
  {
    set k | 0 <= k < n :: Gray(k)
  }

  lemma {:induction false} GraysCount(n: nat)
    ensures |Grays(n)| == n
  {
    hide Gray;
    if n > 0 {
      GraysCount(n - 1);
      assert Grays(n) == Grays(n - 1) + {Gray(n - 1)};
      if Gray(n - 1) in Grays(n - 1) {
        var k :| 0 <= k < n - 1 && Gray(k) == Gray(n - 1);
        GrayInjective(k, n - 1);
      }
    }
  }

  /** The codes of all numbers of `w` digits are all numbers of `w` digits. */
  lemma GrayPermutes(w: nat)
    ensures Grays(Pow2(w)) == Range(Pow2(w))
  {
    hide Gray;
    GraysCount(Pow2(w));
    forall k: nat | k < Pow2(w) ensures Gray(k) < Pow2(w) { GrayBound(k, w); }
    SubsetCount(Grays(Pow2(w)), Range(Pow2(w)));
  }

  /** The numbers in the names are even, and their halves are the codes. */
  lemma NameIsCode(k: nat)
    ensures Name(k) % 2 == 0 && Name(k) / 2 == Gray(k)
  {
    hide Gray;
  }

  ghost function Names(n: nat): set<nat>
  {
    set k | 0 <= k < n :: Name(k)
  }

  /** Names of different entries are different. */
  lemma NameInjective(k: nat, l: nat)
    requires Name(k) == Name(l)
    ensures k == l
  {
    GrayInjective(k, l);
  }

  // ---- the stride

  /** The entry visited in turn `i` of the stride order. */
  function Visit(p: nat, n: nat, i: nat): (k: nat)
    requires n > 0
    ensures k < n
  {
    (p * (i + 1)) % n
  }

  /** The visits start at the prime, go on in strides of it, and end at entry 0. */
  lemma VisitsStride(p: nat, n: nat, i: nat)
    requires n > 0
    ensures Visit(p, n, 0) == p % n && Visit(p, n, n - 1) == 0
    ensures Visit(p, n, i + 1) == (Visit(p, n, i) + p) % n
  {
    assert p * (0 + 1) == p && n - 1 + 1 == n;
    MultipleModulo(n, p);
    assert p * n == n * p;
    var u := p * (i + 1);
    Distribute(p, i + 1, 1);
    AddMultiple(u % n + p, n, u / n);
    assert u == n * (u / n) + u % n;
  }

  ghost function Visited(p: nat, n: nat, m: nat): set<nat>
    requires n > 0
  {
    set i | 0 <= i < m :: Visit(p, n, i)
  }

  lemma StrideStep(p: nat, n: nat, d: nat)
    requires Prime(p) && n > 0 && n % p != 0 && (p * d) % n == 0
    ensures d % n == 0
  {
    var q := (p * d) / n;
    assert p * d == n * q;
    MultipleModulo(p, d);
    Euclid(p, n, q);
    var r := q / p;
    assert q == p * r;
    Reassociate(n, p, r);
    Reassociate(p, n, r);
    assert p * d == p * (n * r);
    CancelFactor(p, d, n * r);
    MultipleModulo(n, r);
  }

  lemma CancelFactor(p: nat, a: nat, b: nat)
    requires p > 0 && p * a == p * b
    ensures a == b
  {
    Distribute(p, a, -(b as int));
    MultipleGap(p, a - b);
  }

  lemma ResidueGap(p: nat, n: nat, a: nat, d: nat)
    requires n > 0 && (p * a) % n == (p * (a + d)) % n
    ensures (p * d) % n == 0
  {
    var u, v := p * a, p * d;
    assert p * (a + d) == u + v by { Distribute(p, a, d); }
    SameResidue(u, u + v, n);
  }

  lemma SmallResidue(d: nat, n: nat)
    requires 0 < d < n
    ensures d % n != 0
  {}

  lemma VisitsDiffer(p: nat, n: nat, i: nat, j: nat)
    requires Prime(p) && n > 0 && n % p != 0 && i < j < n
    ensures Visit(p, n, i) != Visit(p, n, j)
  {
    hide Prime;
    SmallResidue(j - i, n);
    if Visit(p, n, i) == Visit(p, n, j) {
      ResidueGap(p, n, i + 1, j - i);
      StrideStep(p, n, j - i);
    }
  }

  lemma {:induction false} VisitedCount(p: nat, n: nat, m: nat)
    requires Prime(p) && n > 0 && n % p != 0 && m <= n
    ensures |Visited(p, n, m)| == m
  {
    if m > 0 {
      VisitedCount(p, n, m - 1);
      assert Visited(p, n, m) == Visited(p, n, m - 1) + {Visit(p, n, m - 1)};
      forall i | 0 <= i < m - 1 ensures Visit(p, n, i) != Visit(p, n, m - 1) {
        VisitsDiffer(p, n, i, m - 1);
      }
    }
  }

  lemma DifferenceOfMultiples(p: int, m: int, q: int, a: int, r: int)
    requires p > 0 && r == p * a - (p * m) * q
    ensures r % p == 0
  {
    Reassociate(m, p, q);
    Reassociate(p, m, q);
    Distribute(p, a, -(m * q));
    MultipleModulo(p, a - m * q);
  }

  lemma MultiplesOnly(p: nat, n: nat, i: nat)
    requires p > 0 && n > 0 && n % p == 0
    ensures Visit(p, n, i) % p == 0
  {
    var u := p * (i + 1);
    assert n == p * (n / p);
    assert u % n == u - n * (u / n);
    DifferenceOfMultiples(p, n / p, u / n, i + 1, u % n);
  }

  lemma AllVisited(p: nat, n: nat)
    requires Prime(p) && n > 0 && n % p != 0
    ensures Visited(p, n, n) == Range(n)
  {
    hide Prime, Visit;
    VisitedCount(p, n, n);
    assert Visited(p, n, n) <= Range(n);
    SubsetCount(Visited(p, n, n), Range(n));
  }

  lemma OneNotVisited(p: nat, n: nat)
    requires p >= 2 && n > 0 && n % p == 0
    ensures 1 !in Visited(p, n, n) && 1 < n
  {
    hide Visit;
    forall i | 0 <= i < n ensures Visit(p, n, i) != 1 {
      MultiplesOnly(p, n, i);
      SmallResidue(1, p);
    }
    if n == 1 { SmallResidue(1, p); }
  }

  /** `n` turns of the stride order visit every entry exactly if the prime does not divide `n`. */
  lemma StrideCovers(p: nat, n: nat)
    requires Prime(p) && n > 0
    ensures Visited(p, n, n) == Range(n) <==> n % p != 0
  {
    hide Visited, Range;
    if n % p != 0 {
      AllVisited(p, n);
    } else {
      OneNotVisited(p, n);
      assert 1 in Range(n);
    }
  }

  // ---- the stride prime

  /** stress_is_prime64. */
  method StressIsPrime64(n: nat) returns (r: bool)
    ensures r <==> Prime(n)
  {
    hide Prime, NoDivisorBelow, ISqrt;
    if n <= 3 {
      SmallPrimes(n);
      return n >= 2;
    }
    if n % 2 == 0 || n % 3 == 0 {
      HasDivisor(n, if n % 2 == 0 then 2 else 3);
      return false;
    }
    var max := ISqrt(n) + 1;
    NoneBelowFive(n);
    RootPlusTwo(n);
    var i := 5;
    while i < max
      invariant i % 6 == 5 && NoDivisorBelow(n, i)
      decreases max - i
    {
      if n % i == 0 || n % (i + 2) == 0 {
        HasDivisor(n, if n % i == 0 then i else i + 2);
        return false;
      }
      SixStep(n, i);
      i := i + 6;
    }
    TrialEnd(n, i);
    return true;
  }

  /** `p += 2` in an unsigned int. */
  function NextOdd(p: Word): Word
  {
    (p + 2) % TWO32
  }

  lemma NextOddIs(p: Word)
    requires p % 2 == 1
    ensures NextOdd(p) % 2 == 1
    ensures NextOdd(p) == if p + 2 < TWO32 then p + 2 else 1
  {}

  /** The static variable of stress_get_prime64, an unsigned int. */
  class Stride {
    var p: Word

    ghost predicate Valid()
      reads this
    {
      Prime(p) && p % 2 == 1
    }

    constructor ()
      ensures Valid() && p == 1009
    {
      p := 1009;
      new;
      Prime1009();
    }

    /** stress_get_prime64: the static prime, moved on first if it is `n` itself.  The search ends even
        if no larger prime fits 32 bits: the variable then wraps around and stops at 3. */
    method GetPrime64(n: nat) returns (q: Word)
      requires Valid()
      modifies this
      ensures Valid() && q == p
      ensures n != old(p) ==> p == old(p)
      ensures n == old(p) ==> p == Successor(n) && p != old(p) && n % p != 0
    {
      if n != p {
        return p;
      }
      hide Prime, NoPrimeBetween, NextOdd, Successor;
      OddPrime(n);
      EmptyRange(n);
      while true
        invariant p % 2 == 1 && (p == 1 || p >= n)
        invariant NoPrimeBetween(n, if p == 1 then TWO32 - 1 else p)
        decreases if p == 1 then 0 else TWO32 - p
      {
        ghost var before := p;
        p := NextOdd(p);
        NextOddIs(before);
        if before == 1 {
          WrappedSearch(n);
        } else if before + 2 < TWO32 {
          SkipEven(n, before);
          SmallResidue(n, p);
        }
        if n % p != 0 {
          var prime := StressIsPrime64(p);
          if prime {
            if before == 1 { SuccessorWraps(n); } else { SuccessorIs(n, p); }
            return p;
          }
        }
        if before != 1 && before + 2 < TWO32 { ExtendSearch(n, p); }
      }
    }
  }

  /** No prime lies above `n` up to `p`. */
  ghost predicate NoPrimeBetween(n: nat, p: nat)
  {
    forall r: nat :: n < r <= p ==> !Prime(r)
  }

  ghost predicate IsNext(n: nat, q: nat)
  {
    n < q < TWO32 && Prime(q) && NoPrimeBetween(n, q - 1)
  }

  /** The stride prime after `n`: the next larger prime of 32 bits, or 3 if there is none. */
  ghost function Successor(n: nat): (r: Word)
    ensures r > 0
  {
    if q: nat :| IsNext(n, q) then q else 3
  }

  lemma SuccessorIs(n: nat, q: nat)
    requires n < q < TWO32 && Prime(q) && NoPrimeBetween(n, q - 1)
    ensures Successor(n) == q
  {
    assert IsNext(n, q);
    var r: nat := Successor(n);
    assert IsNext(n, r);
  }

  lemma SuccessorWraps(n: nat)
    requires NoPrimeBetween(n, TWO32 - 1)
    ensures Successor(n) == 3
  {}

  lemma {:induction false} NextBelow(n: nat, r: nat)
    requires n < r < TWO32 && Prime(r)
    ensures exists q: nat :: IsNext(n, q)
    decreases r
  {
    hide Prime;
    if NoPrimeBetween(n, r - 1) {
      assert IsNext(n, r);
    } else {
      var q: nat :| n < q <= r - 1 && Prime(q);
      NextBelow(n, q);
    }
  }

  /** The stride prime after a prime does not divide it. */
  lemma SuccessorAvoids(n: nat)
    requires Prime(n) && n % 2 == 1
    ensures Successor(n) != n && n % Successor(n) != 0
  {
    if q: nat :| IsNext(n, q) {
      var r: nat := Successor(n);
      assert IsNext(n, r);
      SmallResidue(n, r);
    } else {
      forall r: nat | n < r <= TWO32 - 1 ensures !Prime(r) {
        if Prime(r) { NextBelow(n, r); }
      }
      SuccessorWraps(n);
      WrappedSearch(n);
    }
  }

  lemma EmptyRange(n: nat)
    ensures NoPrimeBetween(n, n)
  {}

  lemma SkipEven(n: nat, p: nat)
    requires p % 2 == 1 && p >= 3 && NoPrimeBetween(n, p)
    ensures NoPrimeBetween(n, p + 1)
  {
    HasDivisor(p + 1, 2);
  }

  lemma ExtendSearch(n: nat, p: nat)
    requires p > 0 && NoPrimeBetween(n, p - 1) && !Prime(p)
    ensures NoPrimeBetween(n, p)
  {}

  lemma OddPrime(n: nat)
    requires Prime(n) && n % 2 == 1
    ensures n >= 3
  {}

  /** Once the search has wrapped around it stops at 3. */
  lemma WrappedSearch(n: nat)
    requires Prime(n) && n % 2 == 1 && NoPrimeBetween(n, TWO32 - 1)
    ensures n % 3 != 0 && Prime(3)
  {
    SmallPrimes(3);
    NoneBelowFive(5);
    ISqrtIs(5, 2);
    TrialEnd(5, 5);
    assert n != 3;
  }

  lemma Prime1009()
    ensures Prime(1009)
  {
    NoneBelowFive(1009);
    SixStep(1009, 5);
    SixStep(1009, 11);
    SixStep(1009, 17);
    SixStep(1009, 23);
    SixStep(1009, 29);
    ISqrtIs(1009, 31);
    TrialEnd(1009, 35);
  }

  // ---- creating and removing

  const ORDER_REVERSE := 1
  const ORDER_STRIDE := 2
  const ORDER_RANDOM := 3

  /** The names of the entries visited in the first `m` turns of the stride order. */
  ghost function StrideNames(p: nat, n: nat, m: nat): set<nat>
    requires n > 0
  {
    set i | 0 <= i < m :: Name(Visit(p, n, i))
  }

  lemma AtLeastTwo(p: nat)
    requires Prime(p)
    ensures p >= 2
  {}

  lemma StrideNamesCover(p: nat, n: nat)
    requires Prime(p) && n > 0
    ensures StrideNames(p, n, n) == Names(n) <==> n % p != 0
    ensures StrideNames(p, n, n) <= Names(n)
  {
    hide Visit, Gray, Prime;
    AtLeastTwo(p);
    StrideCovers(p, n);
    if n % p != 0 {
      forall x | x in Names(n) ensures x in StrideNames(p, n, n) {
        var k :| 0 <= k < n && Name(k) == x;
        assert k in Visited(p, n, n);
      }
    } else {
      OneNotVisited(p, n);
      assert Name(1) in Names(n);
      if Name(1) in StrideNames(p, n, n) {
        var i :| 0 <= i < n && Name(Visit(p, n, i)) == Name(1);
        NameInjective(Visit(p, n, i), 1);
      }
    }
  }

  /** The names of the entries whose number is a multiple of `p`. */
  ghost function MultipleNames(p: nat, n: nat): set<nat>
    requires p > 0
  {
    set k | 0 <= k < n && k % p == 0 :: Name(k)
  }

  lemma MultipleVisited(p: nat, n: nat, k: nat) returns (i: nat)
    requires p > 0 && k < n && n % p == 0 && k % p == 0
    ensures i < n && Visit(p, n, i) == k
  {
    var q := if k == 0 then n / p else k / p;
    assert p * q == if k == 0 then n else k;
    if q > n { ProductMonotone(n + 1, q, p); ProductMonotone(1, p, n + 1); }
    i := q - 1;
    if k == 0 { MultipleModulo(n, 1); } else { RemainderIs(k, n, 0, k); }
  }

  /** If the prime divides `n`, the strides visit exactly the multiples of the prime. */
  lemma StrideNamesMultiples(p: nat, n: nat)
    requires p > 0 && n > 0 && n % p == 0
    ensures StrideNames(p, n, n) == MultipleNames(p, n)
  {
    hide Visit, Name;
    forall i | 0 <= i < n ensures Name(Visit(p, n, i)) in MultipleNames(p, n) {
      MultiplesOnly(p, n, i);
    }
    forall k: nat | k < n && k % p == 0 ensures Name(k) in StrideNames(p, n, n) {
      var i := MultipleVisited(p, n, k);
    }
  }

  // ---- what a removal takes away, from what a caller knows before it

  /** The order of one removal. */
  function Order(order: nat, random: nat): nat
  {
    if order == ORDER_RANDOM then random % 3 else order
  }

  /** A random order is one of the three, each of which can come up; any other order is kept. */
  lemma OrderChoice(order: nat, random: nat)
    ensures order != ORDER_RANDOM ==> Order(order, random) == order
    ensures Order(ORDER_RANDOM, random) < 3 && (random < 3 ==> Order(ORDER_RANDOM, random) == random)
  {}

  type Positive = x: nat | 0 < x < 0x1_0000_0000 witness 1

  /** The one case in which a removal misses names, `p` being the stride prime before it: the prime is
      a proper divisor of `n`. */
  predicate StrideMisses(ord: nat, n: nat, p: Positive)
  {
    ord == ORDER_STRIDE && n > 0 && n % p == 0 && n != p
  }

  ghost function Removed(ord: nat, n: nat, p: Positive): set<nat>
  {
    if StrideMisses(ord, n, p) then MultipleNames(p, n) else Names(n)
  }

  ghost function PrimeAfter(ord: nat, n: nat, p: Positive): Positive
  {
    if ord == ORDER_STRIDE && n == p then Successor(n) else p
  }

  lemma RemovedByStride(n: nat, p: Positive)
    requires Prime(p) && p % 2 == 1 && n > 0
    requires Prime(PrimeAfter(ORDER_STRIDE, n, p))
    ensures StrideNames(PrimeAfter(ORDER_STRIDE, n, p), n, n) == Removed(ORDER_STRIDE, n, p)
  {
    hide StrideNames, MultipleNames, Names, Prime, Successor;
    var q := PrimeAfter(ORDER_STRIDE, n, p);
    StrideNamesCover(q, n);
    if n == p {
      SuccessorAvoids(n);
    } else if n % p == 0 {
      StrideNamesMultiples(p, n);
    }
  }

  /** A removal that misses names leaves that of entry 1. */
  lemma MissedName(ord: nat, n: nat, p: Positive)
    requires StrideMisses(ord, n, p) && p >= 2
    ensures n >= 2 && Name(1) in Names(n) && Name(1) !in Removed(ord, n, p)
  {
    hide Name;
    if Name(1) in MultipleNames(p, n) {
      var k :| 0 <= k < n && k % p == 0 && Name(k) == Name(1);
      NameInjective(k, 1);
    }
  }

  // ---- the order of the calls to unlink

  function Forwards(n: nat): (s: seq<nat>)
    ensures |s| == n
  {
    seq(n, i requires 0 <= i < n => Name(i))
  }

  function Backwards(n: nat): (s: seq<nat>)
    ensures |s| == n
  {
    seq(n, i requires 0 <= i < n => Name(n - 1 - i))
  }

  function Strided(p: nat, n: nat): (s: seq<nat>)
    ensures |s| == n
  {
    seq(n, i requires 0 <= i < n => Name(Visit(p, n, i)))
  }

  /** The names of a removal in the order of the calls, `p` being the stride prime before it. */
  ghost function Calls(ord: nat, n: nat, p: Positive): (s: seq<nat>)
    ensures |s| == n
  {
    if ord == ORDER_REVERSE then Backwards(n)
    else if ord == ORDER_STRIDE then Strided(PrimeAfter(ord, n, p), n)
    else Forwards(n)
  }

  class Directory {
    /** The numbers in the names of the files that exist, and of all calls to unlink so far. */
    var files: set<nat>
    ghost var unlinked: seq<nat>
    const stride: Stride

    constructor ()
      ensures files == {} && unlinked == [] && fresh(stride) && stride.Valid() && stride.p == 1009
    {
      files := {};
      unlinked := [];
      stride := new Stride();
    }

    /** The creation loop of stress_dentry: `openFails` is the turn in which open fails, if it does. */
    method Create(dentries: nat, openFails: nat) returns (n: nat)
      modifies this`files
      ensures n == if openFails < dentries then openFails else dentries
      ensures files == old(files) + Names(n)
    {
      hide Gray;
      n := dentries;
      var i := 0;
      while i < n
        invariant i <= n == dentries && i <= openFails
        invariant files == old(files) + Names(i)
      {
        if i == openFails {
          n := i;
          break;
        }
        NamesStep(i);
        files := files + {Name(i)};
        i := i + 1;
      }
    }

    /** The case ORDER_REVERSE of stress_dentry_unlink. */
    method UnlinkReverse(n: nat)
      modifies this`files, this`unlinked
      ensures files == old(files) - Names(n)
      ensures unlinked == old(unlinked) + Backwards(n)
    {
      hide Gray, Name;
      for i := 0 to n
        invariant files == old(files) - (Names(n) - Names(n - i)) && Names(n - i) <= Names(n)
        invariant unlinked == old(unlinked) + Backwards(n)[..i]
      {
        var j := (n - 1) - i;
        NamesStep(j);
        NameNew(j);
        files := files - {Name(j)};
        unlinked := unlinked + [Name(j)];
      }
      NoNames();
    }

    /** The case ORDER_FORWARD of stress_dentry_unlink. */
    method UnlinkForward(n: nat)
      modifies this`files, this`unlinked
      ensures files == old(files) - Names(n)
      ensures unlinked == old(unlinked) + Forwards(n)
    {
      hide Gray, Name;
      for i := 0 to n
        invariant files == old(files) - Names(i)
        invariant unlinked == old(unlinked) + Forwards(n)[..i]
      {
        NamesStep(i);
        files := files - {Name(i)};
        unlinked := unlinked + [Name(i)];
      }
    }

    /** The case ORDER_STRIDE of stress_dentry_unlink. */
    method UnlinkStride(n: nat)
      requires stride.Valid() && n <= MAX_DENTRIES
      modifies this`files, this`unlinked, stride
      ensures stride.Valid()
      ensures files == old(files) - if n == 0 then {} else StrideNames(stride.p, n, n)
      ensures unlinked == old(unlinked) + Strided(stride.p, n)
      ensures n != old(stride.p) ==> stride.p == old(stride.p)
      ensures n == old(stride.p) ==> stride.p == Successor(n) && n % stride.p != 0
    {
      hide Gray, Visit, Prime, Position;
      var prime := stride.GetPrime64(n);
      var i, j := 0, prime;
      PositionSteps(prime, 0);
      while i < n
        invariant i <= n && j == Position(prime, i) && stride.p == prime && stride.Valid()
        invariant files == old(files) - if n == 0 then {} else StrideNames(prime, n, i)
        invariant unlinked == old(unlinked) + Strided(prime, n)[..i]
      {
        PositionFits(prime, i);
        assert j < TWO64;
        var k := j % n;
        VisitIs(prime, n, i);
        StrideNamesStep(prime, n, i);
        files := files - {Name(k)};
        unlinked := unlinked + [Name(k)];
        PositionSteps(prime, i);
        i, j := i + 1, j + prime;
      }
    }

    /** stress_dentry_unlink: all three orders remove exactly the first `n` names, except that the
        stride order removes only the multiples of its prime if that is a proper divisor of `n`. */
    method Unlink(n: nat, order: nat, random: nat)
      requires stride.Valid() && n <= MAX_DENTRIES
      modifies this`files, this`unlinked, stride
      ensures stride.Valid()
      ensures files == old(files) - Removed(Order(order, random), n, old(stride.p))
      ensures unlinked == old(unlinked) + Calls(Order(order, random), n, old(stride.p))
      ensures stride.p == PrimeAfter(Order(order, random), n, old(stride.p))
    {
      hide Gray, Visit, Prime, StrideNames, Names, MultipleNames, Successor, Forwards, Backwards, Strided;
      var ord := Order(order, random);
      if ord == ORDER_REVERSE {
        UnlinkReverse(n);
      } else if ord == ORDER_STRIDE {
        ghost var p := stride.p;
        UnlinkStride(n);
        if n > 0 { RemovedByStride(n, p); } else { NoNames(); }
      } else {
        UnlinkForward(n);
      }
    }

    /** One round of stress_dentry.  From an empty directory it ends with an empty one exactly unless
        the order is that of the stride and the prime is a proper divisor of the files created. */
    method Round(dentries: nat, openFails: nat, order: nat, random: nat) returns (n: nat)
      requires stride.Valid() && dentries <= MAX_DENTRIES
      modifies this`files, this`unlinked, stride
      ensures stride.Valid()
      ensures n == if openFails < dentries then openFails else dentries
      ensures Situation(files, stride.p) ==
              old(Situation(files, stride.p)).Round(dentries, order, Turn(openFails, random))
      ensures old(files) == {} ==> (files == {} <==> !StrideMisses(Order(order, random), n, old(stride.p)))
    {
      hide Gray, Prime, Names, Removed, PrimeAfter;
      ghost var start := Situation(files, stride.p);
      AtLeastTwo(stride.p);
      n := Create(dentries, openFails);
      Unlink(n, order, random);
      if start.files == {} { FromEmpty(start, n, Order(order, random)); }
    }

    /** stress_dentry: any number of complete rounds, a last round that is abandoned once `extra` files
        are created (0 if the run ends between rounds), and a final removal of all names.  If creating
        never fails, files are left exactly if the prime was a proper divisor of `dentries` from the
        start, the final removal is in stride order, and the rounds left something to it. */
    method Stress(dentries: nat, order: nat, turns: seq<Turn>, extra: nat, random: nat)
      requires stride.Valid() && dentries <= MAX_DENTRIES
      modifies this`files, this`unlinked, stride
      ensures stride.Valid()
      ensures Situation(files, stride.p) ==
              old(Situation(files, stride.p)).Run(dentries, order, turns, extra, random)
      ensures old(files) <= Names(dentries) ==> files <= Names(dentries)
      ensures old(files) == {} && (forall i :: 0 <= i < |turns| ==> turns[i].stopAfter >= dentries) ==>
                (files == {} <==>
                 !(StrideMisses(Order(order, random), dentries, old(stride.p)) &&
                   (extra >= 2 || (turns != [] && Order(order, turns[|turns| - 1].random) == ORDER_STRIDE))))
    {
      hide Gray, Prime, Names, Removed, Situation.Round;
      ghost var start := Situation(files, stride.p);
      assert turns[..0] == [];
      for k := 0 to |turns|
        invariant stride.Valid() && Situation(files, stride.p) == start.Rounds(dentries, order, turns[..k])
      {
        assert turns[..k + 1][..k] == turns[..k];
        var n := Round(dentries, turns[k].stopAfter, order, turns[k].random);
      }
      assert turns[..|turns|] == turns;
      var n := Create(dentries, extra);
      Unlink(dentries, order, random);
      if start.files <= Names(dentries) { RunCleans(start, dentries, order, turns, extra, random); }
      if start.files == {} && forall i :: 0 <= i < |turns| ==> turns[i].stopAfter >= dentries {
        RunLeaves(start, dentries, order, turns, extra, random);
      }
    }
  }

  // ---- whole runs

  /** What one round meets: the number of files after which creating stops, and the random number drawn
      for its order. */
  datatype Turn = Turn(stopAfter: nat, random: nat)

  /** The files that exist, and the stride prime. */
  datatype Situation = Situation(files: set<nat>, p: Positive) {

    ghost function Created(n: nat): Situation
    {
      Situation(files + Names(n), p)
    }

    ghost function Unlinked(n: nat, ord: nat): Situation
    {
      Situation(files - Removed(ord, n, p), PrimeAfter(ord, n, p))
    }

    ghost function Round(dentries: nat, order: nat, t: Turn): Situation
    {
      var n := Min(t.stopAfter, dentries);
      Created(n).Unlinked(n, Order(order, t.random))
    }

    ghost function Rounds(dentries: nat, order: nat, turns: seq<Turn>): Situation
      decreases |turns|
    {
      if turns == [] then this
      else Rounds(dentries, order, turns[..|turns| - 1]).Round(dentries, order, turns[|turns| - 1])
    }

    ghost function Run(dentries: nat, order: nat, turns: seq<Turn>, extra: nat, random: nat): Situation
    {
      Rounds(dentries, order, turns).Created(Min(extra, dentries)).Unlinked(dentries, Order(order, random))
    }
  }

  /** Every call of a removal names one of the files it takes away, and each of those has its call. */
  lemma CallsRemove(ord: nat, n: nat, p: Positive)
    requires Prime(p) && p % 2 == 1 && Prime(PrimeAfter(ord, n, p))
    ensures forall x :: x in Calls(ord, n, p) <==> x in Removed(ord, n, p)
  {
    hide Name, Prime, Visit, Successor, MultipleNames;
    if ord == ORDER_STRIDE && n > 0 {
      RemovedByStride(n, p);
      var q := PrimeAfter(ord, n, p);
      forall x ensures x in Strided(q, n) <==> x in StrideNames(q, n, n) {
        if x in StrideNames(q, n, n) {
          var i :| 0 <= i < n && Name(Visit(q, n, i)) == x;
          assert Strided(q, n)[i] == x;
        }
      }
    } else {
      forall x | x in Names(n) ensures x in Forwards(n) && x in Backwards(n) {
        var k :| 0 <= k < n && Name(k) == x;
        assert Forwards(n)[k] == x && Backwards(n)[n - 1 - k] == x;
      }
    }
  }

  lemma NoNames()
    ensures Names(0) == {}
  {}

  lemma FromEmpty(s: Situation, n: nat, ord: nat)
    requires s.files == {} && s.p >= 2
    ensures s.Created(n).Unlinked(n, ord).files == {} <==> !StrideMisses(ord, n, s.p)
  {
    hide Names, MultipleNames;
    if StrideMisses(ord, n, s.p) { MissedName(ord, n, s.p); }
  }

  lemma {:induction false} RoundsNamed(s: Situation, dentries: nat, order: nat, turns: seq<Turn>)
    requires s.files <= Names(dentries)
    ensures s.Rounds(dentries, order, turns).files <= Names(dentries)
    decreases |turns|
  {
    hide Names, Removed;
    if turns != [] {
      RoundsNamed(s, dentries, order, turns[..|turns| - 1]);
      NamesGrow(Min(turns[|turns| - 1].stopAfter, dentries), dentries);
    }
  }

  /** A run leaves no file outside the first names, and none at all if its final removal misses none. */
  lemma RunCleans(s: Situation, dentries: nat, order: nat, turns: seq<Turn>, extra: nat, random: nat)
    requires s.files <= Names(dentries)
    ensures var last := s.Rounds(dentries, order, turns);
            var end := s.Run(dentries, order, turns, extra, random);
            && end.files <= Names(dentries)
            && (!StrideMisses(Order(order, random), dentries, last.p) ==> end.files == {})
  {
    hide Names, MultipleNames;
    RoundsNamed(s, dentries, order, turns);
    NamesGrow(Min(extra, dentries), dentries);
  }

  /** In complete rounds the prime moves on at most once, and only from `dentries` itself. */
  lemma {:induction false} RoundsPrime(s: Situation, dentries: nat, order: nat, turns: seq<Turn>)
    requires Prime(s.p) && s.p % 2 == 1
    requires forall i :: 0 <= i < |turns| ==> turns[i].stopAfter >= dentries
    ensures var q := s.Rounds(dentries, order, turns).p;
            q == s.p || (dentries == s.p && q == Successor(dentries))
    decreases |turns|
  {
    hide Prime, Successor, Names, Removed;
    if turns != [] {
      RoundsPrime(s, dentries, order, turns[..|turns| - 1]);
      if dentries == s.p { SuccessorAvoids(dentries); }
    }
  }

  /** If the final removal misses names then so does every complete round in stride order, and any
      other round leaves nothing. */
  lemma LastRound(s: Situation, dentries: nat, order: nat, turns: seq<Turn>)
    requires s.files <= Names(dentries) && Prime(s.p) && s.p % 2 == 1 && turns != []
    requires forall i :: 0 <= i < |turns| ==> turns[i].stopAfter >= dentries
    requires StrideMisses(ORDER_STRIDE, dentries, s.p)
    ensures var files := s.Rounds(dentries, order, turns).files;
            if Order(order, turns[|turns| - 1].random) == ORDER_STRIDE then Name(1) in files else files == {}
  {
    hide Prime, Names, MultipleNames, Name;
    var front, last := turns[..|turns| - 1], turns[|turns| - 1];
    var before := s.Rounds(dentries, order, front);
    RoundsNamed(s, dentries, order, front);
    RoundsPrime(s, dentries, order, front);
    AtLeastTwo(s.p);
    MissedName(ORDER_STRIDE, dentries, s.p);
  }

  /** Which runs leave files, if no creation fails in a complete round: those whose final removal is in
      stride order, whose prime was a proper divisor of `dentries` from the start, and which created
      two files or more after their last removal in another order. */
  lemma RunLeaves(s: Situation, dentries: nat, order: nat, turns: seq<Turn>, extra: nat, random: nat)
    requires s.files == {} && Prime(s.p) && s.p % 2 == 1
    requires forall i :: 0 <= i < |turns| ==> turns[i].stopAfter >= dentries
    ensures s.Run(dentries, order, turns, extra, random).files == {} <==>
            !(StrideMisses(Order(order, random), dentries, s.p) &&
              (extra >= 2 || (turns != [] && Order(order, turns[|turns| - 1].random) == ORDER_STRIDE)))
  {
    hide Prime, Names, MultipleNames, Name, Successor, Situation.Rounds;
    var ord, mid := Order(order, random), s.Rounds(dentries, order, turns);
    RunCleans(s, dentries, order, turns, extra, random);
    RoundsPrime(s, dentries, order, turns);
    AtLeastTwo(s.p);
    if dentries == s.p { SuccessorAvoids(dentries); }
    if StrideMisses(ord, dentries, s.p) {
      MissedName(ord, dentries, s.p);
      if turns != [] { LastRound(s, dentries, order, turns); } else { NoRounds(s, dentries, order); }
      FirstNames(extra, dentries, s.p);
      var end := s.Run(dentries, order, turns, extra, random);
      assert end.files == (mid.files + Names(Min(extra, dentries))) - MultipleNames(s.p, dentries);
      if extra >= 2 || (turns != [] && Order(order, turns[|turns| - 1].random) == ORDER_STRIDE) {
        assert Name(1) in end.files;
      } else {
        assert mid.files == {};
      }
    }
  }

  lemma NoRounds(s: Situation, dentries: nat, order: nat)
    ensures s.Rounds(dentries, order, []) == s
  {}

  /** The first names hold that of entry 1 from two files on, and up to one file only multiples. */
  lemma FirstNames(extra: nat, n: nat, p: Positive)
    requires n >= 2
    ensures extra >= 2 ==> Name(1) in Names(Min(extra, n))
    ensures extra < 2 ==> Names(Min(extra, n)) <= MultipleNames(p, n)
  {
    hide Name;
  }

  /** With 2018 files, twice the initial prime, a round in stride order leaves files. */
  lemma TwiceThePrime(t: Turn)
    requires t.stopAfter >= 2018
    ensures StrideMisses(ORDER_STRIDE, 2018, 1009)
    ensures Name(1) in Situation({}, 1009).Round(2018, ORDER_STRIDE, t).files
  {
    hide Names, MultipleNames, Name;
    MissedName(ORDER_STRIDE, 2018, 1009);
  }

  lemma NamesGrow(m: nat, n: nat)
    requires m <= n
    ensures Names(m) <= Names(n)
  {
    hide Name;
  }

  lemma NamesStep(i: nat)
    ensures Names(i + 1) == Names(i) + {Name(i)}
  {
    hide Name;
  }

  lemma NameNew(i: nat)
    ensures Name(i) !in Names(i)
  {
    hide Gray;
    if Name(i) in Names(i) {
      var k :| 0 <= k < i && Name(k) == Name(i);
      NameInjective(k, i);
    }
  }

  /** The running sum of the stride in turn `i`. */
  function Position(p: nat, i: nat): nat
  {
    p * (i + 1)
  }

  lemma PositionSteps(p: nat, i: nat)
    ensures Position(p, 0) == p && Position(p, i + 1) == Position(p, i) + p
  {
    Distribute(p, i + 1, 1);
  }

  /** The running sum stays within 64 bits. */
  lemma PositionFits(p: Word, i: nat)
    requires i <= MAX_DENTRIES
    ensures Position(p, i) < TWO64
  {
    ProductMonotone(i + 1, MAX_DENTRIES + 1, p);
  }

  lemma VisitIs(p: nat, n: nat, i: nat)
    requires n > 0
    ensures Position(p, i) % n == Visit(p, n, i)
  {}

  lemma StrideNamesStep(p: nat, n: nat, i: nat)
    requires n > 0
    ensures StrideNames(p, n, i + 1) == StrideNames(p, n, i) + {Name(Visit(p, n, i))}
  {
    hide Name, Visit;
  }
}
