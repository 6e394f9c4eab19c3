/** The two prime counters of the cpu stressor: a bit-array sieve that crosses out multiples of
    every prime below the square root, and 6k +- 1 trial division. */
module Primes {
  import opened Numbers
  import opened Words

  const SIEVE_SIZE := 104730

  // ---- the bit array

  predicate IsSet(s: seq<Word>, i: nat)
    requires i / 32 < |s|
  {
    Bit(s[i / 32], i % 32)
  }

  lemma ClearFlag(s: seq<Word>, j: nat, k: nat)
    requires j / 32 < |s| && k / 32 < |s|
    ensures Pow2(j % 32) < TWO32 && And(s[j / 32], Not(Pow2(j % 32))) < TWO32
    ensures IsSet(s[j / 32 := And(s[j / 32], Not(Pow2(j % 32)))], k) <==> IsSet(s, k) && k != j
  {
    ClearBit(s[j / 32], j % 32, k % 32);
  }

  // ---- what has been crossed out

  /** Some prime below `i` has crossed out `k`. */
  ghost predicate Crossed(k: nat, i: nat)
  {
    exists p: nat :: p < i && Prime(p) && p * p <= k && k % p == 0
  }

  ghost predicate Marked(s: seq<Word>, size: nat, i: nat)
    requires |s| == (size + 31) / 32
  {
    forall k: nat :: 2 <= k < size ==> (IsSet(s, k) <==> !Crossed(k, i))
  }

  /** The multiples of `i` from `i * i` up to but not including `j` are crossed out as well. */
  ghost predicate Marking(s: seq<Word>, size: nat, i: nat, j: nat)
    requires |s| == (size + 31) / 32 && i > 0
  {
    forall k: nat :: 2 <= k < size ==>
      (IsSet(s, k) <==> !Crossed(k, i) && !(i * i <= k < j && k % i == 0))
  }

  lemma MarkedStart(s: seq<Word>, size: nat)
    requires |s| == (size + 31) / 32
    requires forall w :: 0 <= w < |s| ==> s[w] == 0xffff_ffff
    ensures Marked(s, size, 2)
  {
    forall k: nat | 2 <= k < size ensures IsSet(s, k) {
      Pow2Of32();
      OnesBits(32, k % 32);
    }
  }

  /** Between `j` and `j + i` the only multiple of `i` is `j` itself. */
  lemma NextMultiple(i: nat, j: nat, k: nat)
    requires i > 0 && j % i == 0 && j <= k < j + i && k % i == 0
    ensures k == j
  {
    MultipleGap(i, k / i - j / i);
    assert k == i * (k / i) && j == i * (j / i);
  }

  lemma MarkingStep(s: seq<Word>, size: nat, i: nat, j: nat)
    requires |s| == (size + 31) / 32 && i > 0 && i * i <= j < size && j % i == 0
    requires Marking(s, size, i, j)
    ensures Pow2(j % 32) < TWO32 && And(s[j / 32], Not(Pow2(j % 32))) < TWO32
    ensures Marking(s[j / 32 := And(s[j / 32], Not(Pow2(j % 32)))], size, i, j + i)
    ensures (j + i) % i == 0
  {
    ClearFlag(s, j, j);
    var t := s[j / 32 := And(s[j / 32], Not(Pow2(j % 32)))];
    forall k: nat | 2 <= k < size
      ensures IsSet(t, k) <==> !Crossed(k, i) && !(i * i <= k < j + i && k % i == 0)
    {
      ClearFlag(s, j, k);
      if j <= k < j + i && k % i == 0 { NextMultiple(i, j, k); }
    }
    AddMultiple(j, i, 1);
  }

  lemma SievedIsPrime(i: nat)
    requires i >= 2
    ensures Crossed(i, i) <==> !Prime(i)
  {
    if !Prime(i) {
      var p := SmallPrimeFactor(i);
      assert Crossed(i, i);
    }
  }

  lemma CrossedStep(k: nat, i: nat)
    requires i > 0
    ensures Crossed(k, i + 1) <==> Crossed(k, i) || (Prime(i) && i * i <= k && k % i == 0)
  {}

  // ---- which composites survive

  /** Crossing out stops below the square root `s`, so the square of a prime root survives (and, in
      the degenerate case `s == 2` where nothing at all is crossed out, so does 6). */
  ghost predicate FalsePrime(size: nat, k: nat)
  {
    var s := ISqrt(size);
    Prime(s) && k < size && (k == s * s || (s == 2 && k == 6))
  }

  ghost function FalsePrimes(size: nat): set<nat>
  {
    set k: nat | k < size && FalsePrime(size, k)
  }

  /** The multiples of the root `s` that are at least `s * s` and below a size with that root. */
  lemma MultiplesNearSquare(s: nat, m: nat, size: nat)
    requires s > 0 && s * s <= s * m < size < (s + 1) * (s + 1)
    ensures m == s || m == s + 1
  {
    if m < s { ProductMonotone(m, s - 1, s); }
    if m > s + 1 { ProductMonotone(s + 2, m, s); }
  }

  lemma EvenSurvives(k: nat, s: nat)
    requires k >= 4 && k % 2 == 0 && !Crossed(k, s)
    ensures s <= 2
  {
    assert Prime(2);
    assert 2 * 2 <= k;
  }

  lemma SurvivorFactor(size: nat, k: nat, s: nat)
    requires 2 <= k < size && s == ISqrt(size) && !Crossed(k, s) && !Prime(k)
    ensures Prime(s) && k % s == 0 && s * s <= k
  {
    var p := SmallPrimeFactor(k);
    ISqrtBound(p, size);
  }

  lemma RootOfComposite(s: nat, k: nat)
    requires Prime(s) && s * s <= k
    ensures s >= 2 && k >= 4
  {
    SquareMonotone(2, s);
  }

  lemma SurvivorIsFalsePrime(size: nat, k: nat)
    requires 2 <= k < size && !Crossed(k, ISqrt(size)) && !Prime(k)
    ensures FalsePrime(size, k)
  {
    hide Crossed, Prime;
    var s := ISqrt(size);
    SurvivorFactor(size, k, s);
    var m := k / s;
    assert k == s * m;
    MultiplesNearSquare(s, m, size);
    if m == s + 1 {
      Consecutive(s);
      RootOfComposite(s, k);
      EvenSurvives(k, s);
    }
  }

  lemma Commute(a: int, b: int)
    ensures a * b == b * a
  {}

  lemma EvenFactor(s: nat, h: nat, t: nat)
    requires s == 2 * h
    ensures (s * t) % 2 == 0
  {
    Reassociate(2, h, t);
    MultipleModulo(2, h * t);
  }

  lemma Consecutive(s: nat)
    ensures (s * (s + 1)) % 2 == 0
  {
    if s % 2 == 0 {
      EvenFactor(s, s / 2, s + 1);
    } else {
      EvenFactor(s + 1, (s + 1) / 2, s);
      Commute(s, s + 1);
    }
  }

  lemma FalsePrimeSurvives(size: nat, k: nat)
    requires FalsePrime(size, k)
    ensures !Crossed(k, ISqrt(size)) && !Prime(k) && 2 <= k < size
  {
    var s := ISqrt(size);
    if k == s * s {
      MultipleModulo(s, s);
      ProductMonotone(2, s, s);
      if Crossed(k, s) {
        var p: nat :| p < s && Prime(p) && p * p <= k && k % p == 0;
        assert s % p != 0;
        Euclid(p, s, s);
      }
    } else {
      assert 6 % 2 == 0;
    }
  }

  /** The sieve is right for `size` exactly when the root is not prime or its square is `size`. */
  lemma SieveExactness(size: nat)
    ensures FalsePrimes(size) == {} <==> !Prime(ISqrt(size)) || ISqrt(size) * ISqrt(size) == size
  {
    var s := ISqrt(size);
    if Prime(s) && s * s < size {
      assert FalsePrime(size, s * s);
      assert s * s in FalsePrimes(size);
    }
    if Prime(s) && s * s == size && FalsePrime(size, 6) {
      assert false;
    }
  }

  ghost function PrimesBelow(n: nat): set<nat>
  {
    set k: nat | k < n && Prime(k)
  }

  /** The source's size, 104730, is one of the good ones: its root is 323 = 17 * 19. */
  lemma SieveSizeIsExact()
    ensures FalsePrimes(SIEVE_SIZE) == {}
  {
    ISqrtIs(SIEVE_SIZE, 323);
    assert 323 % 17 == 0;
  }

  /** The set bits from 2 up to `n`. */
  ghost function SetBits(s: seq<Word>, n: nat): set<nat>
    requires |s| >= (n + 31) / 32
  {
    set k: nat | 2 <= k < n && IsSet(s, k)
  }

  lemma RootBelowTwo16(i: nat, size: nat)
    requires i * i <= size <= TWO32 - 0x1_0000
    ensures i < 0x1_0000
  {
    if i >= 0x1_0000 { SquareMonotone(0x1_0000, i); }
  }

  /** The marking loops of stress_cpu_sieve, for any size; `j` never leaves 32 bits. */
  method MarkComposites(sieve: array<Word>, size: nat)
    requires sieve.Length == (size + 31) / 32 && size <= TWO32 - 0x1_0000
    modifies sieve
    ensures forall k: nat :: 2 <= k < size ==> (IsSet(sieve[..], k) <==> Prime(k) || FalsePrime(size, k))
  {
    var nsqrt := ISqrt(size);
    for w := 0 to sieve.Length
      invariant forall v :: 0 <= v < w ==> sieve[v] == 0xffff_ffff
    {
      sieve[w] := 0xffff_ffff;
    }
    MarkedStart(sieve[..], size);
    var i := 2;
    while i < nsqrt
      invariant 2 <= i && (i <= nsqrt || i == 2)
      invariant Marked(sieve[..], size, i)
    {
      ISqrtBound(i, size);
      RootBelowTwo16(i, size);
      ProductMonotone(2, i, i);
      SievedIsPrime(i);
      TestBit(sieve[i / 32], i % 32);
      assert IsSet(sieve[..], i) <==> Prime(i);
      if And(sieve[i / 32], Pow2(i % 32)) != 0 {
        var j := i * i;
        MultipleModulo(i, i);
        while j < size
          invariant i * i <= j < TWO32 && j % i == 0
          invariant Marking(sieve[..], size, i, j)
        {
          MarkingStep(sieve[..], size, i, j);
          sieve[j / 32] := And(sieve[j / 32], Not(Pow2(j % 32)));
          j := j + i;
        }
        MarkingEnd(sieve[..], size, i, j);
      } else {
        MarkedSkip(sieve[..], size, i);
      }
      i := i + 1;
    }
    SieveResult(sieve[..], size, i);
  }

  /** The counting loop of stress_cpu_sieve. */
  method CountSieve(sieve: array<Word>, size: nat) returns (count: nat)
    requires sieve.Length == (size + 31) / 32
    requires forall k: nat :: 2 <= k < size ==> (IsSet(sieve[..], k) <==> Prime(k) || FalsePrime(size, k))
    ensures count == |PrimesBelow(size)| + |FalsePrimes(size)|
  {
    count := 0;
    var i := 2;
    while i < size
      invariant 2 <= i && (i <= size || i == 2)
      invariant i <= size ==> count == |SetBits(sieve[..], i)|
      invariant i > size ==> count == 0
    {
      TestBit(sieve[i / 32], i % 32);
      SetBitsStep(sieve[..], i);
      if And(sieve[i / 32], Pow2(i % 32)) != 0 {
        count := count + 1;
      }
      i := i + 1;
    }
    SieveCount(sieve[..], size);
  }

  lemma SetBitsStep(s: seq<Word>, i: nat)
    requires |s| >= (i + 1 + 31) / 32 && i >= 2
    ensures |SetBits(s, i + 1)| == |SetBits(s, i)| + if Bit(s[i / 32], i % 32) then 1 else 0
  {
    assert SetBits(s, i + 1) == SetBits(s, i) + if IsSet(s, i) then {i} else {};
  }

  lemma SieveCount(s: seq<Word>, size: nat)
    requires |s| == (size + 31) / 32
    requires forall k: nat :: 2 <= k < size ==> (IsSet(s, k) <==> Prime(k) || FalsePrime(size, k))
    ensures |SetBits(s, size)| == |PrimesBelow(size)| + |FalsePrimes(size)|
  {
    forall k | k in FalsePrimes(size) ensures k !in PrimesBelow(size) && k >= 2 { FalsePrimeSurvives(size, k); }
    assert SetBits(s, size) == PrimesBelow(size) + FalsePrimes(size);
  }

  lemma MarkingEnd(s: seq<Word>, size: nat, i: nat, j: nat)
    requires |s| == (size + 31) / 32 && Prime(i) && j >= size
    requires Marking(s, size, i, j)
    ensures Marked(s, size, i + 1)
  {
    forall k: nat | 2 <= k < size ensures IsSet(s, k) <==> !Crossed(k, i + 1) { CrossedStep(k, i); }
  }

  lemma MarkedSkip(s: seq<Word>, size: nat, i: nat)
    requires |s| == (size + 31) / 32 && i > 0 && !Prime(i)
    requires Marked(s, size, i)
    ensures Marked(s, size, i + 1)
  {
    forall k: nat | 2 <= k < size ensures IsSet(s, k) <==> !Crossed(k, i + 1) { CrossedStep(k, i); }
  }

  lemma SieveResult(s: seq<Word>, size: nat, i: nat)
    requires |s| == (size + 31) / 32 && Marked(s, size, i)
    requires i == ISqrt(size) || i == 2 >= ISqrt(size)
    ensures forall k: nat :: 2 <= k < size ==> (IsSet(s, k) <==> Prime(k) || FalsePrime(size, k))
  {
    forall k: nat | 2 <= k < size ensures IsSet(s, k) <==> Prime(k) || FalsePrime(size, k) {
      if Prime(k) { PrimeNotCrossed(k, i); }
      if i == 2 { RootCrosses(k, i, ISqrt(size)); }
      if !Crossed(k, i) && !Prime(k) { SurvivorIsFalsePrime(size, k); }
      if FalsePrime(size, k) { FalsePrimeSurvives(size, k); }
    }
  }

  lemma PrimeNotCrossed(k: nat, i: nat)
    requires Prime(k)
    ensures !Crossed(k, i)
  {
    if Crossed(k, i) {
      var p: nat :| p < i && Prime(p) && p * p <= k && k % p == 0;
      ProductMonotone(2, p, p);
    }
  }

  lemma RootCrosses(k: nat, i: nat, r: nat)
    requires r <= 2 && i <= 2
    ensures Crossed(k, i) == Crossed(k, r)
  {}

  // ---- trial division

  ghost predicate NoDivisorBelow(n: nat, i: nat)
  {
    forall d: nat :: 2 <= d < i ==> n % d != 0
  }

  lemma SkippedDivisor(n: nat, p: nat, d: nat)
    requires p > 0 && d > 0 && d % p == 0 && n % p != 0
    ensures n % d != 0
  {
    if n % d == 0 { DividesTransitive(p, d, n); }
  }

  lemma SixResidues(i: nat)
    requires i % 6 == 5
    ensures (i + 1) % 2 == 0 && (i + 3) % 2 == 0 && (i + 4) % 3 == 0 && (i + 5) % 2 == 0
  {
    var k := i / 6;
    assert i == 6 * k + 5;
    MultipleModulo(2, 3 * k + 3);
    MultipleModulo(2, 3 * k + 4);
    MultipleModulo(3, 2 * k + 3);
    MultipleModulo(2, 3 * k + 5);
  }

  /** Multiples of 2 and 3 need no test. */
  lemma SixStep(n: nat, i: nat)
    requires i % 6 == 5 && NoDivisorBelow(n, i) && n % 2 != 0 && n % 3 != 0
    requires n % i != 0 && n % (i + 2) != 0
    ensures NoDivisorBelow(n, i + 6)
  {
    SixResidues(i);
    SkippedDivisor(n, 2, i + 1);
    SkippedDivisor(n, 2, i + 3);
    SkippedDivisor(n, 3, i + 4);
    SkippedDivisor(n, 2, i + 5);
    ExtendBySix(n, i);
  }

  lemma ExtendBySix(n: nat, i: nat)
    requires i >= 2 && NoDivisorBelow(n, i)
    requires n % i != 0 && n % (i + 1) != 0 && n % (i + 2) != 0
    requires n % (i + 3) != 0 && n % (i + 4) != 0 && n % (i + 5) != 0
    ensures NoDivisorBelow(n, i + 6)
  {
    forall d: nat | 2 <= d < i + 6 ensures n % d != 0 {
      if d >= i {
        assert d == i || d == i + 1 || d == i + 2 || d == i + 3 || d == i + 4 || d == i + 5;
      }
    }
  }

  lemma TrialEnd(n: nat, i: nat)
    requires n >= 2 && NoDivisorBelow(n, i) && i > ISqrt(n)
    ensures Prime(n)
  {
    PrimeByTrial(n);
  }

  lemma RootPlusTwo(n: nat)
    requires n >= 5
    ensures ISqrt(n) + 2 < n
  {
    ISqrtBound(n - 2, n);
    ProductMonotone(3, n - 2, n - 2);
  }

  lemma HasDivisor(n: nat, d: nat)
    requires 2 <= d < n && n % d == 0
    ensures !Prime(n)
  {}

  lemma NoneBelowFive(n: nat)
    requires n > 3 && n % 2 != 0 && n % 3 != 0
    ensures n >= 5 && NoDivisorBelow(n, 5)
  {
    SkippedDivisor(n, 2, 4);
  }

  lemma SmallPrimes(n: nat)
    requires n <= 3
    ensures Prime(n) <==> n >= 2
  {
    assert 3 % 2 == 1;
  }

  /** is_prime: decides primality for every 32-bit `n`, using only divisors 6k - 1 and 6k + 1. */
  method IsPrime(n: Word) returns (r: nat)
    ensures r == if Prime(n) then 1 else 0
  {
    hide Prime, NoDivisorBelow, ISqrt;
    if n <= 3 {
      SmallPrimes(n);
      return if n >= 2 then 1 else 0;
    }
    if n % 2 == 0 || n % 3 == 0 {
      HasDivisor(n, if n % 2 == 0 then 2 else 3);
      return 0;
    }
    var max := ISqrt(n) + 1;
    NoneBelowFive(n);
    RootPlusTwo(n);
    var i := 5;
    while i < max
      invariant i % 6 == 5 && NoDivisorBelow(n, i)
      decreases max - i
    {
      if n % i == 0 || n % (i + 2) == 0 {
        HasDivisor(n, if n % i == 0 then i else i + 2);
        return 0;
      }
      SixStep(n, i);
      i := i + 6;
    }
    TrialEnd(n, i);
    return 1;
  }

  /** stress_cpu_prime. */
  method CpuPrime(size: Word) returns (nprimes: nat)
    ensures nprimes == |PrimesBelow(size)|
  {
    nprimes := 0;
    for i := 0 to size
      invariant nprimes == |PrimesBelow(i)|
    {
      var p := IsPrime(i);
      assert PrimesBelow(i + 1) == PrimesBelow(i) + if Prime(i) then {i} else {};
      nprimes := nprimes + p;
    }
  }

  /** The two counters agree exactly for the sizes on which the sieve is right. */
  method CompareCounts(sieve: array<Word>, size: nat) returns (sieved: nat, tried: nat)
    requires sieve.Length == (size + 31) / 32 && size <= TWO32 - 0x1_0000
    modifies sieve
    ensures tried == |PrimesBelow(size)| && sieved == tried + |FalsePrimes(size)|
    ensures sieved == tried <==> !Prime(ISqrt(size)) || ISqrt(size) * ISqrt(size) == size
    ensures size == SIEVE_SIZE ==> sieved == tried
  {
    MarkComposites(sieve, size);
    sieved := CountSieve(sieve, size);
    tried := CpuPrime(size);
    SieveExactness(size);
    SieveSizeIsExact();
  }
}
