/** How long the multiply-with-carry generator runs before it repeats a state. */
module Periods {
  import opened Numbers
  import opened Words
  import opened Orders
  import opened Mwc
  import opened MwcPrimes

  /** Half of the modulus less one. */
  function Period(a: nat): (q: nat)
    requires Multiplier(a)
    ensures q > 0 && 2 * q + 1 == Modulus(a)
  {
    a * 32768 - 1
  }

  /** The modulus and the period are prime, and the multiplier has that order. */
  ghost predicate Regular(a: nat)
  {
    Multiplier(a) && Prime(Modulus(a)) && Prime(Period(a)) && PowerIs(a, Period(a), Modulus(a), 1)
  }

  lemma BothRegular()
    ensures Regular(A_Z) && Regular(A_W)
  {
    hide Prime, PowerIs;
    assert Modulus(A_Z) == 2422800383 && Period(A_Z) == 1211400191;
    assert Modulus(A_W) == 1179647999 && Period(A_W) == 589823999;
    ModulusZ();
    PeriodZ();
    ModulusZPower();
    ModulusW();
    PeriodW();
    ModulusWPower();
  }

  lemma MultiplierOrder(a: nat, n: nat)
    requires Regular(a)
    ensures Power(a, n) % Modulus(a) == 1 <==> n % Period(a) == 0
  {
    hide Prime, Power;
    var m := Modulus(a);
    RemainderIs(a, m, 0, a);
    PowerModuloIs(a, Period(a), m);
    OrderIs(a, m, Period(a), n);
  }

  lemma TimesOne(m: nat, x: nat, y: nat)
    requires m > 1 && y % m == 1
    ensures (x * y) % m == x % m
  {
    ModProduct(x, y, m);
    RemainderTwice(x, m);
  }

  lemma BelowModulus(x: nat, m: nat)
    requires 0 < m && x <= m && x % m != 0
    ensures x % m == x
  {}

  /** A state of a half that is not a multiple of the modulus comes back after `n` steps exactly if `n`
      is a multiple of the period: its cycle has that length. */
  lemma Cycle(a: nat, x: Word, n: nat)
    requires Regular(a) && x <= Modulus(a) && x % Modulus(a) != 0
    ensures Run(a, x, n) == x <==> n % Period(a) == 0
  {
    hide Prime, Power, Half, Modulus, Run;
    var m, y, p := Modulus(a), Run(a, x, n), Power(a, n);
    AboveOne(m);
    RunStaysSettled(a, x, n);
    FixedPointsAvoided(a, x, n);
    BelowModulus(x, m);
    BelowModulus(y, m);
    RunIsLehmer(a, x, n);
    Swap(p, x);
    MultiplierOrder(a, n);
    if p % m == 1 {
      TimesOne(m, x, p);
    } else if y == x {
      assert p > 0 by { PowerPositive(a, n); }
      CancelModulo(m, x, p);
    }
  }

  lemma {:induction false} PowerPositive(a: nat, n: nat)
    requires a > 0
    ensures Power(a, n) > 0
  {
    if n > 0 {
      PowerPositive(a, n - 1);
      ProductMonotone(1, Power(a, n - 1), a);
    }
  }

  lemma {:induction false} RunSplit(a: nat, x: Word, i: nat, n: nat)
    requires Multiplier(a)
    ensures Run(a, x, i + n) == Run(a, Run(a, x, i), n)
    decreases i
  {
    hide Half;
    if i > 0 { RunSplit(a, Half(a, x), i - 1, n); }
  }

  lemma SettledAfterTwo(a: nat, x: Word, i: nat)
    requires Multiplier(a) && i >= 2
    ensures Run(a, x, i) <= Modulus(a)
  {
    hide Half, Modulus;
    TwoStepsSettle(a, x);
    TwoSteps(a, x);
    RunSplit(a, x, 2, i - 2);
    RunStaysSettled(a, Run(a, x, 2), i - 2);
  }

  lemma TwoSteps(a: nat, x: Word)
    requires Multiplier(a)
    ensures Run(a, x, 2) == Half(a, Half(a, x))
  {
    hide Half;
    assert Run(a, Half(a, Half(a, x)), 0) == Half(a, Half(a, x));
  }

  /** Which states of a half are equal, for any seed that is not a multiple of the modulus and from the
      second state on: those whose distance is a multiple of the period. */
  lemma Recurrence(a: nat, x: Word, i: nat, j: nat)
    requires Regular(a) && x % Modulus(a) != 0 && 2 <= i <= j
    ensures Run(a, x, i) == Run(a, x, j) <==> (j - i) % Period(a) == 0
  {
    hide Half, Modulus, Run, Period, Prime;
    SettledAfterTwo(a, x, i);
    FixedPointsAvoided(a, x, i);
    RunSplit(a, x, i, j - i);
    Cycle(a, Run(a, x, i), j - i);
  }

  /** A half whose seed is a multiple of the modulus stands still from the second state on. */
  lemma Stuck(a: nat, x: Word, i: nat, j: nat)
    requires Multiplier(a) && x % Modulus(a) == 0 && 2 <= i <= j
    ensures Run(a, x, i) == Run(a, x, j)
  {
    hide Half, Modulus, Run;
    SettledAfterTwo(a, x, i);
    FixedPointsAvoided(a, x, i);
    RunSplit(a, x, i, j - i);
    MultipleWithin(Run(a, x, i), Modulus(a));
    StandsStill(a, Run(a, x, i), j - i);
  }

  lemma MultipleWithin(x: nat, m: nat)
    requires m > 0 && x % m == 0 && x <= m
    ensures x == 0 || x == m
  {}

  lemma {:induction false} StandsStill(a: nat, x: Word, n: nat)
    requires Multiplier(a) && (x == 0 || x == Modulus(a))
    ensures Run(a, x, n) == x
    decreases n
  {
    hide Half, Modulus;
    FixedPoints(a);
    if n > 0 { StandsStill(a, x, n - 1); }
  }

  // ---- the whole generator

  /** Both numbers divide `d` exactly if their product does, if they are different primes. */
  lemma BothDivide(p: nat, q: nat, d: nat)
    requires Prime(p) && Prime(q) && p != q
    ensures p * q > 0
    ensures d % p == 0 && d % q == 0 <==> d % (p * q) == 0
  {
    hide Prime;
    AboveOne(p);
    AboveOne(q);
    ProductMonotone(1, p, q);
    MultipleModulo(p, q);
    MultipleModulo(q, p);
    Swap(p, q);
    if d % p == 0 && d % q == 0 {
      var e := d / p;
      assert d == p * e;
      DifferentPrimes(p, q);
      Euclid(q, p, e);
      var f := e / q;
      assert e == q * f;
      Reassociate(p, q, f);
      MultipleModulo(p * q, f);
    }
    if d % (p * q) == 0 {
      DividesTransitive(p, p * q, d);
      DividesTransitive(q, p * q, d);
    }
  }

  /** The number of states before the generator repeats: about 2^59. */
  function FullPeriod(): (n: nat)
    ensures n > 0
  {
    Period(A_Z) * Period(A_W)
  }

  /** If neither seed is a multiple of its modulus, two states of the generator from the second on are
      equal exactly if their distance is a multiple of 1211400191 * 589823999. */
  lemma GeneratorPeriod(z: Word, w: Word, i: nat, j: nat)
    requires z % Modulus(A_Z) != 0 && w % Modulus(A_W) != 0 && 2 <= i <= j
    ensures Run(A_Z, z, i) == Run(A_Z, z, j) && Run(A_W, w, i) == Run(A_W, w, j) <==> (j - i) % FullPeriod() == 0
    ensures FullPeriod() == 1211400191 * 589823999
  {
    hide Half, Run, Prime, PowerIs;
    BothRegular();
    Recurrence(A_Z, z, i, j);
    Recurrence(A_W, w, i, j);
    BothDivide(Period(A_Z), Period(A_W), j - i);
  }

  /** The default seeds are not multiples of the moduli, and their own states recur. */
  lemma DefaultPeriod(n: nat)
    ensures Run(A_Z, SEED_Z, n) == SEED_Z && Run(A_W, SEED_W, n) == SEED_W <==> n % FullPeriod() == 0
  {
    hide Half, Run, Prime, PowerIs;
    BothRegular();
    Cycle(A_Z, SEED_Z, n);
    Cycle(A_W, SEED_W, n);
    BothDivide(Period(A_Z), Period(A_W), n);
  }
}
