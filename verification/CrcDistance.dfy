/** Which pairs of bit errors the CRC misses, and its guarantee for up to three errors anywhere. */
module CrcDistance {
  import opened Numbers
  import opened Primes
  import opened Crc16
  import opened CrcField
  import opened CrcPowers

  const ORDER := 32767

  // ---- the order of x

  lemma XIsShift(n: nat)
    ensures X(n) == Shift(UNIT, n)
  {
    hide Run;
  }

  lemma XSplit(i: nat, n: nat)
    ensures X(i + n) == Shift(X(i), n)
  {
    hide X, Shift;
    XIsShift(i);
    XIsShift(i + n);
    ShiftAdd(UNIT, i, n);
  }

  /** `n` steps without input bring the register back. */
  predicate Returns(v: bv16, n: nat)
  {
    Shift(v, n) == v
  }

  lemma {:induction false} ReturnsMultiple(v: bv16, k: nat, t: nat)
    requires Returns(v, k)
    ensures Returns(v, k * t)
  {
    hide Shift;
    if t == 0 {
      assert k * 0 == 0;
      ShiftOne(v);
    } else {
      ReturnsMultiple(v, k, t - 1);
      ShiftAdd(v, k, k * (t - 1));
      Distribute(k, 1, t - 1);
    }
  }

  lemma ReturnsRemainder(v: bv16, k: nat, n: nat)
    requires k > 0 && Returns(v, k)
    ensures Returns(v, n) <==> Returns(v, n % k)
  {
    hide Shift;
    var t := n / k;
    assert n == k * t + n % k;
    ReturnsMultiple(v, k, t);
    ShiftAdd(v, k * t, n % k);
  }

  /** Two numbers of steps that bring the register back have a common divisor that does. */
  lemma {:induction false} CommonDivisor(v: bv16, e: nat, n: nat) returns (g: nat)
    requires e > 0 && Returns(v, e) && Returns(v, n)
    ensures 0 < g <= e && e % g == 0 && n % g == 0 && Returns(v, g)
    decreases e
  {
    hide Returns;
    ReturnsRemainder(v, e, n);
    if n % e == 0 {
      g := e;
      MultipleModulo(e, 1);
    } else {
      g := CommonDivisor(v, n % e, e);
      DivisorOfSum(n, e, g);
    }
  }

  lemma DivisorOfSum(n: nat, e: nat, g: nat)
    requires e > 0 && g > 0 && e % g == 0 && (n % e) % g == 0
    ensures n % g == 0
  {
    var q, r, a, b := n / e, n % e, e / g, (n % e) / g;
    assert n == e * q + r && e == g * a && r == g * b;
    Reassociate(g, a, q);
    Distribute(g, a * q, b);
    MultipleModulo(g, a * q + b);
  }

  lemma Prime7()
    ensures Prime(7)
  {
    hide NoDivisorBelow, Prime;
    NoneBelowFive(7);
    ISqrtIs(7, 2);
    TrialEnd(7, 5);
  }

  lemma Prime31()
    ensures Prime(31)
  {
    hide NoDivisorBelow, Prime;
    NoneBelowFive(31);
    SixStep(31, 5);
    ISqrtIs(31, 5);
    TrialEnd(31, 11);
  }

  lemma Prime151()
    ensures Prime(151)
  {
    hide NoDivisorBelow, Prime;
    NoneBelowFive(151);
    SixStep(151, 5);
    SixStep(151, 11);
    ISqrtIs(151, 12);
    TrialEnd(151, 17);
  }

  lemma PrimesOfOrder()
    ensures Prime(7) && Prime(31) && Prime(151) && 7 * (31 * 151) == ORDER
  {
    hide Prime;
    Prime7();
    Prime31();
    Prime151();
  }

  lemma PrimeDivisor(p: nat, q: nat)
    requires Prime(p) && Prime(q) && q % p == 0
    ensures p == q
  {
    hide Prime;
    if p != q { DifferentPrimes(q, p); }
  }

  lemma OrderFactor(p: nat)
    requires Prime(p) && ORDER % p == 0
    ensures p == 7 || p == 31 || p == 151
  {
    hide Prime;
    PrimesOfOrder();
    AboveZero(p);
    if 7 % p != 0 {
      Euclid(p, 7, 31 * 151);
      if 31 % p != 0 { Euclid(p, 31, 151); PrimeDivisor(p, 151); } else { PrimeDivisor(p, 31); }
    } else {
      PrimeDivisor(p, 7);
    }
  }

  lemma AboveZero(p: nat)
    requires Prime(p)
    ensures p > 1
  {}

  lemma NotProper(v: bv16, g: nat)
    requires 0 < g < ORDER && ORDER % g == 0
    requires !Returns(v, 217) && !Returns(v, 1057) && !Returns(v, 4681)
    ensures !Returns(v, g)
  {
    hide Returns, Prime;
    var k := ORDER / g;
    assert ORDER == g * k;
    if k <= 1 { ProductMonotone(k, 1, g); }
    var p := PrimeFactor(k);
    AboveZero(p);
    var f := k / p;
    assert k == p * f;
    Reassociate(p, g, f);
    assert ORDER == p * (g * f);
    MultipleModulo(p, g * f);
    OrderFactor(p);
    if Returns(v, g) { ReturnsMultiple(v, g, f); }
  }

  /** A register that 32767 steps bring back, but none of three fewer, comes back exactly after the
      multiples of 32767. */
  lemma ReturnsExactly(v: bv16, d: nat)
    requires Returns(v, ORDER) && !Returns(v, 217) && !Returns(v, 1057) && !Returns(v, 4681)
    ensures Returns(v, d) <==> d % ORDER == 0
  {
    hide Returns;
    ReturnsRemainder(v, ORDER, d);
    var r := d % ORDER;
    if r == 0 {
      NoSteps(v);
    } else if Returns(v, r) {
      var g := CommonDivisor(v, r, ORDER);
      NotProper(v, g);
    }
  }

  lemma NoSteps(v: bv16)
    ensures Returns(v, 0)
  {
    hide Shift;
    ShiftOne(v);
  }

  /** The order of x modulo the generator is 32767. */
  lemma OrderOfX(d: nat)
    ensures X(d) == UNIT <==> d % ORDER == 0
  {
    hide X, Shift;
    FullPower();
    ProperDivisors();
    XIsShift(ORDER);
    XIsShift(217);
    XIsShift(1057);
    XIsShift(4681);
    ReturnsExactly(UNIT, d);
    XIsShift(d);
  }

  // ---- two errors

  /** Exactly the bits `i` and `j` are set. */
  ghost predicate TwoBits(e: seq<bool>, i: nat, j: nat)
  {
    i < j < |e| && forall k :: 0 <= k < |e| ==> (e[k] <==> k == i || k == j)
  }

  lemma FirstFeedback()
    ensures Step(0, true) == POLYNOMIAL
  {
    hide Step;
    StepZero(true);
  }

  lemma LastFeedback()
    ensures Step(0x0001, true) == 0
  {}

  lemma RunOne(c: bv16, b: bool)
    ensures Run(c, [b]) == Step(c, b)
  {
    hide Step;
    assert [b][1..] == [];
  }

  lemma SplitTwo(e: seq<bool>, i: nat, j: nat)
    requires TwoBits(e, i, j)
    ensures e == Zeros(i) + ([true] + (Zeros(j - i - 1) + ([true] + Zeros(|e| - j - 1))))
  {}

  lemma UnitAt15()
    ensures X(15) == 0x0001
  {
    hide X, Step;
    FirstPowers();
    XNext(15);
    StepOfOne();
    StepInjective(X(15), 0x0001, false);
  }

  lemma StepOfOne()
    ensures Step(0x0001, false) == 0x8408
  {}

  /** The register after two errors, between the second one and the end. */
  lemma AfterTwo(d: nat)
    requires d > 0
    ensures Step(Shift(POLYNOMIAL, d - 1), true) == 0 <==> d % ORDER == 0
  {
    hide X, Step, Shift;
    FirstPowers();
    XSplit(16, d - 1);
    XSplit(d, 15);
    XSplit(0, 15);
    XNext(0);
    UnitAt15();
    LastFeedback();
    var s := Shift(POLYNOMIAL, d - 1);
    assert s == X(d + 15);
    if Step(s, true) == 0 {
      StepInjective(s, 0x0001, true);
      ShiftInjective(X(d), UNIT, 15);
    }
    OrderOfX(d);
  }

  lemma TwoBitRun(e: seq<bool>, i: nat, j: nat)
    requires TwoBits(e, i, j)
    ensures Run(0, e) == 0 <==> (j - i) % ORDER == 0
  {
    hide Run, Step, Shift;
    var d, rest := j - i, |e| - j - 1;
    var tail := [true] + Zeros(rest);
    SplitTwo(e, i, j);
    RunConcat(0, Zeros(i), [true] + (Zeros(d - 1) + tail));
    RunZero(i);
    RunConcat(0, [true], Zeros(d - 1) + tail);
    RunOne(0, true);
    FirstFeedback();
    RunConcat(POLYNOMIAL, Zeros(d - 1), tail);
    ShiftIsRun(POLYNOMIAL, d - 1);
    var s := Shift(POLYNOMIAL, d - 1);
    RunConcat(s, [true], Zeros(rest));
    RunOne(s, true);
    AfterTwo(d);
    RunZero(rest);
    if Run(0, e) == 0 { RunInjective(Step(s, true), 0, Zeros(rest)); }
  }

  lemma ShiftIsRun(c: bv16, n: nat)
    ensures Shift(c, n) == Run(c, Zeros(n))
  {
    hide Run;
  }

  // ---- errors in messages

  function Errors(a: seq<bv8>, b: seq<bv8>): seq<bool>
    requires |a| == |b|
  {
    Xor(MessageBits(a), MessageBits(b))
  }

  /** An error pattern is missed exactly if it leaves an empty register empty. */
  lemma MissedPattern(a: seq<bv8>, b: seq<bv8>)
    requires |a| == |b|
    ensures Crc(a) == Crc(b) <==> Run(0, Errors(a, b)) == 0
  {
    hide Run, Step, Add, Finish, MessageBits, Crc;
    var x, y := MessageBits(a), MessageBits(b);
    CrcIs(a);
    CrcIs(b);
    RunLinear(0xffff, 0xffff, x, y);
    AddSelf(0xffff);
    AddSelf(Run(0xffff, x));
    if Add(Run(0xffff, x), Run(0xffff, y)) == 0 { AddNothing(Run(0xffff, x), Run(0xffff, y)); }
    if Crc(a) == Crc(b) { FinishInjective(Run(0xffff, x), Run(0xffff, y)); }
  }

  /** Two wrong bits are missed if and only if their distance is a multiple of 32767. */
  lemma TwoErrorsExact(a: seq<bv8>, b: seq<bv8>, i: nat, j: nat)
    requires |a| == |b| && TwoBits(Errors(a, b), i, j)
    ensures Crc(a) == Crc(b) <==> (j - i) % ORDER == 0
  {
    hide Run, Crc, MessageBits;
    MissedPattern(a, b);
    TwoBitRun(Errors(a, b), i, j);
  }

  /** The number of ones. */
  function Ones(e: seq<bool>): nat
  {
    if e == [] then 0 else (if e[0] then 1 else 0) + Ones(e[1..])
  }

  lemma {:induction false} OnesParity(e: seq<bool>)
    ensures OddOnes(e) <==> Ones(e) % 2 == 1
  {
    if e != [] { OnesParity(e[1..]); }
  }

  lemma {:induction false} NoOnes(e: seq<bool>)
    requires Ones(e) == 0
    ensures forall k :: 0 <= k < |e| ==> !e[k]
  {
    if e != [] {
      NoOnes(e[1..]);
      assert forall k :: 0 < k < |e| ==> e[k] == e[1..][k - 1];
    }
  }

  lemma {:induction false} OneOne(e: seq<bool>) returns (i: nat)
    requires Ones(e) == 1
    ensures i < |e| && forall k :: 0 <= k < |e| ==> (e[k] <==> k == i)
  {
    var rest := e[1..];
    assert forall k :: 0 < k < |e| ==> e[k] == rest[k - 1];
    if e[0] {
      NoOnes(rest);
      i := 0;
    } else {
      i := OneOne(rest);
      i := i + 1;
    }
  }

  lemma {:induction false} TwoOnes(e: seq<bool>) returns (i: nat, j: nat)
    requires Ones(e) == 2
    ensures TwoBits(e, i, j)
  {
    var rest := e[1..];
    assert forall k :: 0 < k < |e| ==> e[k] == rest[k - 1];
    if e[0] {
      j := OneOne(rest);
      i, j := 0, j + 1;
    } else {
      i, j := TwoOnes(rest);
      i, j := i + 1, j + 1;
    }
  }

  /** In messages of up to 32767 bits, every error of one, two or three bits is detected, wherever the
      bits are. */
  lemma SmallErrorsDetected(a: seq<bv8>, b: seq<bv8>)
    requires |a| == |b| && 8 * |a| <= ORDER && 1 <= Ones(Errors(a, b)) <= 3
    ensures Crc(a) != Crc(b)
  {
    hide Crc, MessageBits, TwoBits, OddOnes;
    var e := Errors(a, b);
    OnesParity(e);
    if Ones(e) == 2 {
      var i, j := TwoOnes(e);
      Positions(e, i, j);
      TwoErrorsExact(a, b, i, j);
    } else {
      OddErrorsDetected(a, b);
    }
  }

  lemma Positions(e: seq<bool>, i: nat, j: nat)
    requires TwoBits(e, i, j) && |e| <= ORDER
    ensures 0 < j - i < ORDER && (j - i) % ORDER != 0
  {}

  /** A message with its check bytes appended, of up to 32767 bits in all, is told apart from the good
      ones by the constant 0x470f after one to three wrong bits or a burst of 16, in the check bytes
      as well as in the message. */
  lemma FrameErrorsDetected(d: seq<bv8>, frame: seq<bv8>, lo: nat)
    requires |frame| == |d| + 2 && frame != Framed(d)
    requires || (8 * |frame| <= ORDER && 1 <= Ones(Errors(Framed(d), frame)) <= 3)
             || DifferWithin(MessageBits(Framed(d)), MessageBits(frame), lo, 16)
    ensures Crc(Framed(d)) == GOOD_FCS && Crc(frame) != GOOD_FCS
  {
    hide Crc, HighByte, LowByte, MessageBits, Ones, DifferWithin;
    GoodFcs(d, HighByte(Crc(d)), LowByte(Crc(d)));
    if 8 * |frame| <= ORDER && 1 <= Ones(Errors(Framed(d), frame)) <= 3 {
      SmallErrorsDetected(Framed(d), frame);
    } else {
      BurstDetected(Framed(d), frame, lo);
    }
  }

  /** A message followed by its CRC, high byte first. */
  function Framed(d: seq<bv8>): (f: seq<bv8>)
    ensures |f| == |d| + 2
  {
    d + [HighByte(Crc(d)), LowByte(Crc(d))]
  }
}
