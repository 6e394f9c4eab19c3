/** The register as a polynomial modulo the generator: a step without input multiplies it by x. */
module CrcField {
  import opened Crc16

  /** The polynomial 1; the highest digit of the register is the coefficient of x^0. */
  const UNIT: bv16 := 0x8000

  /** x^n modulo the generator. */
  function X(n: nat): bv16
  {
    Run(UNIT, Zeros(n))
  }

  /** `n` steps without input. */
  function Shift(c: bv16, n: nat): bv16
  {
    Run(c, Zeros(n))
  }

  function Feed(acc: bv16, c: bv16, s: bv16): bv16
  {
    Add(Step(acc, false), if Odd(c) then s else 0)
  }

  function Half4(c: bv16): bv16
  {
    Half(Half(Half(Half(c))))
  }

  function Feed4(acc: bv16, c: bv16, s: bv16): bv16
  {
    Feed(Feed(Feed(Feed(acc, c, s), Half(c), s), Half(Half(c)), s), Half(Half(Half(c))), s)
  }

  /** Multiplication of polynomials modulo the generator, by Horner's rule over the digits of `c`. */
  function Product(c: bv16, s: bv16): bv16
  {
    Feed4(Feed4(Feed4(Feed4(0, c, s), Half4(c), s), Half4(Half4(c)), s), Half4(Half4(Half4(c))), s)
  }

  // ---- steps without input

  lemma ZerosSplit(i: nat, n: nat)
    ensures Zeros(i + n) == Zeros(i) + Zeros(n)
  {}

  lemma ShiftAdd(c: bv16, i: nat, n: nat)
    ensures Shift(c, i + n) == Shift(Shift(c, i), n)
  {
    hide Run;
    ZerosSplit(i, n);
    RunConcat(c, Zeros(i), Zeros(n));
  }

  lemma ShiftOne(c: bv16)
    ensures Shift(c, 0) == c && Shift(c, 1) == Step(c, false)
  {
    hide Step;
    assert Zeros(1)[1..] == Zeros(0) == [];
  }

  lemma ShiftNext(c: bv16, n: nat)
    ensures Shift(c, n + 1) == Step(Shift(c, n), false) == Shift(Step(c, false), n)
  {
    hide Run, Shift, Step;
    ShiftOne(c);
    ShiftOne(Shift(c, n));
    ShiftAdd(c, n, 1);
    ShiftAdd(c, 1, n);
  }

  lemma ShiftInjective(c: bv16, d: bv16, n: nat)
    requires Shift(c, n) == Shift(d, n)
    ensures c == d
  {
    hide Run;
    RunInjective(c, d, Zeros(n));
  }

  lemma ShiftZero(n: nat)
    ensures Shift(0, n) == 0
  {
    hide Run;
    RunZero(n);
  }

  lemma StepSum(a: bv16, b: bv16)
    ensures Step(Add(a, b), false) == Add(Step(a, false), Step(b, false))
  {
    hide Step, Add;
    StepLinear(a, b, false, false);
  }

  // ---- Horner's rule

  function Horner(acc: bv16, w: seq<bool>, s: bv16): bv16
    decreases |w|
  {
    if w == [] then acc else Horner(Add(Step(acc, false), if w[0] then s else 0), w[1..], s)
  }

  lemma FeedTerms(a: bv16, b: bv16, x: bool, y: bool, s: bv16)
    ensures Add(Step(Add(a, b), false), if x != y then s else 0) ==
            Add(Add(Step(a, false), if x then s else 0), Add(Step(b, false), if y then s else 0))
  {
    hide Step, Add;
    StepSum(a, b);
    AddRearrange(Step(a, false), if x then s else 0, Step(b, false), if y then s else 0);
    AddSelf(s);
    AddZero(s);
    AddZeroLeft(s);
    AddSelf(0);
  }

  lemma {:induction false} HornerLinear(a: bv16, b: bv16, v: seq<bool>, w: seq<bool>, s: bv16)
    requires |v| == |w|
    ensures Horner(Add(a, b), Xor(v, w), s) == Add(Horner(a, v, s), Horner(b, w, s))
    decreases |v|
  {
    hide Step, Add;
    if v != [] {
      FeedTerms(a, b, v[0], w[0], s);
      assert Xor(v, w)[1..] == Xor(v[1..], w[1..]);
      HornerLinear(Add(Step(a, false), if v[0] then s else 0), Add(Step(b, false), if w[0] then s else 0),
                   v[1..], w[1..], s);
    }
  }

  lemma StepOfZero()
    ensures Step(0, false) == 0
  {
    hide Step;
    StepZero(false);
  }

  /** Multiplying the second factor by x multiplies the result by x. */
  lemma {:induction false} HornerCommutes(a: bv16, w: seq<bool>, s: bv16)
    ensures Horner(Step(a, false), w, Step(s, false)) == Step(Horner(a, w, s), false)
    decreases |w|
  {
    hide Step, Add;
    if w != [] {
      var x := if w[0] then s else 0;
      StepOfZero();
      StepSum(Step(a, false), x);
      HornerCommutes(Add(Step(a, false), x), w[1..], s);
    }
  }

  lemma {:induction false} HornerConcat(a: bv16, v: seq<bool>, w: seq<bool>, s: bv16)
    ensures Horner(a, v + w, s) == Horner(Horner(a, v, s), w, s)
    decreases |v|
  {
    hide Step, Add;
    if v == [] {
      assert v + w == w;
    } else {
      assert (v + w)[1..] == v[1..] + w;
      HornerConcat(Add(Step(a, false), if v[0] then s else 0), v[1..], w, s);
    }
  }

  lemma HornerOne(a: bv16, b: bool, s: bv16)
    ensures Horner(a, [b], s) == Add(Step(a, false), if b then s else 0)
  {
    hide Step, Add;
    assert [b][1..] == [];
  }

  lemma {:induction false} HornerZeros(a: bv16, k: nat, s: bv16)
    ensures Horner(a, Zeros(k), s) == Shift(a, k)
    decreases k
  {
    hide Step, Add, Run;
    ShiftOne(a);
    if k > 0 {
      assert Zeros(k)[1..] == Zeros(k - 1);
      AddZero(Step(a, false));
      HornerZeros(Step(a, false), k - 1, s);
      ShiftNext(a, k - 1);
    }
  }

  // ---- the product

  lemma HornerFour(acc: bv16, c: bv16, s: bv16, k: nat)
    requires k >= 4
    ensures Horner(acc, Digits(c, k), s) == Horner(Feed4(acc, c, s), Digits(Half4(c), k - 4), s)
  {
    hide Step, Add, Odd, Half, Digits;
    HornerFeed(acc, c, s, k);
    HornerFeed(Feed(acc, c, s), Half(c), s, k - 1);
    HornerFeed(Feed(Feed(acc, c, s), Half(c), s), Half(Half(c)), s, k - 2);
    HornerFeed(Feed(Feed(Feed(acc, c, s), Half(c), s), Half(Half(c)), s), Half(Half(Half(c))), s, k - 3);
  }

  lemma HornerFeed(acc: bv16, c: bv16, s: bv16, k: nat)
    requires k >= 1
    ensures Horner(acc, Digits(c, k), s) == Horner(Feed(acc, c, s), Digits(Half(c), k - 1), s)
  {
    hide Step, Add, Odd, Half;
    DigitsUnfold(c, k);
    assert Digits(c, k)[1..] == Digits(Half(c), k - 1);
  }

  lemma ProductIs(c: bv16, s: bv16)
    ensures Product(c, s) == Horner(0, Digits(c, 16), s)
  {
    hide Feed4, Half4, Digits, Horner;
    var a := Feed4(0, c, s);
    var b := Feed4(a, Half4(c), s);
    var d := Feed4(b, Half4(Half4(c)), s);
    HornerFour(0, c, s, 16);
    HornerFour(a, Half4(c), s, 12);
    HornerFour(b, Half4(Half4(c)), s, 8);
    HornerFour(d, Half4(Half4(Half4(c))), s, 4);
    HornerEmpty(Feed4(d, Half4(Half4(Half4(c))), s), Half4(Half4(Half4(Half4(c)))), s);
  }

  lemma HornerEmpty(a: bv16, c: bv16, s: bv16)
    ensures Horner(a, Digits(c, 0), s) == a
  {}

  lemma ProductLinear(c: bv16, d: bv16, s: bv16)
    ensures Product(Add(c, d), s) == Add(Product(c, s), Product(d, s))
  {
    hide Product, Add, Digits, Horner;
    ProductIs(c, s);
    ProductIs(d, s);
    ProductIs(Add(c, d), s);
    DigitsAdd(c, d, 16);
    AddZero(0);
    HornerLinear(0, 0, Digits(c, 16), Digits(d, 16), s);
  }

  lemma ProductZero(s: bv16)
    ensures Product(0, s) == 0
  {
    hide Product, Digits, Horner, Shift;
    ProductIs(0, s);
    ZeroDigits(16);
    HornerZeros(0, 16, s);
    ShiftZero(16);
  }

  lemma ProductUnit(s: bv16)
    ensures Product(UNIT, s) == s
  {
    hide Product, Step, Add, Digits, Horner, Shift;
    ProductIs(UNIT, s);
    UnitDigits();
    HornerConcat(0, Zeros(15), [true], s);
    HornerZeros(0, 15, s);
    ShiftZero(15);
    HornerOne(0, true, s);
    StepOfZero();
    AddZeroLeft(s);
  }

  lemma UnitParities()
    ensures !Odd(0x0008) && !Odd(0x0004) && !Odd(0x0002) && Odd(0x0001)
    ensures Half(0x0008) == 0x0004 && Half(0x0004) == 0x0002 && Half(0x0002) == 0x0001 && Half(0x0001) == 0
  {}

  lemma UpperParities()
    ensures !Odd(0x8000) && !Odd(0x4000) && !Odd(0x2000) && !Odd(0x1000)
    ensures !Odd(0x0800) && !Odd(0x0400) && !Odd(0x0200) && !Odd(0x0100)
    ensures !Odd(0x0080) && !Odd(0x0040) && !Odd(0x0020) && !Odd(0x0010)
  {}

  lemma UpperHalves()
    ensures Half(0x8000) == 0x4000 && Half(0x4000) == 0x2000 && Half(0x2000) == 0x1000 && Half(0x1000) == 0x0800
    ensures Half(0x0800) == 0x0400 && Half(0x0400) == 0x0200 && Half(0x0200) == 0x0100 && Half(0x0100) == 0x0080
    ensures Half(0x0080) == 0x0040 && Half(0x0040) == 0x0020 && Half(0x0020) == 0x0010 && Half(0x0010) == 0x0008
  {}

  lemma UnitDigits()
    ensures Digits(UNIT, 16) == Zeros(15) + [true]
  {
    hide Odd, Half, Digits;
    UpperHalves();
    UpperParities();
    UnitParities();
    FourDigits(0x8000, 0x4000, 0x2000, 0x1000, 0x0800, 16);
    FourDigits(0x0800, 0x0400, 0x0200, 0x0100, 0x0080, 12);
    FourDigits(0x0080, 0x0040, 0x0020, 0x0010, 0x0008, 8);
    FourDigits(0x0008, 0x0004, 0x0002, 0x0001, 0x0000, 4);
    NoDigits(0);
  }

  // ---- multiplication by x

  /** `s` obeys the equation of the generator: x^16 is the polynomial without its leading term. */
  ghost predicate Root(s: bv16)
  {
    Product(POLYNOMIAL, s) == Shift(s, 16)
  }

  /** The lower digits of `c`, moved up, and its lowest one, which leaves the register. */
  lemma ProductSplit(c: bv16, s: bv16)
    ensures Step(Product(c, s), false) == Add(Product(Half(c), s), if Odd(c) then Shift(s, 16) else 0)
  {
    hide Product, Step, Add, Odd, Half, Digits, Horner, Shift;
    var w, x := Digits(c, 16), if Odd(c) then s else 0;
    ProductIs(c, s);
    DigitsUnfold(c, 16);
    var rest := w[1..];
    assert w == [Odd(c)] + rest;
    HornerConcat(0, [Odd(c)], rest, s);
    HornerOne(0, Odd(c), s);
    StepOfZero();
    AddZeroLeft(x);
    XorZeros(Zeros(15), rest);
    AddZero(x);
    HornerLinear(x, 0, Zeros(15), rest, s);
    HornerZeros(x, 15, s);
    ShiftZero(16);
    StepSum(Shift(x, 15), Horner(0, rest, s));
    ShiftNext(x, 15);
    AddCommutative(Shift(x, 16), Step(Horner(0, rest, s), false));
    ProductHalf(c, s, rest);
  }

  lemma XorZeros(z: seq<bool>, w: seq<bool>)
    requires |z| == |w| && z == Zeros(|w|)
    ensures Xor(z, w) == w
  {}

  lemma ProductHalf(c: bv16, s: bv16, rest: seq<bool>)
    requires rest == Digits(c, 16)[1..]
    ensures Product(Half(c), s) == Step(Horner(0, rest, s), false)
  {
    hide Product, Step, Add, Half, Digits, Horner;
    ProductIs(Half(c), s);
    HalfDigits(c);
    HornerConcat(0, rest, [false], s);
    HornerOne(Horner(0, rest, s), false, s);
    AddZero(Step(Horner(0, rest, s), false));
  }

  lemma StepIsSum(c: bv16)
    ensures Step(c, false) == Add(Half(c), if Odd(c) then POLYNOMIAL else 0)
  {}

  lemma ProductStep(c: bv16, s: bv16)
    requires Root(s)
    ensures Product(Step(c, false), s) == Step(Product(c, s), false)
  {
    hide Product, Step, Add, Odd, Half, Shift;
    StepIsSum(c);
    ProductLinear(Half(c), if Odd(c) then POLYNOMIAL else 0, s);
    ProductZero(s);
    ProductSplit(c, s);
  }

  lemma RootStep(s: bv16)
    requires Root(s)
    ensures Root(Step(s, false))
  {
    hide Product, Step, Digits, Horner, Shift;
    ProductIs(POLYNOMIAL, s);
    ProductIs(POLYNOMIAL, Step(s, false));
    StepOfZero();
    HornerCommutes(0, Digits(POLYNOMIAL, 16), s);
    ShiftNext(s, 16);
  }

  lemma UnitFeeds()
    ensures Feed4(0, 0x8408, 0x8000) == 0x8000 && Feed4(0x8000, 0x0840, 0x8000) == 0x0800
    ensures Feed4(0x0800, 0x0084, 0x8000) == 0x4080 && Feed4(0x4080, 0x0008, 0x8000) == 0x8408
    ensures Half4(0x8408) == 0x0840 && Half4(0x0840) == 0x0084 && Half4(0x0084) == 0x0008
  {}

  lemma UnitShifts()
    ensures ZeroStep4(0x8000) == 0x0800 && ZeroStep4(0x0800) == 0x0080
    ensures ZeroStep4(0x0080) == 0x0008 && ZeroStep4(0x0008) == 0x8408
  {}

  lemma UnitShift()
    ensures Shift(UNIT, 16) == POLYNOMIAL
  {
    hide Step, ZeroStep4, Run;
    UnitShifts();
    ZeroSteps(0x8000, 16);
    ZeroSteps(0x0800, 12);
    ZeroSteps(0x0080, 8);
    ZeroSteps(0x0008, 4);
    ShiftOne(0x8408);
  }

  lemma RootUnit()
    ensures Root(UNIT)
  {
    hide Feed4, Half4, Shift;
    UnitFeeds();
    UnitShift();
  }

  lemma XNext(n: nat)
    ensures X(0) == UNIT && X(n + 1) == Step(X(n), false)
  {
    hide Step, Run;
    ShiftOne(UNIT);
    ShiftNext(UNIT, n);
  }

  lemma {:induction false} RootX(n: nat)
    ensures Root(X(n))
  {
    hide Root, X;
    if n == 0 {
      XNext(0);
      RootUnit();
    } else {
      RootX(n - 1);
      XNext(n - 1);
      RootStep(X(n - 1));
    }
  }

  /** Multiplying by a power of x is the same as that many steps, for every register that obeys the
      equation of the generator. */
  lemma {:induction false} ProductShift(i: nat, s: bv16)
    requires Root(s)
    ensures Product(X(i), s) == Shift(s, i)
  {
    hide Product, Step, Root, X, Shift;
    if i == 0 {
      XNext(0);
      ProductUnit(s);
      ShiftOne(s);
    } else {
      ProductShift(i - 1, s);
      XNext(i - 1);
      ProductStep(X(i - 1), s);
      ShiftNext(s, i - 1);
    }
  }

  /** The product of powers of x is the power of the sum. */
  lemma PowerProduct(i: nat, n: nat)
    ensures Product(X(i), X(n)) == X(i + n)
  {
    hide Product, Run, Root;
    RootX(n);
    ProductShift(i, X(n));
    ShiftAdd(UNIT, n, i);
  }
}
