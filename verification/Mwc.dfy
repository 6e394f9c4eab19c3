/** The multiply-with-carry generator: each half is a Lehmer generator in disguise, and the
    narrower draws are taken from whole 32-bit words. */
module Mwc {
  import opened Numbers
  import opened Orders
  import opened Words

  const SEED_W := 521288629
  const SEED_Z := 362436069
  const A_Z := 36969
  const A_W := 18000

  /** The multipliers for which a half never overflows 32 bits. */
  predicate Multiplier(a: nat)
  {
    256 <= a <= 65536
  }

  /** The modulus of the half with multiplier `a`. */
  function Modulus(a: nat): (m: nat)
    requires Multiplier(a)
    ensures 0 < m < TWO32
  {
    a * 65536 - 1
  }

  /** One half: `a * (x & 65535) + (x >> 16)`; no product or sum leaves 32 bits. */
  function Half(a: nat, x: Word): (y: Word)
    requires Multiplier(a)
    ensures y <= 65535 * (a + 1)
  {
    HalfFits(a, x);
    a * (x % 65536) + x / 65536
  }

  lemma HalfFits(a: nat, x: Word)
    requires Multiplier(a)
    ensures a * (x % 65536) + x / 65536 <= 65535 * (a + 1) < TWO32
  {
    ProductMonotone(x % 65536, 65535, a);
  }

  function Run(a: nat, x: Word, n: nat): Word
    requires Multiplier(a)
    decreases n
  {
    if n == 0 then x else Run(a, Half(a, x), n - 1)
  }

  // ---- multiplication by the inverse of 2^16

  /** The multiplier is the inverse of 2^16, and a step multiplies by it, modulo the modulus. */
  lemma StepIsMultiplication(a: nat, x: Word)
    requires Multiplier(a)
    ensures (a * 65536) % Modulus(a) == 1
    ensures Half(a, x) == a * x - Modulus(a) * (x / 65536)
    ensures Half(a, x) * 65536 == x + Modulus(a) * (x % 65536)
    ensures Half(a, x) % Modulus(a) == (a * x) % Modulus(a)
  {
    var m, lo, hi := Modulus(a), x % 65536, x / 65536;
    assert x == 65536 * hi + lo;
    assert a * x == (m + 1) * hi + a * lo;
    assert (m + 1) * hi == m * hi + hi;
    assert Half(a, x) * 65536 == (m + 1) * lo + 65536 * hi;
    assert (m + 1) * lo == m * lo + lo;
    RemainderIs(a * 65536, m, 1, 1);
    AddMultiple(Half(a, x), m, hi);
  }

  lemma DistributeDifference(p: int, u: int, m: int, h: int)
    ensures p * u == p * (u - m * h) + m * (p * h)
  {
    assert p * (u - m * h) == p * u - p * (m * h);
  }

  lemma DifferenceOfMultiples(m: int, u: int, v: int)
    ensures m * u - m * v == m * (u - v)
  {}

  lemma LehmerStep(a: nat, x: Word, p: nat)
    requires Multiplier(a)
    ensures (p * Half(a, x)) % Modulus(a) == ((a * p) * x) % Modulus(a)
  {
    hide Half, Modulus;
    var m, y, hi := Modulus(a), Half(a, x), x / 65536;
    StepIsMultiplication(a, x);
    Reassociate(a, p, x);
    DistributeDifference(p, a * x, m, hi);
    AddMultiple(p * y, m, p * hi);
  }

  /** After `n` steps the half holds a^n times the seed: a Lehmer generator. */
  lemma {:induction false} RunIsLehmer(a: nat, x: Word, n: nat)
    requires Multiplier(a)
    ensures Run(a, x, n) % Modulus(a) == (Power(a, n) * x) % Modulus(a)
    decreases n
  {
    hide Half, Modulus;
    if n > 0 {
      RunIsLehmer(a, Half(a, x), n - 1);
      LehmerStep(a, x, Power(a, n - 1));
    }
  }

  // ---- the states that a run settles into

  /** Swapping the digits: in base (65536, a) to base (a, 65536). */
  function Unhalf(a: nat, y: nat): nat
    requires Multiplier(a)
  {
    (y % a) * 65536 + y / a
  }

  /** On [0, m] the step is a bijection, with inverse Unhalf. */
  lemma StepIsBijection(a: nat, x: Word)
    requires Multiplier(a) && x <= Modulus(a)
    ensures Half(a, x) <= Modulus(a) && Unhalf(a, Half(a, x)) == x
    ensures Unhalf(a, x) <= Modulus(a) < TWO32 && Half(a, Unhalf(a, x)) == x
  {
    var lo, hi := x % 65536, x / 65536;
    assert hi < a;
    RemainderIs(Half(a, x), a, lo, hi);
    ProductMonotone(lo, 65535, a);
    var q, r := x / a, x % a;
    assert x == a * q + r;
    if q > 65535 { ProductMonotone(65536, q, a); }
    assert r * 65536 + q <= (a - 1) * 65536 + 65535;
    RemainderIs(r * 65536 + q, 65536, r, q);
  }

  lemma OvershootSettles(a: nat, y: Word)
    requires Multiplier(a) && Modulus(a) < y <= 65535 * (a + 1)
    ensures Half(a, y) <= Modulus(a)
  {
    var lo := y - a * 65536;
    RemainderIs(y, 65536, a, lo);
    assert Half(a, y) == a * lo + a;
    assert a * lo + a == a * (lo + 1);
    ProductMonotone(lo + 1, 65535, a);
  }

  /** Within two steps of any seed the state lies in [0, m]. */
  lemma TwoStepsSettle(a: nat, x: Word)
    requires Multiplier(a)
    ensures Half(a, Half(a, x)) <= Modulus(a)
  {
    hide Half, Modulus;
    var y := Half(a, x);
    if y <= Modulus(a) {
      StepIsBijection(a, y);
    } else {
      OvershootSettles(a, y);
    }
  }

  lemma {:induction false} RunStaysSettled(a: nat, x: Word, n: nat)
    requires Multiplier(a) && x <= Modulus(a)
    ensures Run(a, x, n) <= Modulus(a)
    decreases n
  {
    hide Half, Modulus;
    if n > 0 {
      StepIsBijection(a, x);
      RunStaysSettled(a, Half(a, x), n - 1);
    }
  }

  lemma MultipleStays(m: nat, a: nat, x: nat, hi: nat)
    requires m > 0 && x % m == 0
    ensures (a * x - m * hi) % m == 0
  {
    var k := x / m;
    assert x == m * k;
    Reassociate(m, a, k);
    Reassociate(a, m, k);
    DifferenceOfMultiples(m, a * k, hi);
    MultipleModulo(m, a * k - hi);
  }

  lemma MultipleWas(m: nat, y: nat, lo: nat)
    requires m > 0 && y % m == 0
    ensures (y * 65536 - m * lo) % m == 0
  {
    var k := y / m;
    assert y == m * k;
    Reassociate(m, k, 65536);
    DifferenceOfMultiples(m, k * 65536, lo);
    MultipleModulo(m, k * 65536 - lo);
  }

  lemma ZeroClass(a: nat, x: Word)
    requires Multiplier(a)
    ensures Half(a, x) % Modulus(a) == 0 <==> x % Modulus(a) == 0
  {
    hide Half, Modulus;
    StepIsMultiplication(a, x);
    if x % Modulus(a) == 0 { MultipleStays(Modulus(a), a, x, x / 65536); }
    if Half(a, x) % Modulus(a) == 0 { MultipleWas(Modulus(a), Half(a, x), x % 65536); }
  }

  lemma FixedPoints(a: nat)
    requires Multiplier(a)
    ensures Half(a, 0) == 0 && Half(a, Modulus(a)) == Modulus(a)
  {
    var m := Modulus(a);
    RemainderIs(m, 65536, a - 1, 65535);
    assert Half(a, m) == a * 65535 + (a - 1);
  }

  /** 0 and the modulus are fixed points of the step.  A run from a seed that is not a multiple of
      the modulus never meets either of them; from a multiple, every state is a multiple. */
  lemma {:induction false} FixedPointsAvoided(a: nat, x: Word, n: nat)
    requires Multiplier(a)
    ensures Run(a, x, n) % Modulus(a) == 0 <==> x % Modulus(a) == 0
    ensures x % Modulus(a) != 0 ==> Run(a, x, n) != 0 && Run(a, x, n) != Modulus(a)
    decreases n
  {
    hide Half, Modulus;
    if n > 0 {
      ZeroClass(a, x);
      FixedPointsAvoided(a, Half(a, x), n - 1);
    }
    MultipleModulo(Modulus(a), 1);
    MultipleModulo(Modulus(a), 0);
  }

  lemma {:induction false} RunStep(a: nat, x: Word, n: nat)
    requires Multiplier(a)
    ensures Run(a, x, n + 1) == Half(a, Run(a, x, n))
    decreases n
  {
    hide Half;
    if n > 0 { RunStep(a, Half(a, x), n - 1); }
  }

  // ---- the generator object and its reservoirs

  /** One output word from the state of the two halves: `(z << 16) + w`. */
  function Output(z: Word, w: Word): Word
  {
    ((z * 65536) % TWO32 + w) % TWO32
  }

  /** The low half of a word is that of `w`; the high half is the low half of `z` plus the high half of
      `w`. */
  lemma OutputParts(z: Word, w: Word)
    ensures Output(z, w) % 65536 == w % 65536
    ensures Output(z, w) / 65536 == (z + w / 65536) % 65536
  {
    var a, b, c := z % 65536, w / 65536, w % 65536;
    RemainderIs(z * 65536, TWO32, z / 65536, a * 65536);
    var q, h := (a + b) / 65536, (a + b) % 65536;
    RemainderIs(a * 65536 + w, TWO32, q, h * 65536 + c);
    RemainderIs(h * 65536 + c, 65536, h, c);
    AddMultiple(a + b, 65536, z / 65536);
  }

  /** With the same `w`, two words are equal exactly if the low halves of `z` are. */
  lemma OutputsAgree(z: Word, y: Word, w: Word)
    ensures Output(z, w) == Output(y, w) <==> z % 65536 == y % 65536
  {
    hide Output;
    OutputParts(z, w);
    OutputParts(y, w);
    SameAfterSum(z, y, w / 65536);
  }

  lemma SameAfterSum(z: nat, y: nat, b: nat)
    ensures (z + b) % 65536 == (y + b) % 65536 <==> z % 65536 == y % 65536
  {}

  /** The `n`-th word after the state (z, w). */
  function WordAt(z: Word, w: Word, n: nat): Word
  {
    Output(Run(A_Z, z, n), Run(A_W, w, n))
  }

  /** In every run the low halves of the words are those of the Lehmer sequence of `w`, and the high
      halves add the low halves of that of `z`. */
  lemma WordHalves(z: Word, w: Word, n: nat)
    ensures WordAt(z, w, n) % 65536 == Run(A_W, w, n) % 65536
    ensures WordAt(z, w, n) / 65536 == (Run(A_Z, z, n) + Run(A_W, w, n) / 65536) % 65536
  {
    hide Run, Output;
    OutputParts(Run(A_Z, z, n), Run(A_W, w, n));
  }

  /** The first word from the default seeds. */
  lemma FirstWord()
    ensures WordAt(SEED_Z, SEED_W, 1) == 820856226
  {
    assert Half(A_Z, SEED_Z) == 812916871;
    assert Half(A_W, SEED_W) == 275137954;
    assert Run(A_Z, 812916871, 0) == 812916871 && Run(A_W, 275137954, 0) == 275137954;
  }

  datatype Width = OneBit | EightBits | SixteenBits {
    function Base(): nat
    {
      match this case OneBit => 2 case EightBits => 256 case SixteenBits => 65536
    }

    function Count(): nat
    {
      match this case OneBit => 32 case EightBits => 4 case SixteenBits => 2
    }
  }

  /** The `n` low digits of `value`, least significant first. */
  function Digits(value: nat, width: Width, n: nat): (s: seq<nat>)
    ensures |s| == n
    decreases n
  {
    if n == 0 then [] else [value % width.Base()] + Digits(value / width.Base(), width, n - 1)
  }

  function FromDigits(s: seq<nat>, width: Width): nat
  {
    if s == [] then 0 else s[0] + width.Base() * FromDigits(s[1..], width)
  }

  function PowerOf(width: Width, n: nat): nat
  {
    if n == 0 then 1 else width.Base() * PowerOf(width, n - 1)
  }

  lemma {:induction false} DigitsRejoin(value: nat, width: Width, n: nat)
    requires value < PowerOf(width, n)
    ensures FromDigits(Digits(value, width, n), width) == value
    decreases n
  {
    if n > 0 {
      assert value / width.Base() < PowerOf(width, n - 1);
      DigitsRejoin(value / width.Base(), width, n - 1);
      assert Digits(value, width, n)[1..] == Digits(value / width.Base(), width, n - 1);
    }
  }

  /** The draws of one word give the word back. */
  lemma DrawsRejoin(word: Word, width: Width)
    ensures FromDigits(Digits(word, width, width.Count()), width) == word
  {
    assert PowerOf(OneBit, 8) == 256 && PowerOf(OneBit, 16) == 65536 && PowerOf(OneBit, 24) == 16777216;
    assert PowerOf(OneBit, 32) == TWO32;
    assert PowerOf(EightBits, 4) == TWO32 && PowerOf(SixteenBits, 2) == TWO32;
    DigitsRejoin(word, width, width.Count());
  }

  /** How many of the draws are of a width. */
  function CountOf(widths: seq<Width>, x: Width): nat
  {
    if widths == [] then 0
    else CountOf(widths[..|widths| - 1], x) + if widths[|widths| - 1] == x then 1 else 0
  }

  /** For which draws a new word is made, in order: those for which the earlier draws of their width
      have used up whole words. */
  function Owners(widths: seq<Width>): seq<Width>
  {
    if widths == [] then []
    else
      var front, x := widths[..|widths| - 1], widths[|widths| - 1];
      Owners(front) + if CountOf(front, x) % x.Count() == 0 then [x] else []
  }

  /** The draws of width `x` out of `out`. */
  function Select(out: seq<nat>, widths: seq<Width>, x: Width): seq<nat>
    requires |out| == |widths|
  {
    if widths == [] then []
    else
      Select(out[..|out| - 1], widths[..|widths| - 1], x)
      + if widths[|widths| - 1] == x then [out[|out| - 1]] else []
  }

  /** All draws of width `x` from the words after (z, w) that were made for that width. */
  function Stream(z: Word, w: Word, owners: seq<Width>, x: Width): seq<nat>
  {
    if owners == [] then []
    else
      Stream(z, w, owners[..|owners| - 1], x)
      + if owners[|owners| - 1] == x then Digits(WordAt(z, w, |owners|), x, x.Count()) else []
  }

  lemma CountOfAppend(widths: seq<Width>, y: Width, x: Width)
    ensures CountOf(widths + [y], x) == CountOf(widths, x) + if x == y then 1 else 0
  {
    assert (widths + [y])[..|widths|] == widths;
  }

  lemma OwnersAppend(widths: seq<Width>, y: Width)
    ensures Owners(widths + [y]) == if CountOf(widths, y) % y.Count() == 0 then Owners(widths) + [y] else Owners(widths)
  {
    assert (widths + [y])[..|widths|] == widths;
  }

  lemma SelectAppend(out: seq<nat>, widths: seq<Width>, r: nat, y: Width, x: Width)
    requires |out| == |widths|
    ensures Select(out + [r], widths + [y], x) == if x == y then Select(out, widths, x) + [r] else Select(out, widths, x)
  {
    assert (widths + [y])[..|widths|] == widths && (out + [r])[..|out|] == out;
  }

  lemma StreamAppend(z: Word, w: Word, owners: seq<Width>, y: Width, x: Width)
    ensures Stream(z, w, owners + [y], x) ==
            if x == y then Stream(z, w, owners, x) + Digits(WordAt(z, w, |owners| + 1), x, x.Count())
            else Stream(z, w, owners, x)
  {
    assert (owners + [y])[..|owners|] == owners;
  }

  lemma NothingDrawn(z: Word, w: Word, x: Width)
    ensures CountOf([], x) == 0 && Owners([]) == [] && Select([], [], x) == [] && Stream(z, w, [], x) == []
  {}

  /** How many draws of a width are left over after `n` of them. */
  function Left(n: nat, x: Width): nat
  {
    if n % x.Count() == 0 then 0 else x.Count() - n % x.Count()
  }

  lemma LeftStep(n: nat, x: Width)
    ensures Left(n, x) == 0 <==> n % x.Count() == 0
    ensures Left(n + 1, x) == (if Left(n, x) == 0 then x.Count() else Left(n, x)) - 1
  {
    NextRemainder(n, x.Count());
  }

  lemma NextRemainder(n: nat, b: nat)
    requires b > 1
    ensures (n + 1) % b == if n % b == b - 1 then 0 else n % b + 1
    ensures (n + b) / b == (n + b - 1) / b + if n % b == 0 then 1 else 0
  {
    var q, r := n / b, n % b;
    assert n == b * q + r;
    assert b * (q + 1) == b * q + b;
    if r == b - 1 { RemainderIs(n + 1, b, q + 1, 0); } else { RemainderIs(n + 1, b, q, r + 1); }
    RemainderIs(n + b, b, q + 1, r);
    if r == 0 { RemainderIs(n + b - 1, b, q, b - 1); } else { RemainderIs(n + b - 1, b, q + 1, r - 1); }
  }

  lemma LeftNone(x: Width)
    ensures Left(0, x) == 0
  {}

  lemma AppendShift(out: seq<nat>, r: nat, rest: seq<nat>, left: seq<nat>)
    requires [r] + rest == left
    ensures (out + [r]) + rest == out + left
  {}

  class Generator {
    var z: Word
    var w: Word
    var n1: nat
    var n8: nat
    var n16: nat
    var saved1: Word
    var saved8: Word
    var saved16: Word

    constructor ()
      ensures z == SEED_Z && w == SEED_W
      ensures forall width: Width :: Pending(width) == []
    {
      z, w := SEED_Z, SEED_W;
      n1, n8, n16 := 0, 0, 0;
      saved1, saved8, saved16 := 0, 0, 0;
    }

    /** The draws of a width that are left over from its last word. */
    ghost function Pending(width: Width): seq<nat>
      reads this`n1, this`n8, this`n16, this`saved1, this`saved8, this`saved16
    {
      match width
      case OneBit => Digits(saved1 / 2, OneBit, n1)
      case EightBits => Digits(saved8 / 256, EightBits, n8)
      case SixteenBits => Digits(saved16 / 65536, SixteenBits, n16)
    }

    /** stress_mwc_seed: sets both halves and empties every reservoir. */
    method Seed(w: Word, z: Word)
      modifies this
      ensures this.w == w && this.z == z
      ensures forall width: Width :: Pending(width) == []
    {
      this.w := w;
      this.z := z;
      n1, n8, n16 := 0, 0, 0;
    }

    /** stress_mwc32. */
    method Mwc32() returns (r: Word)
      modifies this`z, this`w
      ensures z == Half(A_Z, old(z)) && w == Half(A_W, old(w))
      ensures r == Output(z, w)
      ensures r % 65536 == w % 65536 && r / 65536 == (z + w / 65536) % 65536
    {
      hide Half;
      z := Half(A_Z, z);
      w := Half(A_W, w);
      OutputParts(z, w);
      r := ((z * 65536) % TWO32 + w) % TWO32;
    }

    /** stress_mwc16. */
    method Mwc16() returns (r: nat)
      modifies this`z, this`w, this`n16, this`saved16
      ensures Drew(SixteenBits, old(z), old(w), old(Pending(SixteenBits)), r)
    {
      hide Half, Output;
      if n16 != 0 {
        n16 := n16 - 1;
        saved16 := saved16 / 65536;
      } else {
        n16 := 1;
        saved16 := Mwc32();
      }
      return saved16 % 65536;
    }

    /** stress_mwc8. */
    method Mwc8() returns (r: nat)
      modifies this`z, this`w, this`n8, this`saved8
      ensures Drew(EightBits, old(z), old(w), old(Pending(EightBits)), r)
    {
      hide Half, Output;
      if n8 != 0 {
        n8 := n8 - 1;
        saved8 := saved8 / 256;
      } else {
        n8 := 3;
        saved8 := Mwc32();
      }
      return saved8 % 256;
    }

    /** stress_mwc1. */
    method Mwc1() returns (r: nat)
      modifies this`z, this`w, this`n1, this`saved1
      ensures Drew(OneBit, old(z), old(w), old(Pending(OneBit)), r)
    {
      hide Half, Output;
      if n1 != 0 {
        n1 := n1 - 1;
        saved1 := saved1 / 2;
      } else {
        n1 := 31;
        saved1 := Mwc32();
      }
      return saved1 % 2;
    }

    /** The effect of one draw: the next left-over, or the first part of a new word. */
    ghost predicate Drew(width: Width, oldZ: Word, oldW: Word, left: seq<nat>, r: nat)
      reads this
    {
      if left != [] then
        z == oldZ && w == oldW && [r] + Pending(width) == left
      else
        && z == Half(A_Z, oldZ) && w == Half(A_W, oldW)
        && [r] + Pending(width) == Digits(Output(z, w), width, width.Count())
    }

    method Draw(width: Width) returns (r: nat)
      modifies this
      ensures Drew(width, old(z), old(w), old(Pending(width)), r)
      ensures forall x: Width :: x != width ==> Pending(x) == old(Pending(x))
    {
      match width
      case OneBit => r := Mwc1();
      case EightBits => r := Mwc8();
      case SixteenBits => r := Mwc16();
    }

    /** What every run of draws keeps: (z, w) has taken one step for each word made, and for each width
        the draws delivered and left over are together the words made for it, cut into draws. */
    ghost predicate Delivered(w0: Word, z0: Word, widths: seq<Width>, out: seq<nat>)
      requires |out| == |widths|
      reads this
    {
      && z == Run(A_Z, z0, |Owners(widths)|) && w == Run(A_W, w0, |Owners(widths)|)
      && forall x: Width ::
           && Select(out, widths, x) + Pending(x) == Stream(z0, w0, Owners(widths), x)
           && |Pending(x)| == Left(CountOf(widths, x), x)
    }

    lemma NothingYet(w0: Word, z0: Word)
      requires z == z0 && w == w0 && forall x: Width :: Pending(x) == []
      ensures Delivered(w0, z0, [], [])
    {
      forall x: Width
        ensures Select([], [], x) + Pending(x) == Stream(z0, w0, Owners([]), x)
        ensures |Pending(x)| == Left(CountOf([], x), x)
      {
        NothingDrawn(z0, w0, x);
        LeftNone(x);
        assert Pending(x) == [];
      }
    }

    method DrawNext(ghost w0: Word, ghost z0: Word, width: Width, ghost widths: seq<Width>, ghost out: seq<nat>)
      returns (r: nat)
      requires |out| == |widths| && Delivered(w0, z0, widths, out)
      modifies this
      ensures Delivered(w0, z0, widths + [width], out + [r])
    {
      hide Half, Output, Digits, Run, Stream, Select, Owners, CountOf, Left;
      ghost var owners, left := Owners(widths), Pending(width);
      LeftStep(CountOf(widths, width), width);
      OwnersAppend(widths, width);
      r := Draw(width);
      if left == [] {
        RunStep(A_Z, z0, |owners|);
        RunStep(A_W, w0, |owners|);
        left := Digits(WordAt(z0, w0, |owners| + 1), width, width.Count());
      }
      forall x: Width
        ensures Select(out + [r], widths + [width], x) + Pending(x) == Stream(z0, w0, Owners(widths + [width]), x)
        ensures |Pending(x)| == Left(CountOf(widths + [width], x), x)
      {
        CountOfAppend(widths, width, x);
        SelectAppend(out, widths, r, width, x);
        StreamAppend(z0, w0, owners, width, x);
        if x == width { AppendShift(Select(out, widths, x), r, Pending(x), left); }
      }
    }

    /** Any run of draws after seeding, of the three widths in any order.  Which draws make a new word
        depends on the widths alone, and every word is cut into draws of one width: nothing is skipped
        or repeated. */
    method Draws(widths: seq<Width>, w0: Word, z0: Word) returns (out: seq<nat>)
      modifies this
      ensures |out| == |widths| && Delivered(w0, z0, widths, out)
    {
      hide Half, Output, Digits, Run, Stream, Select, Owners, CountOf, Left;
      Seed(w0, z0);
      out := [];
      NothingYet(w0, z0);
      assert widths[..0] == [];
      while |out| < |widths|
        invariant |out| <= |widths| && Delivered(w0, z0, widths[..|out|], out)
      {
        ghost var done := widths[..|out|];
        var r := DrawNext(w0, z0, widths[|out|], done, out);
        assert widths[..|out| + 1] == done + [widths[|out|]];
        out := out + [r];
      }
      assert widths[..|widths|] == widths;
    }
  }

  /** Draws of one width alone use one word for each full count of them, rounded up. */
  lemma {:induction false} OneWidth(widths: seq<Width>, x: Width)
    requires forall i :: 0 <= i < |widths| ==> widths[i] == x
    ensures CountOf(widths, x) == |widths|
    ensures |Owners(widths)| == (|widths| + x.Count() - 1) / x.Count()
  {
    if widths != [] {
      var front := widths[..|widths| - 1];
      OneWidth(front, x);
      NextRemainder(|front|, x.Count());
    }
  }
}
