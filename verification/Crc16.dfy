/** The bitwise CCITT CRC16: what its shift register computes, and which transmission errors it
    is guaranteed to detect. */
module Crc16 {

  const POLYNOMIAL: bv16 := 0x8408

  /** The CRC that a message followed by its own check bytes always has. */
  const GOOD_FCS: bv16 := 0x470f

  // ---- register operations

  function Odd(r: bv16): bool { r & 1 == 1 }

  function Half(r: bv16): bv16 { r >> 1 }

  function Double(r: bv16): bv16 { r << 1 }

  /** Addition of registers over GF(2). */
  function Add(a: bv16, b: bv16): bv16 { a ^ b }

  function ShiftIn(p: bv16, b: bool): bv16 { (p << 1) | (if b then 1 else 0) }

  predicate Clear(p: bv16, mask: bv16) { p & mask == 0 }

  function Widen(b: bv8): bv16 { b as bv16 }

  /** One bit enters the register. */
  function Step(crc: bv16, bit: bool): bv16
  {
    Add(Half(crc), if bit != Odd(crc) then POLYNOMIAL else 0)
  }

  function Run(crc: bv16, bits: seq<bool>): bv16
    decreases |bits|
  {
    if bits == [] then crc else Run(Step(crc, bits[0]), bits[1..])
  }

  /** The final complement and byte swap. */
  function Finish(crc: bv16): bv16 { (!crc << 8) | (!crc >> 8) }

  // ---- bits, least significant first

  function Digits(r: bv16, k: nat): (s: seq<bool>)
    ensures |s| == k
    decreases k
  {
    if k == 0 then [] else [Odd(r)] + Digits(Half(r), k - 1)
  }

  function MessageBits(data: seq<bv8>): (s: seq<bool>)
    ensures |s| == 8 * |data|
  {
    if data == [] then [] else Digits(Widen(data[0]), 8) + MessageBits(data[1..])
  }

  function Zeros(k: nat): (s: seq<bool>)
    ensures |s| == k && forall i :: 0 <= i < k ==> !s[i]
  {
    seq(k, _ => false)
  }

  function Crc(data: seq<bv8>): bv16
  {
    if data == [] then 0 else Finish(Run(0xffff, MessageBits(data)))
  }

  lemma FinishFull()
    ensures Finish(0xffff) == 0
  {}

  /** The early return for an empty message gives what the loop would give. */
  lemma CrcIs(data: seq<bv8>)
    ensures Crc(data) == Finish(Run(0xffff, MessageBits(data)))
  {
    hide Finish, Step, Digits;
    FinishFull();
  }

  /** The inner loop of ccitt_crc16: the eight bits of one byte, least significant first. */
  method ClockByte(start: bv16, byte: bv8) returns (crc: bv16)
    ensures crc == Run(start, Digits(Widen(byte), 8))
  {
    hide Add, Odd, Half;
    crc := start;
    var val: bv16 := Widen(byte);
    var i := 8;
    while i > 0
      invariant 0 <= i <= 8
      invariant Run(crc, Digits(val, i)) == Run(start, Digits(Widen(byte), 8))
    {
      LowestBit(Add(val, crc));
      OddSum(val, crc);
      var doXor := 1 & Add(val, crc) == 1;
      crc := Half(crc);
      crc := Add(crc, if doXor then POLYNOMIAL else 0);
      i := i - 1;
      val := Half(val);
    }
  }

  /** ccitt_crc16. */
  method CcittCrc16(data: array<bv8>, n: nat) returns (r: bv16)
    requires n <= data.Length
    ensures r == Crc(data[..n])
  {
    hide Finish, Step, Digits;
    if n == 0 {
      return 0;
    }
    var crc: bv16 := 0xffff;
    for k := 0 to n
      invariant Run(crc, MessageBits(data[k..n])) == Run(0xffff, MessageBits(data[..n]))
    {
      ghost var rest := data[k..n];
      assert rest[0] == data[k] && rest[1..] == data[k + 1..n];
      RunConcat(crc, Digits(Widen(data[k]), 8), MessageBits(rest[1..]));
      crc := ClockByte(crc, data[k]);
    }
    assert Run(crc, MessageBits(data[n..n])) == crc;
    r := Finish(crc);
  }

  lemma LowestBit(r: bv16)
    ensures 1 & r == 1 <==> Odd(r)
  {}

  // ---- the register step is linear and invertible

  lemma OddSum(a: bv16, b: bv16)
    ensures Odd(Add(a, b)) == (Odd(a) != Odd(b))
  {}

  lemma HalfSum(a: bv16, b: bv16)
    ensures Half(Add(a, b)) == Add(Half(a), Half(b))
  {}

  lemma AddAssociative(a: bv16, b: bv16, c: bv16)
    ensures Add(Add(a, b), c) == Add(a, Add(b, c))
  {}

  lemma AddCommutative(a: bv16, b: bv16)
    ensures Add(a, b) == Add(b, a)
  {}

  lemma AddRearrange(a: bv16, b: bv16, c: bv16, d: bv16)
    ensures Add(Add(a, b), Add(c, d)) == Add(Add(a, c), Add(b, d))
  {
    hide Add;
    AddAssociative(a, b, Add(c, d));
    AddAssociative(b, c, d);
    AddCommutative(b, c);
    AddAssociative(c, b, d);
    AddAssociative(a, c, Add(b, d));
  }

  lemma AddZero(s: bv16)
    ensures Add(s, 0) == s
  {}

  lemma AddZeroLeft(s: bv16)
    ensures Add(0, s) == s
  {}

  lemma AddSelf(s: bv16)
    ensures Add(s, s) == 0
  {}

  lemma StepLinear(a: bv16, b: bv16, x: bool, y: bool)
    ensures Step(Add(a, b), x != y) == Add(Step(a, x), Step(b, y))
  {
    hide Add, Half, Odd;
    OddSum(a, b);
    HalfSum(a, b);
    var p := if x != Odd(a) then POLYNOMIAL else 0;
    var q := if y != Odd(b) then POLYNOMIAL else 0;
    AddRearrange(Half(a), Half(b), p, q);
    AddSelf(p);
    AddZero(p);
    AddZeroLeft(q);
  }

  lemma StepInjective(a: bv16, b: bv16, x: bool)
    requires Step(a, x) == Step(b, x)
    ensures a == b
  {}

  function Xor(a: seq<bool>, b: seq<bool>): (s: seq<bool>)
    requires |a| == |b|
    ensures |s| == |a| && forall i :: 0 <= i < |a| ==> s[i] == (a[i] != b[i])
  {
    seq(|a|, i requires 0 <= i < |a| => a[i] != b[i])
  }

  lemma {:induction false} RunLinear(c: bv16, d: bv16, a: seq<bool>, b: seq<bool>)
    requires |a| == |b|
    ensures Run(Add(c, d), Xor(a, b)) == Add(Run(c, a), Run(d, b))
    decreases |a|
  {
    hide Step, Add;
    if a != [] {
      StepLinear(c, d, a[0], b[0]);
      assert Xor(a, b)[1..] == Xor(a[1..], b[1..]);
      RunLinear(Step(c, a[0]), Step(d, b[0]), a[1..], b[1..]);
    }
  }

  lemma {:induction false} RunInjective(c: bv16, d: bv16, a: seq<bool>)
    requires Run(c, a) == Run(d, a)
    ensures c == d
    decreases |a|
  {
    hide Step;
    if a != [] {
      RunInjective(Step(c, a[0]), Step(d, a[0]), a[1..]);
      StepInjective(c, d, a[0]);
    }
  }

  lemma {:induction false} RunConcat(c: bv16, a: seq<bool>, b: seq<bool>)
    ensures Run(c, a + b) == Run(Run(c, a), b)
    decreases |a|
  {
    hide Step;
    if a == [] {
      assert a + b == b;
    } else {
      assert (a + b)[1..] == a[1..] + b;
      RunConcat(Step(c, a[0]), a[1..], b);
    }
  }

  lemma OddZero()
    ensures !Odd(0)
  {}

  lemma HalfZero()
    ensures Half(0) == 0
  {}

  lemma StepZero(b: bool)
    ensures Step(0, b) == if b then POLYNOMIAL else 0
  {
    hide Add, Half, Odd;
    OddZero();
    HalfZero();
    AddZeroLeft(if b then POLYNOMIAL else 0);
  }

  lemma {:induction false} RunZero(k: nat)
    ensures Run(0, Zeros(k)) == 0
  {
    hide Step;
    if k > 0 {
      assert Zeros(k)[1..] == Zeros(k - 1);
      StepZero(false);
      RunZero(k - 1);
    }
  }

  // ---- up to 16 bits entering the register are the same as adding them all at once

  function Pack(w: seq<bool>): bv16
  {
    if w == [] then 0 else ShiftIn(Pack(w[1..]), w[0])
  }

  function HighMask(k: nat): bv16
  {
    if k == 0 then 0xffff else Double(HighMask(k - 1))
  }

  lemma HighMaskTop(k: nat)
    requires k <= 15
    ensures HighMask(k) & 0x8000 == 0x8000
  {
    assert HighMask(0) == 0xffff;
    assert HighMask(2) == 0xfffc;
    assert HighMask(4) == 0xfff0;
    assert HighMask(6) == 0xffc0;
    assert HighMask(8) == 0xff00;
    assert HighMask(10) == 0xfc00;
    assert HighMask(12) == 0xf000;
    assert HighMask(14) == 0xc000;
  }

  lemma HighMaskValues()
    ensures HighMask(8) == 0xff00 && HighMask(16) == 0
  {
    assert HighMask(4) == 0xfff0;
    assert HighMask(8) == 0xff00;
    assert HighMask(12) == 0xf000;
  }

  lemma ClearNone(s: bv16)
    ensures Clear(s, 0)
  {}

  lemma ClearAll(s: bv16)
    ensures Clear(s, 0xffff) <==> s == 0
  {}

  lemma ClearSubmask(p: bv16, h: bv16)
    requires Clear(p, h) && h & 0x8000 == 0x8000
    ensures Clear(p, 0x8000)
  {}

  lemma ClearShiftIn(p: bv16, h: bv16, b: bool)
    requires Clear(p, h)
    ensures Clear(ShiftIn(p, b), Double(h))
  {}

  lemma ClearHalf(a: bv16, h: bv16)
    requires Clear(a, Double(h))
    ensures Clear(Half(a), h)
  {}

  lemma {:induction false} PackHigh(w: seq<bool>)
    ensures Clear(Pack(w), HighMask(|w|))
  {
    hide Clear, ShiftIn, Double;
    if w == [] {
      ClearAll(0);
    } else {
      PackHigh(w[1..]);
      ClearShiftIn(Pack(w[1..]), HighMask(|w| - 1), w[0]);
    }
  }

  lemma PackTop(w: seq<bool>)
    requires |w| <= 15
    ensures Clear(Pack(w), 0x8000)
  {
    hide Clear, Pack, HighMask;
    PackHigh(w);
    HighMaskTop(|w|);
    ClearSubmask(Pack(w), HighMask(|w|));
  }

  lemma HalfShiftIn(p: bv16, b: bool)
    requires Clear(p, 0x8000)
    ensures Half(ShiftIn(p, b)) == p
  {}

  lemma OddShiftIn(p: bv16, b: bool)
    ensures Odd(ShiftIn(p, b)) == b
  {}

  lemma AbsorbStep(s: bv16, p: bv16, b: bool)
    requires Clear(p, 0x8000)
    ensures Add(Step(s, b), p) == Step(Add(s, ShiftIn(p, b)), false)
  {
    hide Add, Half, Odd, ShiftIn, Clear;
    var x := ShiftIn(p, b);
    HalfShiftIn(p, b);
    OddShiftIn(p, b);
    HalfSum(s, x);
    OddSum(s, x);
    var q := if b != Odd(s) then POLYNOMIAL else 0;
    AddAssociative(Half(s), q, p);
    AddCommutative(q, p);
    AddAssociative(Half(s), p, q);
  }

  lemma {:induction false} Absorb(s: bv16, w: seq<bool>)
    requires |w| <= 16
    ensures Run(s, w) == Run(Add(s, Pack(w)), Zeros(|w|))
    decreases |w|
  {
    hide Step, Add, ShiftIn, Clear;
    if w == [] {
      AddZero(s);
    } else {
      var p := Pack(w[1..]);
      PackTop(w[1..]);
      AbsorbStep(s, p, w[0]);
      Absorb(Step(s, w[0]), w[1..]);
      assert Zeros(|w|)[1..] == Zeros(|w| - 1);
    }
  }

  lemma ShiftInZero(p: bv16, b: bool)
    requires Clear(p, 0x8000) && ShiftIn(p, b) == 0
    ensures p == 0 && !b
  {}

  lemma {:induction false} PackZero(w: seq<bool>)
    requires |w| <= 16 && Pack(w) == 0
    ensures w == Zeros(|w|)
  {
    hide ShiftIn, Clear;
    if w != [] {
      PackTop(w[1..]);
      ShiftInZero(Pack(w[1..]), w[0]);
      PackZero(w[1..]);
    }
  }

  // ---- packing undoes unpacking

  lemma DigitsUnfold(a: bv16, k: nat)
    requires k > 0
    ensures Digits(a, k) == [Odd(a)] + Digits(Half(a), k - 1)
  {}

  lemma Rejoin(a: bv16)
    ensures ShiftIn(Half(a), Odd(a)) == a
  {}

  lemma {:induction false} PackDigits(a: bv16, k: nat)
    requires Clear(a, HighMask(k))
    ensures Pack(Digits(a, k)) == a
    decreases k
  {
    hide Clear, ShiftIn, Odd, Half, Double;
    if k == 0 {
      ClearAll(a);
    } else {
      ClearHalf(a, HighMask(k - 1));
      PackDigits(Half(a), k - 1);
      Rejoin(a);
      assert Digits(a, k)[1..] == Digits(Half(a), k - 1);
    }
  }

  lemma ByteClear(b: bv8)
    ensures Clear(Widen(b), 0xff00)
  {}

  lemma WidenInjective(a: bv8, b: bv8)
    requires Widen(a) == Widen(b)
    ensures a == b
  {}

  lemma PackByte(a: bv8)
    ensures Pack(Digits(Widen(a), 8)) == Widen(a)
  {
    hide Clear, Digits, Pack, Widen, HighMask;
    HighMaskValues();
    ByteClear(a);
    PackDigits(Widen(a), 8);
  }

  lemma {:induction false} MessageDetermined(a: seq<bv8>, b: seq<bv8>)
    requires |a| == |b| && MessageBits(a) == MessageBits(b)
    ensures a == b
  {
    hide Digits, Pack, Widen;
    if a != [] {
      assert Digits(Widen(a[0]), 8) == MessageBits(a)[..8];
      assert Digits(Widen(b[0]), 8) == MessageBits(b)[..8];
      PackByte(a[0]);
      PackByte(b[0]);
      WidenInjective(a[0], b[0]);
      assert MessageBits(a[1..]) == MessageBits(a)[8..];
      assert MessageBits(b[1..]) == MessageBits(b)[8..];
      MessageDetermined(a[1..], b[1..]);
      assert a == [a[0]] + a[1..] && b == [b[0]] + b[1..];
    }
  }

  // ---- burst errors

  /** `a` and `b` agree outside the window of `w` bits that starts at `lo`. */
  ghost predicate DifferWithin(a: seq<bool>, b: seq<bool>, lo: nat, w: nat)
    requires |a| == |b|
  {
    forall i :: 0 <= i < |a| && !(lo <= i < lo + w) ==> a[i] == b[i]
  }

  lemma WindowInjective(c: bv16, a: seq<bool>, b: seq<bool>)
    requires |a| == |b| <= 16 && Run(c, a) == Run(c, b)
    ensures a == b
  {
    hide Step, Pack, Add, Run;
    var e := Xor(a, b);
    RunLinear(c, c, a, b);
    AddSelf(c);
    AddSelf(Run(c, a));
    Absorb(0, e);
    AddZeroLeft(Pack(e));
    RunZero(|e|);
    RunInjective(Pack(e), 0, Zeros(|e|));
    PackZero(e);
    assert forall i :: 0 <= i < |a| ==> !e[i] && a[i] == b[i];
  }

  lemma RunSplit(c: bv16, a: seq<bool>, lo: nat, hi: nat)
    requires lo <= hi <= |a|
    ensures Run(c, a) == Run(Run(Run(c, a[..lo]), a[lo..hi]), a[hi..])
  {
    hide Step, Run;
    assert a == a[..lo] + a[lo..];
    assert a[lo..] == a[lo..hi] + a[hi..];
    RunConcat(c, a[..lo], a[lo..]);
    RunConcat(Run(c, a[..lo]), a[lo..hi], a[hi..]);
  }

  /** A difference confined to 16 bits reaches the end of the register run. */
  lemma BurstRun(c: bv16, a: seq<bool>, b: seq<bool>, lo: nat)
    requires |a| == |b| && DifferWithin(a, b, lo, 16) && Run(c, a) == Run(c, b)
    ensures a == b
  {
    hide Step, Run;
    if lo < |a| {
      var hi := if lo + 16 <= |a| then lo + 16 else |a|;
      assert b[..lo] == a[..lo] && b[hi..] == a[hi..];
      RunSplit(c, a, lo, hi);
      RunSplit(c, b, lo, hi);
      var d := Run(c, a[..lo]);
      RunInjective(Run(d, a[lo..hi]), Run(d, b[lo..hi]), a[hi..]);
      WindowInjective(d, a[lo..hi], b[lo..hi]);
      assert a == a[..lo] + a[lo..hi] + a[hi..] && b == b[..lo] + b[lo..hi] + b[hi..];
    }
  }

  lemma FinishInjective(a: bv16, b: bv16)
    requires Finish(a) == Finish(b)
    ensures a == b
  {}

  /** Every burst error is detected: two different messages of one length that differ only within
      16 consecutive bits have different CRCs, whatever the length and wherever the burst. */
  lemma BurstDetected(a: seq<bv8>, b: seq<bv8>, lo: nat)
    requires |a| == |b| && a != b
    requires DifferWithin(MessageBits(a), MessageBits(b), lo, 16)
    ensures Crc(a) != Crc(b)
  {
    hide Finish, Step, Digits, DifferWithin, Run;
    if Crc(a) == Crc(b) {
      FinishInjective(Run(0xffff, MessageBits(a)), Run(0xffff, MessageBits(b)));
      BurstRun(0xffff, MessageBits(a), MessageBits(b), lo);
      MessageDetermined(a, b);
    }
  }

  // ---- odd numbers of errors

  function OddOnes(bits: seq<bool>): bool
  {
    if bits == [] then false else bits[0] != OddOnes(bits[1..])
  }

  /** Whether the register holds an odd number of ones. */
  function Parity(r: bv16): bool
  {
    OddOnes(Digits(r, 16))
  }

  lemma OddDigitsStep(a: bv16, k: nat)
    requires k > 0
    ensures OddOnes(Digits(a, k)) == (Odd(a) != OddOnes(Digits(Half(a), k - 1)))
  {
    hide Odd, Half;
    assert Digits(a, k)[1..] == Digits(Half(a), k - 1);
  }

  /** Adding registers adds their digits. */
  lemma {:induction false} DigitsAdd(a: bv16, b: bv16, k: nat)
    ensures Digits(Add(a, b), k) == Xor(Digits(a, k), Digits(b, k))
    decreases k
  {
    hide Add, Odd, Half;
    if k > 0 {
      OddSum(a, b);
      HalfSum(a, b);
      DigitsAdd(Half(a), Half(b), k - 1);
    }
  }

  /** The digit above the width of a register is zero. */
  lemma {:induction false} DigitsHigh(a: bv16, k: nat)
    requires Clear(a, HighMask(k))
    ensures Digits(a, k + 1) == Digits(a, k) + [false]
    decreases k
  {
    hide Clear, Odd, Half, Double;
    if k == 0 {
      ClearAll(a);
      OddZero();
    } else {
      ClearHalf(a, HighMask(k - 1));
      DigitsHigh(Half(a), k - 1);
    }
  }

  /** Halving a register shifts its digits down by one. */
  lemma HalfDigits(a: bv16)
    ensures Digits(Half(a), 16) == Digits(a, 16)[1..] + [false]
  {
    hide Clear, Odd, Half, HighMask, Digits;
    HighMaskValues();
    ClearNone(a);
    DigitsHigh(a, 16);
    DigitsUnfold(a, 17);
    assert Digits(Half(a), 16) == (Digits(a, 16) + [false])[1..];
  }

  lemma {:induction false} OddDigitsZero(k: nat)
    ensures !OddOnes(Digits(0, k))
  {
    if k > 0 {
      OddDigitsStep(0, k);
      OddDigitsZero(k - 1);
    }
  }

  lemma PolynomialParity()
    ensures Parity(POLYNOMIAL)
  {
    OddDigitsZero(0);
    OddDigitsStep(0x0001, 1); OddDigitsStep(0x0002, 2); OddDigitsStep(0x0004, 3); OddDigitsStep(0x0008, 4);
    OddDigitsStep(0x0010, 5); OddDigitsStep(0x0021, 6); OddDigitsStep(0x0042, 7); OddDigitsStep(0x0084, 8);
    OddDigitsStep(0x0108, 9); OddDigitsStep(0x0210, 10); OddDigitsStep(0x0420, 11); OddDigitsStep(0x0840, 12);
    OddDigitsStep(0x1081, 13); OddDigitsStep(0x2102, 14); OddDigitsStep(0x4204, 15); OddDigitsStep(0x8408, 16);
  }

  lemma {:induction false} OddOnesAppend(s: seq<bool>, b: bool)
    ensures OddOnes(s + [b]) == (OddOnes(s) != b)
  {
    if s != [] {
      assert (s + [b])[1..] == s[1..] + [b];
      OddOnesAppend(s[1..], b);
    }
  }

  /** The generator has an even number of terms, so a step flips the parity exactly when a one
      enters. */
  lemma StepParity(s: bv16, b: bool)
    ensures Parity(Step(s, b)) == (Parity(s) != b)
  {
    hide Add, Clear, Odd, Half, HighMask, Digits;
    var p := if b != Odd(s) then POLYNOMIAL else 0;
    DigitsAdd(Half(s), p, 16);
    OddOnesXor(Digits(Half(s), 16), Digits(p, 16));
    HalfDigits(s);
    OddOnesAppend(Digits(s, 16)[1..], false);
    DigitsHead(s);
    PolynomialParity();
    OddDigitsZero(16);
  }

  lemma DigitsHead(s: bv16)
    ensures OddOnes(Digits(s, 16)) == (Odd(s) != OddOnes(Digits(s, 16)[1..]))
  {
    hide Odd, Half;
  }

  lemma {:induction false} RunParity(s: bv16, bits: seq<bool>)
    ensures Parity(Run(s, bits)) == (Parity(s) != OddOnes(bits))
    decreases |bits|
  {
    hide Step, Parity;
    if bits != [] {
      StepParity(s, bits[0]);
      RunParity(Step(s, bits[0]), bits[1..]);
    }
  }

  lemma {:induction false} OddOnesXor(a: seq<bool>, b: seq<bool>)
    requires |a| == |b|
    ensures OddOnes(Xor(a, b)) == (OddOnes(a) != OddOnes(b))
  {
    if a != [] {
      assert Xor(a, b)[1..] == Xor(a[1..], b[1..]);
      OddOnesXor(a[1..], b[1..]);
    }
  }

  /** Any odd number of bit errors is detected. */
  lemma OddErrorsDetected(a: seq<bv8>, b: seq<bv8>)
    requires |a| == |b| && OddOnes(Xor(MessageBits(a), MessageBits(b)))
    ensures Crc(a) != Crc(b)
  {
    hide Finish, Step, Parity, Digits, Run;
    var x, y := MessageBits(a), MessageBits(b);
    OddOnesXor(x, y);
    RunParity(0xffff, x);
    RunParity(0xffff, y);
    if Crc(a) == Crc(b) { FinishInjective(Run(0xffff, x), Run(0xffff, y)); }
  }

  // ---- the check bytes

  function HighByte(r: bv16): bv8
  {
    assert r >> 8 <= 0xff;
    (r >> 8) as bv8
  }

  function LowByte(r: bv16): bv8
  {
    assert r & 0xff <= 0xff;
    (r & 0xff) as bv8
  }

  function Complement(r: bv16): bv16 { !r }

  function Join(r: bv16, q: bv16): bv16 { r | q }

  function Double4(p: bv16): bv16 { p << 4 }

  function Double8(p: bv16): bv16 { p << 8 }

  /** Two bytes as the register absorbs them: the first one in the low half. */
  function Word(x: bv8, y: bv8): bv16
  {
    Join(Widen(x), Double8(Widen(y)))
  }

  function ShiftUp(p: bv16, k: nat): bv16
  {
    if k == 0 then p else Double(ShiftUp(p, k - 1))
  }

  lemma {:induction false} MessageConcat(a: seq<bv8>, b: seq<bv8>)
    ensures MessageBits(a + b) == MessageBits(a) + MessageBits(b)
  {
    hide Digits, Widen;
    if a == [] {
      assert a + b == b;
    } else {
      assert (a + b)[1..] == a[1..] + b;
      MessageConcat(a[1..], b);
    }
  }

  lemma ShiftOneJoin(h: bv16, q: bv16)
    ensures ShiftIn(Join(h, q), true) == Join(ShiftIn(h, true), Double(q))
  {}

  lemma ShiftZeroJoin(h: bv16, q: bv16)
    ensures ShiftIn(Join(h, q), false) == Join(ShiftIn(h, false), Double(q))
  {}

  lemma ShiftInJoin(h: bv16, q: bv16, b: bool)
    ensures ShiftIn(Join(h, q), b) == Join(ShiftIn(h, b), Double(q))
  {
    hide ShiftIn, Join, Double;
    if b { ShiftOneJoin(h, q); } else { ShiftZeroJoin(h, q); }
  }

  lemma JoinZero(p: bv16)
    ensures Join(0, p) == p
  {}

  lemma {:induction false} PackOnto(r: bv16, k: nat, w: seq<bool>)
    requires Clear(r, HighMask(k))
    ensures Pack(Digits(r, k) + w) == Join(r, ShiftUp(Pack(w), k))
    decreases k
  {
    hide Clear, ShiftIn, Join, Odd, Half, Double;
    if k == 0 {
      ClearAll(r);
      JoinZero(Pack(w));
      assert [] + w == w;
    } else {
      ClearHalf(r, HighMask(k - 1));
      PackOnto(Half(r), k - 1, w);
      ShiftInJoin(Half(r), ShiftUp(Pack(w), k - 1), Odd(r));
      Rejoin(r);
      assert (Digits(r, k) + w)[1..] == Digits(Half(r), k - 1) + w;
    }
  }

  lemma DoubleFour(p: bv16)
    ensures Double(Double(Double(Double(p)))) == Double4(p)
  {}

  lemma DoubleEight(p: bv16)
    ensures Double4(Double4(p)) == Double8(p)
  {}

  lemma ShiftUpFour(p: bv16, k: nat)
    ensures ShiftUp(p, k + 4) == Double4(ShiftUp(p, k))
  {
    hide Double, Double4;
    DoubleFour(ShiftUp(p, k));
    assert ShiftUp(p, k + 2) == Double(Double(ShiftUp(p, k)));
  }

  lemma PackTwoBytes(x: bv8, y: bv8)
    ensures Pack(Digits(Widen(x), 8) + Digits(Widen(y), 8)) == Word(x, y)
  {
    hide Clear, Digits, Pack, Join, Widen, Double, Double4, Double8, HighMask;
    HighMaskValues();
    ByteClear(x);
    PackOnto(Widen(x), 8, Digits(Widen(y), 8));
    PackByte(y);
    ShiftUpFour(Widen(y), 0);
    ShiftUpFour(Widen(y), 4);
    DoubleEight(Widen(y));
  }

  function ZeroStep4(c: bv16): bv16
  {
    Step(Step(Step(Step(c, false), false), false), false)
  }

  lemma ZeroSteps(c: bv16, k: nat)
    requires k >= 4
    ensures Run(c, Zeros(k)) == Run(ZeroStep4(c), Zeros(k - 4))
  {
    hide Step, Run;
    OneZeroStep(c, k);
    OneZeroStep(Step(c, false), k - 1);
    OneZeroStep(Step(Step(c, false), false), k - 2);
    OneZeroStep(Step(Step(Step(c, false), false), false), k - 3);
  }

  lemma OneZeroStep(c: bv16, k: nat)
    requires k >= 1
    ensures Run(c, Zeros(k)) == Run(Step(c, false), Zeros(k - 1))
  {
    hide Step;
    assert Zeros(k)[1..] == Zeros(k - 1);
  }

  lemma FlushValues()
    ensures ZeroStep4(ZeroStep4(ZeroStep4(ZeroStep4(0xffff)))) == 0xf0b8
  {}

  lemma FlushOnes()
    ensures Run(0xffff, Zeros(16)) == 0xf0b8
  {
    hide Step, ZeroStep4;
    ZeroSteps(0xffff, 16);
    ZeroSteps(ZeroStep4(0xffff), 12);
    ZeroSteps(ZeroStep4(ZeroStep4(0xffff)), 8);
    ZeroSteps(ZeroStep4(ZeroStep4(ZeroStep4(0xffff))), 4);
    var c := ZeroStep4(ZeroStep4(ZeroStep4(ZeroStep4(0xffff))));
    assert Zeros(0) == [];
    assert Run(c, Zeros(0)) == c;
    FlushValues();
  }

  lemma AddOnes(reg: bv16, w: bv16)
    ensures Add(reg, w) == 0xffff ==> w == Complement(reg)
  {}

  lemma AddComplement(reg: bv16)
    ensures Add(reg, Complement(reg)) == 0xffff
  {}

  lemma WordLow(x: bv8, y: bv8)
    ensures LowByte(Word(x, y)) == x
  {}

  lemma WordHigh(x: bv8, y: bv8)
    ensures HighByte(Word(x, y)) == y
  {}

  lemma WordOfBytes(w: bv16)
    ensures Word(LowByte(w), HighByte(w)) == w
  {}

  lemma FinishHigh(reg: bv16)
    ensures HighByte(Finish(reg)) == LowByte(Complement(reg))
  {}

  lemma FinishLow(reg: bv16)
    ensures LowByte(Finish(reg)) == HighByte(Complement(reg))
  {}

  lemma CheckBytes(reg: bv16, x: bv8, y: bv8)
    ensures Add(reg, Word(x, y)) == 0xffff <==> x == HighByte(Finish(reg)) && y == LowByte(Finish(reg))
  {
    hide Add, Word, HighByte, LowByte, Finish, Complement;
    AddOnes(reg, Word(x, y));
    AddComplement(reg);
    WordLow(x, y);
    WordHigh(x, y);
    WordOfBytes(Complement(reg));
    FinishHigh(reg);
    FinishLow(reg);
  }

  lemma FinishGood()
    ensures Finish(0xf0b8) == GOOD_FCS
  {}

  lemma TwoByteBits(x: bv8, y: bv8)
    ensures MessageBits([x, y]) == Digits(Widen(x), 8) + Digits(Widen(y), 8)
  {
    hide Digits, Widen;
    assert [x, y][1..] == [y] && [y][1..] == [];
    assert MessageBits([y]) == Digits(Widen(y), 8) + MessageBits([]);
  }

  /** A message followed by the two bytes of its CRC, high byte first, always has the CRC 0x470f:
      the register ends at 0xf0b8, the good FCS of RFC 1662, Appendix C.2.  No other two bytes do. */
  lemma GoodFcs(d: seq<bv8>, x: bv8, y: bv8)
    ensures Crc(d + [x, y]) == GOOD_FCS <==> x == HighByte(Crc(d)) && y == LowByte(Crc(d))
  {
    hide Step, Add, Digits, Widen, Word, Pack, Finish, HighByte, LowByte, Run, MessageBits, Crc;
    CrcIs(d);
    CrcIs(d + [x, y]);
    var reg := Run(0xffff, MessageBits(d));
    var check := Digits(Widen(x), 8) + Digits(Widen(y), 8);
    MessageConcat(d, [x, y]);
    TwoByteBits(x, y);
    RunConcat(0xffff, MessageBits(d), check);
    Absorb(reg, check);
    PackTwoBytes(x, y);
    FlushOnes();
    FinishGood();
    CheckBytes(reg, x, y);
    if Crc(d + [x, y]) == GOOD_FCS {
      FinishInjective(Run(reg, check), 0xf0b8);
      RunInjective(Add(reg, Word(x, y)), 0xffff, Zeros(16));
    }
  }

  // ---- the register is the remainder of polynomial division

  /** x^16 + x^12 + x^5 + 1, highest coefficient first: the constant 0x11021 of which 0x8408 is the
      reversed low part. */
  const GENERATOR: seq<bool> :=
    [true,
     false, false, false, true, false, false, false, false,
     false, false, true, false, false, false, false, true]

  /** `p` with `g` added to its leading coefficients. */
  function AddLeading(p: seq<bool>, g: seq<bool>): (s: seq<bool>)
    requires |g| <= |p|
    ensures |s| == |p| && forall i :: 0 <= i < |p| ==> s[i] == (if i < |g| then p[i] != g[i] else p[i])
  {
    seq(|p|, i requires 0 <= i < |p| => if i < |g| then p[i] != g[i] else p[i])
  }

  /** Schoolbook long division over GF(2): the remainder modulo the generator. */
  function Remainder(p: seq<bool>): seq<bool>
    decreases |p|
  {
    if |p| <= 16 then p
    else if p[0] then Remainder(AddLeading(p, GENERATOR)[1..])
    else Remainder(p[1..])
  }

  lemma FourDigits(a: bv16, b: bv16, c: bv16, d: bv16, e: bv16, k: nat)
    requires k >= 4 && b == Half(a) && c == Half(b) && d == Half(c) && e == Half(d)
    ensures Digits(a, k) == [Odd(a), Odd(b), Odd(c), Odd(d)] + Digits(e, k - 4)
  {
    hide Odd, Half, Digits;
    DigitsUnfold(a, k);
    DigitsUnfold(b, k - 1);
    DigitsUnfold(c, k - 2);
    DigitsUnfold(d, k - 3);
  }

  lemma FirstHalves()
    ensures Half(0x8408) == 0x4204 && Half(0x4204) == 0x2102 && Half(0x2102) == 0x1081 && Half(0x1081) == 0x0840
  {}

  lemma FirstParities()
    ensures !Odd(0x8408) && !Odd(0x4204) && !Odd(0x2102) && Odd(0x1081)
  {}

  lemma SecondHalves()
    ensures Half(0x0840) == 0x0420 && Half(0x0420) == 0x0210 && Half(0x0210) == 0x0108 && Half(0x0108) == 0x0084
  {}

  lemma SecondParities()
    ensures !Odd(0x0840) && !Odd(0x0420) && !Odd(0x0210) && !Odd(0x0108)
  {}

  lemma ThirdHalves()
    ensures Half(0x0084) == 0x0042 && Half(0x0042) == 0x0021 && Half(0x0021) == 0x0010 && Half(0x0010) == 0x0008
  {}

  lemma ThirdParities()
    ensures !Odd(0x0084) && !Odd(0x0042) && Odd(0x0021) && !Odd(0x0010)
  {}

  lemma FourthHalves()
    ensures Half(0x0008) == 0x0004 && Half(0x0004) == 0x0002 && Half(0x0002) == 0x0001 && Half(0x0001) == 0x0000
  {}

  lemma FourthParities()
    ensures !Odd(0x0008) && !Odd(0x0004) && !Odd(0x0002) && Odd(0x0001)
  {}

  lemma PolynomialDigits()
    ensures Digits(POLYNOMIAL, 16) == GENERATOR[1..]
  {
    hide Odd, Half, Digits;
    FirstHalves();
    SecondHalves();
    ThirdHalves();
    FourthHalves();
    FirstParities();
    SecondParities();
    ThirdParities();
    FourthParities();
    FourDigits(0x8408, 0x4204, 0x2102, 0x1081, 0x0840, 16);
    FourDigits(0x0840, 0x0420, 0x0210, 0x0108, 0x0084, 12);
    FourDigits(0x0084, 0x0042, 0x0021, 0x0010, 0x0008, 8);
    FourDigits(0x0008, 0x0004, 0x0002, 0x0001, 0x0000, 4);
    assert Digits(0, 0) == [] by { NoDigits(0); }
  }

  lemma NoDigits(a: bv16)
    ensures Digits(a, 0) == []
  {}

  lemma {:induction false} ZeroDigits(k: nat)
    ensures Digits(0, k) == Zeros(k)
  {
    if k > 0 {
      DigitsUnfold(0, k);
      ZeroDigits(k - 1);
      assert Zeros(k) == [false] + Zeros(k - 1);
    }
  }

  /** The digits of the next register value: the digits shifted down, plus the generator's low
      coefficients if the bit fed back is one. */
  lemma StepDigits(c: bv16, b: bool, i: nat)
    requires i < 16
    ensures Digits(Step(c, b), 16)[i] ==
            ((i < 15 && Digits(c, 16)[i + 1]) != (b != Odd(c) && GENERATOR[i + 1]))
  {
    hide Add, Odd, Half, Digits;
    var p := if b != Odd(c) then POLYNOMIAL else 0;
    DigitsAdd(Half(c), p, 16);
    HalfDigits(c);
    PolynomialDigits();
    ZeroDigits(16);
  }

  /** One turn of long division is one step of the register. */
  lemma DivisionStep(c: bv16, bits: seq<bool>)
    requires bits != []
    ensures var p := AddLeading(bits + Zeros(16), Digits(c, 16));
            (if p[0] then AddLeading(p, GENERATOR)[1..] else p[1..]) ==
            AddLeading(bits[1..] + Zeros(16), Digits(Step(c, bits[0]), 16))
  {
    hide Step, Digits, Odd;
    var p := AddLeading(bits + Zeros(16), Digits(c, 16));
    assert Digits(c, 16)[0] == Odd(c) by { DigitsFirst(c); }
    var q := if p[0] then AddLeading(p, GENERATOR)[1..] else p[1..];
    var r := AddLeading(bits[1..] + Zeros(16), Digits(Step(c, bits[0]), 16));
    forall i | 0 <= i < |r| ensures q[i] == r[i] {
      if i < 16 { StepDigits(c, bits[0], i); }
    }
  }

  lemma DigitsFirst(c: bv16)
    ensures Digits(c, 16)[0] == Odd(c)
  {}

  /** After any message bits, the register holds the remainder, modulo the generator, of the message
      polynomial times x^16 with the initial register added to its 16 leading coefficients. */
  lemma {:induction false} RegisterIsRemainder(c: bv16, bits: seq<bool>)
    ensures Digits(Run(c, bits), 16) == Remainder(AddLeading(bits + Zeros(16), Digits(c, 16)))
    decreases |bits|
  {
    hide Step, Digits;
    if bits == [] {
      assert AddLeading(bits + Zeros(16), Digits(c, 16)) == Digits(c, 16);
    } else {
      DivisionStep(c, bits);
      RegisterIsRemainder(Step(c, bits[0]), bits[1..]);
    }
  }

  /** The generator itself, 17 bits wide, leaves an empty register empty. */
  lemma GeneratorVanishes()
    ensures Run(0, GENERATOR) == 0
  {
    hide Add, Digits, Pack, HighMask, Clear, Odd, Half;
    var tail := GENERATOR[1..];
    assert Run(0, GENERATOR) == Run(Step(0, true), tail);
    StepZero(true);
    PolynomialDigits();
    HighMaskValues();
    ClearNone(POLYNOMIAL);
    PackDigits(POLYNOMIAL, 16);
    Absorb(POLYNOMIAL, tail);
    AddSelf(POLYNOMIAL);
    RunZero(16);
  }

  /** The bound of 16 bits is sharp: an error burst that is the generator itself, 17 bits wide and at
      any position, is never detected. */
  lemma GeneratorUndetected(a: seq<bv8>, b: seq<bv8>, lo: nat, rest: nat)
    requires |a| == |b|
    requires Xor(MessageBits(a), MessageBits(b)) == Zeros(lo) + (GENERATOR + Zeros(rest))
    ensures Crc(a) == Crc(b)
  {
    hide Step, Add, Digits, Run, Finish;
    var x, y := MessageBits(a), MessageBits(b);
    RunConcat(0, Zeros(lo), GENERATOR + Zeros(rest));
    RunConcat(0, GENERATOR, Zeros(rest));
    RunZero(lo);
    RunZero(rest);
    GeneratorVanishes();
    RunLinear(0xffff, 0xffff, x, y);
    AddSelf(0xffff);
    AddNothing(Run(0xffff, x), Run(0xffff, y));
  }

  lemma AddNothing(a: bv16, b: bv16)
    requires Add(a, b) == 0
    ensures a == b
  {}
}
