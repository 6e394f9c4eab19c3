/** The result as the frame check sequence of RFC 1662: which polynomial remainder it is, and what
    zero bytes in front of a message do to it. */
module CrcFcs {
  import opened Numbers
  import opened Crc16
  import opened CrcField
  import opened CrcPowers
  import opened CrcDistance

  // ---- the order of the bits

  /** The bits of a byte, least significant first. */
  function BitsOf(b: bv8): (s: seq<bool>)
    ensures |s| == 8
  {
    [b & 0x01 != 0, b & 0x02 != 0, b & 0x04 != 0, b & 0x08 != 0,
     b & 0x10 != 0, b & 0x20 != 0, b & 0x40 != 0, b & 0x80 != 0]
  }

  /** Eight bits enter the register for each byte, least significant first. */
  lemma {:induction false} BitOrder(data: seq<bv8>, i: nat)
    requires i < |data|
    ensures MessageBits(data)[8 * i..8 * i + 8] == BitsOf(data[i])
  {
    hide Digits, BitsOf;
    DigitsOfByte(data[0]);
    var rest := MessageBits(data[1..]);
    assert MessageBits(data) == Digits(Widen(data[0]), 8) + rest;
    if i > 0 {
      BitOrder(data[1..], i - 1);
      assert MessageBits(data)[8 * i..8 * i + 8] == rest[8 * (i - 1)..8 * (i - 1) + 8];
    }
  }

  lemma DigitsOfByte(b: bv8)
    ensures Digits(Widen(b), 8) == BitsOf(b)
  {
    hide Digits, Low4, Half4, Widen, BitsOf;
    var c := Widen(b);
    FourOf(c, 8);
    FourOf(Half4(c), 4);
    NoDigits(Half4(Half4(c)));
    LowBitsOf(b);
    HighBitsOf(b);
  }

  /** The four lowest digits. */
  function Low4(c: bv16): (s: seq<bool>)
    ensures |s| == 4
  {
    [Odd(c), Odd(Half(c)), Odd(Half(Half(c))), Odd(Half(Half(Half(c))))]
  }

  lemma FourOf(c: bv16, k: nat)
    requires k >= 4
    ensures Digits(c, k) == Low4(c) + Digits(Half4(c), k - 4)
  {
    hide Odd, Half, Digits;
    FourDigits(c, Half(c), Half(Half(c)), Half(Half(Half(c))), Half4(c), k);
  }

  lemma LowBitsOf(b: bv8)
    ensures BitsOf(b)[..4] == Low4(Widen(b))
  {
    hide Odd, Half, Widen;
    LowMasks(b);
  }

  lemma HighBitsOf(b: bv8)
    ensures BitsOf(b)[4..] == Low4(Half4(Widen(b)))
  {
    hide Odd, Half, Half4, Widen;
    HighMasks(b);
  }

  lemma LowMasks(b: bv8)
    ensures (b & 0x01 != 0) == Odd(Widen(b)) && (b & 0x02 != 0) == Odd(Half(Widen(b)))
    ensures (b & 0x04 != 0) == Odd(Half(Half(Widen(b)))) && (b & 0x08 != 0) == Odd(Half(Half(Half(Widen(b)))))
  {}

  lemma HighMasks(b: bv8)
    ensures (b & 0x10 != 0) == Odd(Half4(Widen(b))) && (b & 0x20 != 0) == Odd(Half(Half4(Widen(b))))
    ensures (b & 0x40 != 0) == Odd(Half(Half(Half4(Widen(b)))))
    ensures (b & 0x80 != 0) == Odd(Half(Half(Half(Half4(Widen(b))))))
  {}

  // ---- the definition of the frame check sequence

  function Ones16(): (s: seq<bool>)
    ensures |s| == 16
  {
    seq(16, _ => true)
  }

  /** The register from which a result was made: the two bytes in order, complemented. */
  function ReadBack(result: bv16): bv16
  {
    Complement(Word(HighByte(result), LowByte(result)))
  }

  lemma ComplementTwice(r: bv16)
    ensures Complement(Complement(r)) == r
  {}

  lemma ReadBackFinish(reg: bv16)
    ensures ReadBack(Finish(reg)) == reg
  {
    hide Finish, HighByte, LowByte, Word, Complement;
    FinishHigh(reg);
    FinishLow(reg);
    WordOfBytes(Complement(reg));
    ComplementTwice(reg);
  }

  lemma OnesHalves()
    ensures Half(0xffff) == 0x7fff && Half(0x7fff) == 0x3fff && Half(0x3fff) == 0x1fff && Half(0x1fff) == 0x0fff
    ensures Half(0x0fff) == 0x07ff && Half(0x07ff) == 0x03ff && Half(0x03ff) == 0x01ff && Half(0x01ff) == 0x00ff
    ensures Half(0x00ff) == 0x007f && Half(0x007f) == 0x003f && Half(0x003f) == 0x001f && Half(0x001f) == 0x000f
    ensures Half(0x000f) == 0x0007 && Half(0x0007) == 0x0003 && Half(0x0003) == 0x0001 && Half(0x0001) == 0x0000
  {}

  lemma OnesOdd()
    ensures Odd(0xffff) && Odd(0x7fff) && Odd(0x3fff) && Odd(0x1fff) && Odd(0x0fff) && Odd(0x07ff)
    ensures Odd(0x03ff) && Odd(0x01ff) && Odd(0x00ff) && Odd(0x007f) && Odd(0x003f) && Odd(0x001f)
    ensures Odd(0x000f) && Odd(0x0007) && Odd(0x0003) && Odd(0x0001)
  {}

  lemma OnesDigits()
    ensures Digits(0xffff, 16) == Ones16()
  {
    hide Digits, Odd, Half;
    OnesHalves();
    OnesOdd();
    FourDigits(0xffff, 0x7fff, 0x3fff, 0x1fff, 0x0fff, 16);
    FourDigits(0x0fff, 0x07ff, 0x03ff, 0x01ff, 0x00ff, 12);
    FourDigits(0x00ff, 0x007f, 0x003f, 0x001f, 0x000f, 8);
    FourDigits(0x000f, 0x0007, 0x0003, 0x0001, 0x0000, 4);
    NoDigits(0);
  }

  /** The frame check sequence of RFC 1662, Appendix C: the bytes of the result, complemented, are the
      remainder of the message times x^16 with its 16 leading coefficients, or those of x^16 behind a
      shorter message, complemented first. */
  lemma FrameCheckSequence(d: seq<bv8>)
    ensures Digits(ReadBack(Crc(d)), 16) == Remainder(AddLeading(MessageBits(d) + Zeros(16), Ones16()))
  {
    hide Digits, Run, Finish, ReadBack, Remainder, MessageBits, Ones16, Crc;
    CrcIs(d);
    ReadBackFinish(Run(0xffff, MessageBits(d)));
    RegisterIsRemainder(0xffff, MessageBits(d));
    OnesDigits();
  }

  /** And nothing else is: the remainder determines the result. */
  lemma ResultDetermined(d: seq<bv8>, r: bv16)
    ensures Digits(ReadBack(r), 16) == Remainder(AddLeading(MessageBits(d) + Zeros(16), Ones16())) <==> r == Crc(d)
  {
    hide Digits, Remainder, MessageBits, Ones16, ReadBack, Crc;
    FrameCheckSequence(d);
    if Digits(ReadBack(r), 16) == Digits(ReadBack(Crc(d)), 16) {
      DigitsDetermine(ReadBack(r), ReadBack(Crc(d)));
      ReadBackInjective(r, Crc(d));
    }
  }

  lemma DigitsDetermine(a: bv16, b: bv16)
    requires Digits(a, 16) == Digits(b, 16)
    ensures a == b
  {
    hide Digits, Pack, Clear, HighMask;
    HighMaskValues();
    ClearNone(a);
    ClearNone(b);
    PackDigits(a, 16);
    PackDigits(b, 16);
  }

  lemma ReadBackInjective(a: bv16, b: bv16)
    requires ReadBack(a) == ReadBack(b)
    ensures a == b
  {
    hide HighByte, LowByte, Word, Complement;
    ComplementTwice(Word(HighByte(a), LowByte(a)));
    ComplementTwice(Word(HighByte(b), LowByte(b)));
    WordLow(HighByte(a), LowByte(a));
    WordLow(HighByte(b), LowByte(b));
    WordHigh(HighByte(a), LowByte(a));
    WordHigh(HighByte(b), LowByte(b));
    HalvesDetermine(a, b);
  }

  lemma HalvesDetermine(a: bv16, b: bv16)
    requires HighByte(a) == HighByte(b) && LowByte(a) == LowByte(b)
    ensures a == b
  {
    hide HighByte, LowByte, Word;
    WordOfBytes(a);
    WordOfBytes(b);
  }

  // ---- zero bytes in front of a message

  function ZeroBytes(n: nat): (s: seq<bv8>)
    ensures |s| == n
  {
    if n == 0 then [] else [0] + ZeroBytes(n - 1)
  }

  lemma {:induction false} ZeroByteBits(n: nat)
    ensures MessageBits(ZeroBytes(n)) == Zeros(8 * n)
  {
    hide Digits;
    if n > 0 {
      ZeroByteBits(n - 1);
      assert ZeroBytes(n)[1..] == ZeroBytes(n - 1);
      ZeroDigits(8);
      WidenZero();
      ZerosSplit(8, 8 * (n - 1));
    }
  }

  lemma WidenZero()
    ensures Widen(0) == 0
  {}

  /** `n` zero bytes bring the full register back. */
  lemma LeadingRun(d: seq<bv8>, n: nat)
    ensures Crc(ZeroBytes(n) + d) == Crc(d) <==> Returns(0xffff, 8 * n)
  {
    hide Finish, Run, MessageBits, ZeroBytes, Crc;
    var bits := MessageBits(d);
    CrcIs(d);
    CrcIs(ZeroBytes(n) + d);
    MessageConcat(ZeroBytes(n), d);
    ZeroByteBits(n);
    RunConcat(0xffff, Zeros(8 * n), bits);
    ShiftIsRun(0xffff, 8 * n);
    var reg := Shift(0xffff, 8 * n);
    if Crc(ZeroBytes(n) + d) == Crc(d) {
      FinishInjective(Run(reg, bits), Run(0xffff, bits));
      RunInjective(reg, 0xffff, bits);
    }
  }

  // ---- the cycle of the full register

  lemma OnesFeeds()
    ensures Feed4(0, 0x8408, 0xffff) == 0xffff && Feed4(0xffff, 0x0840, 0xffff) == 0xf870
    ensures Feed4(0xf870, 0x0084, 0xffff) == 0xf470 && Feed4(0xf470, 0x0008, 0xffff) == 0xf0b8
    ensures Half4(0x8408) == 0x0840 && Half4(0x0840) == 0x0084 && Half4(0x0084) == 0x0008
  {}

  lemma RootOnes()
    ensures Root(0xffff)
  {
    hide Feed4, Half4, Product, Run, Shift;
    OnesFeeds();
    Multiply(0x8408, 0xffff, 0xffff, 0xf870, 0xf470, 0xf0b8, 0x0840, 0x0084, 0x0008);
    FlushOnes();
    ShiftIsRun(0xffff, 16);
  }

  lemma OnesFeeds217()
    ensures Feed4(0, 0xc712, 0xffff) == 0xf9f3 && Feed4(0xf9f3, 0x0c71, 0xffff) == 0xc6ed
    ensures Feed4(0xc6ed, 0x00c7, 0xffff) == 0x2016 && Feed4(0x2016, 0x000c, 0xffff) == 0x650f
    ensures Half4(0xc712) == 0x0c71 && Half4(0x0c71) == 0x00c7 && Half4(0x00c7) == 0x000c
  {}

  lemma Ones217()
    ensures Product(0xc712, 0xffff) == 0x650f
  {
    hide Feed4, Half4, Product;
    OnesFeeds217();
    Multiply(0xc712, 0xffff, 0xf9f3, 0xc6ed, 0x2016, 0x650f, 0x0c71, 0x00c7, 0x000c);
  }

  lemma OnesFeeds1057()
    ensures Feed4(0, 0xf54f, 0xffff) == 0x050a && Feed4(0x050a, 0x0f54, 0xffff) == 0x5ead
    ensures Feed4(0x5ead, 0x00f5, 0xffff) == 0xd061 && Feed4(0xd061, 0x000f, 0xffff) == 0x188d
    ensures Half4(0xf54f) == 0x0f54 && Half4(0x0f54) == 0x00f5 && Half4(0x00f5) == 0x000f
  {}

  lemma Ones1057()
    ensures Product(0xf54f, 0xffff) == 0x188d
  {
    hide Feed4, Half4, Product;
    OnesFeeds1057();
    Multiply(0xf54f, 0xffff, 0x050a, 0x5ead, 0xd061, 0x188d, 0x0f54, 0x00f5, 0x000f);
  }

  lemma OnesFeeds4681()
    ensures Feed4(0, 0x4234, 0xffff) == 0xfbf7 && Feed4(0xfbf7, 0x0423, 0xffff) == 0x7d3a
    ensures Feed4(0x7d3a, 0x0042, 0xffff) == 0x5b2a && Feed4(0x5b2a, 0x0004, 0xffff) == 0x5b4f
    ensures Half4(0x4234) == 0x0423 && Half4(0x0423) == 0x0042 && Half4(0x0042) == 0x0004
  {}

  lemma Ones4681()
    ensures Product(0x4234, 0xffff) == 0x5b4f
  {
    hide Feed4, Half4, Product;
    OnesFeeds4681();
    Multiply(0x4234, 0xffff, 0xfbf7, 0x7d3a, 0x5b2a, 0x5b4f, 0x0423, 0x0042, 0x0004);
  }

  /** The full register comes back exactly after the multiples of 32767 steps. */
  lemma OnesReturn(d: nat)
    ensures Returns(0xffff, d) <==> d % ORDER == 0
  {
    hide X, Shift, Product;
    RootOnes();
    FullPower();
    Power217();
    Power1057();
    Power4681();
    ProductShift(ORDER, 0xffff);
    ProductShift(217, 0xffff);
    ProductShift(1057, 0xffff);
    ProductShift(4681, 0xffff);
    ProductUnit(0xffff);
    Ones217();
    Ones1057();
    Ones4681();
    ReturnsExactly(0xffff, d);
  }

  /** Zero bytes in front of a message go unnoticed if and only if their number is a multiple of 32767;
      in particular a single one always changes the result. */
  lemma LeadingZeros(d: seq<bv8>, n: nat)
    ensures Crc(ZeroBytes(n) + d) == Crc(d) <==> n % ORDER == 0
  {
    hide Crc, Returns, ZeroBytes;
    LeadingRun(d, n);
    OnesReturn(8 * n);
    EightTimes(n);
  }

  lemma EightTimes(n: nat)
    ensures (8 * n) % ORDER == 0 <==> n % ORDER == 0
  {
    if n % ORDER == 0 {
      var t := n / ORDER;
      assert 8 * n == ORDER * (8 * t);
      MultipleModulo(ORDER, 8 * t);
    }
    if (8 * n) % ORDER == 0 {
      var t := (8 * n) / ORDER;
      assert n == 4096 * (8 * n) - ORDER * n == ORDER * (4096 * t - n);
      MultipleModulo(ORDER, 4096 * t - n);
    }
  }

  lemma OneZeroByte(d: seq<bv8>)
    ensures Crc([0] + d) != Crc(d)
  {
    hide Crc;
    LeadingZeros(d, 1);
    assert ZeroBytes(1) == [0];
  }

  // ---- a known answer

  lemma ZeroByteSteps()
    ensures ZeroStep4(0xffff) == 0xf870 && ZeroStep4(0xf870) == 0x0f87
  {}

  lemma FinishZeroByte()
    ensures Finish(0x0f87) == 0x78f0
  {}

  /** The CRC of a single zero byte. */
  lemma ZeroByteAnswer()
    ensures Crc([0]) == 0x78f0
  {
    hide Step, ZeroStep4, Finish, Run, MessageBits;
    ZeroByteBits(1);
    assert ZeroBytes(1) == [0];
    ZeroSteps(0xffff, 8);
    ZeroSteps(0xf870, 4);
    ZeroByteSteps();
    ShiftOne(0x0f87);
    ShiftIsRun(0x0f87, 0);
    FinishZeroByte();
  }
}
