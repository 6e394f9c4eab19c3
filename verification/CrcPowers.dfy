/** Powers of x modulo the generator, by squaring and multiplying: x^32767 is 1, and for no proper
    divisor of 32767 the power is. */
module CrcPowers {
  import opened Crc16
  import opened CrcField

  /** Horner's rule four digits at a time, given its intermediate values. */
  lemma Multiply(c: bv16, s: bv16, a: bv16, b: bv16, d: bv16, r: bv16, c1: bv16, c2: bv16, c3: bv16)
    requires c1 == Half4(c) && c2 == Half4(c1) && c3 == Half4(c2)
    requires a == Feed4(0, c, s) && b == Feed4(a, c1, s) && d == Feed4(b, c2, s) && r == Feed4(d, c3, s)
    ensures Product(c, s) == r
  {
    hide Feed4, Half4;
  }

  lemma FirstPowers()
    ensures X(8) == 0x0080 && X(16) == 0x8408
  {
    hide Step, ZeroStep4, Run;
    UnitShifts();
    ZeroSteps(0x8000, 8);
    ZeroSteps(0x0800, 4);
    ShiftOne(0x0080);
    UnitShift();
  }

  lemma SingleSteps()
    ensures Step(0x8000, false) == 0x4000 && Step(0x0080, false) == 0x0040 && Step(0x0cec, false) == 0x0676
  {}

  lemma Feeds32()
    ensures Feed4(0, 0x8408, 0x8408) == 0x8408 && Feed4(0x8408, 0x0840, 0x8408) == 0x8c48
    ensures Feed4(0x8c48, 0x0084, 0x8408) == 0xcec8 && Feed4(0xcec8, 0x0008, 0x8408) == 0x0cec
    ensures Half4(0x8408) == 0x0840 && Half4(0x0840) == 0x0084 && Half4(0x0084) == 0x0008
  {}

  lemma Power32()
    ensures X(32) == 0x0cec
  {
    hide X, Product, Feed4, Half4;
    FirstPowers();
    Feeds32();
    Multiply(0x8408, 0x8408, 0x8408, 0x8c48, 0xcec8, 0x0cec, 0x0840, 0x0084, 0x0008);
    PowerProduct(16, 16);
  }

  lemma Feeds64()
    ensures Feed4(0, 0x0cec, 0x0cec) == 0x0a9a && Feed4(0x0a9a, 0x00ce, 0x0cec) == 0xac02
    ensures Feed4(0xac02, 0x000c, 0x0cec) == 0x2158 && Feed4(0x2158, 0x0000, 0x0cec) == 0x861d
    ensures Half4(0x0cec) == 0x00ce && Half4(0x00ce) == 0x000c && Half4(0x000c) == 0x0000
  {}

  lemma Power64()
    ensures X(64) == 0x861d
  {
    hide X, Product, Feed4, Half4;
    Power32();
    Feeds64();
    Multiply(0x0cec, 0x0cec, 0x0a9a, 0xac02, 0x2158, 0x861d, 0x00ce, 0x000c, 0x0000);
    PowerProduct(32, 32);
  }

  lemma Feeds128()
    ensures Feed4(0, 0x861d, 0x861d) == 0xf4d2 && Feed4(0xf4d2, 0x0861, 0x861d) == 0x9b86
    ensures Feed4(0x9b86, 0x0086, 0x861d) == 0xce3b && Feed4(0xce3b, 0x0008, 0x861d) == 0x3f75
    ensures Half4(0x861d) == 0x0861 && Half4(0x0861) == 0x0086 && Half4(0x0086) == 0x0008
  {}

  lemma Power128()
    ensures X(128) == 0x3f75
  {
    hide X, Product, Feed4, Half4;
    Power64();
    Feeds128();
    Multiply(0x861d, 0x861d, 0xf4d2, 0x9b86, 0xce3b, 0x3f75, 0x0861, 0x0086, 0x0008);
    PowerProduct(64, 64);
  }

  lemma Feeds256()
    ensures Feed4(0, 0x3f75, 0x3f75) == 0x3956 && Feed4(0x3956, 0x03f7, 0x3f75) == 0x141c
    ensures Feed4(0x141c, 0x003f, 0x3f75) == 0x8cb7 && Feed4(0x8cb7, 0x0003, 0x3f75) == 0x9471
    ensures Half4(0x3f75) == 0x03f7 && Half4(0x03f7) == 0x003f && Half4(0x003f) == 0x0003
  {}

  lemma Power256()
    ensures X(256) == 0x9471
  {
    hide X, Product, Feed4, Half4;
    Power128();
    Feeds256();
    Multiply(0x3f75, 0x3f75, 0x3956, 0x141c, 0x8cb7, 0x9471, 0x03f7, 0x003f, 0x0003);
    PowerProduct(128, 128);
  }

  lemma Feeds512()
    ensures Feed4(0, 0x9471, 0x9471) == 0x338c && Feed4(0x338c, 0x0947, 0x9471) == 0x5f90
    ensures Feed4(0x5f90, 0x0094, 0x9471) == 0xcbc9 && Feed4(0xcbc9, 0x0009, 0x9471) == 0x3fc8
    ensures Half4(0x9471) == 0x0947 && Half4(0x0947) == 0x0094 && Half4(0x0094) == 0x0009
  {}

  lemma Power512()
    ensures X(512) == 0x3fc8
  {
    hide X, Product, Feed4, Half4;
    Power256();
    Feeds512();
    Multiply(0x9471, 0x9471, 0x338c, 0x5f90, 0xcbc9, 0x3fc8, 0x0947, 0x0094, 0x0009);
    PowerProduct(256, 256);
  }

  lemma Feeds1024()
    ensures Feed4(0, 0x3fc8, 0x3fc8) == 0x3fc8 && Feed4(0x3fc8, 0x03fc, 0x3fc8) == 0xa7d8
    ensures Feed4(0xa7d8, 0x003f, 0x3fc8) == 0xa652 && Feed4(0xa652, 0x0003, 0x3fc8) == 0x236c
    ensures Half4(0x3fc8) == 0x03fc && Half4(0x03fc) == 0x003f && Half4(0x003f) == 0x0003
  {}

  lemma Power1024()
    ensures X(1024) == 0x236c
  {
    hide X, Product, Feed4, Half4;
    Power512();
    Feeds1024();
    Multiply(0x3fc8, 0x3fc8, 0x3fc8, 0xa7d8, 0xa652, 0x236c, 0x03fc, 0x003f, 0x0003);
    PowerProduct(512, 512);
  }

  lemma Feeds2048()
    ensures Feed4(0, 0x236c, 0x236c) == 0x32da && Feed4(0x32da, 0x0236, 0x236c) == 0xbf4a
    ensures Feed4(0xbf4a, 0x0023, 0x236c) == 0x2640 && Feed4(0x2640, 0x0002, 0x236c) == 0x0abf
    ensures Half4(0x236c) == 0x0236 && Half4(0x0236) == 0x0023 && Half4(0x0023) == 0x0002
  {}

  lemma Power2048()
    ensures X(2048) == 0x0abf
  {
    hide X, Product, Feed4, Half4;
    Power1024();
    Feeds2048();
    Multiply(0x236c, 0x236c, 0x32da, 0xbf4a, 0x2640, 0x0abf, 0x0236, 0x0023, 0x0002);
    PowerProduct(1024, 1024);
  }

  lemma Feeds4096()
    ensures Feed4(0, 0x0abf, 0x0abf) == 0xa912 && Feed4(0xa912, 0x00ab, 0x0abf) == 0x03d6
    ensures Feed4(0x03d6, 0x000a, 0x0abf) == 0xad27 && Feed4(0xad27, 0x0000, 0x0abf) == 0x7955
    ensures Half4(0x0abf) == 0x00ab && Half4(0x00ab) == 0x000a && Half4(0x000a) == 0x0000
  {}

  lemma Power4096()
    ensures X(4096) == 0x7955
  {
    hide X, Product, Feed4, Half4;
    Power2048();
    Feeds4096();
    Multiply(0x0abf, 0x0abf, 0xa912, 0x03d6, 0xad27, 0x7955, 0x00ab, 0x000a, 0x0000);
    PowerProduct(2048, 2048);
  }

  lemma Feeds8192()
    ensures Feed4(0, 0x7955, 0x7955) == 0x1282 && Feed4(0x1282, 0x0795, 0x7955) == 0x32a8
    ensures Feed4(0x32a8, 0x0079, 0x7955) == 0x5457 && Feed4(0x5457, 0x0007, 0x7955) == 0x3811
    ensures Half4(0x7955) == 0x0795 && Half4(0x0795) == 0x0079 && Half4(0x0079) == 0x0007
  {}

  lemma Power8192()
    ensures X(8192) == 0x3811
  {
    hide X, Product, Feed4, Half4;
    Power4096();
    Feeds8192();
    Multiply(0x7955, 0x7955, 0x1282, 0x32a8, 0x5457, 0x3811, 0x0795, 0x0079, 0x0007);
    PowerProduct(4096, 4096);
  }

  lemma Feeds16384()
    ensures Feed4(0, 0x3811, 0x3811) == 0x2600 && Feed4(0x2600, 0x0381, 0x3811) == 0x2460
    ensures Feed4(0x2460, 0x0038, 0x3811) == 0x3a57 && Feed4(0x3a57, 0x0003, 0x3811) == 0x1a22
    ensures Half4(0x3811) == 0x0381 && Half4(0x0381) == 0x0038 && Half4(0x0038) == 0x0003
  {}

  lemma Power16384()
    ensures X(16384) == 0x1a22
  {
    hide X, Product, Feed4, Half4;
    Power8192();
    Feeds16384();
    Multiply(0x3811, 0x3811, 0x2600, 0x2460, 0x3a57, 0x1a22, 0x0381, 0x0038, 0x0003);
    PowerProduct(8192, 8192);
  }

  lemma Feeds32768()
    ensures Feed4(0, 0x1a22, 0x1a22) == 0x8280 && Feed4(0x8280, 0x01a2, 0x1a22) == 0x8aa8
    ensures Feed4(0x8aa8, 0x001a, 0x1a22) == 0x1400 && Feed4(0x1400, 0x0001, 0x1a22) == 0x4000
    ensures Half4(0x1a22) == 0x01a2 && Half4(0x01a2) == 0x001a && Half4(0x001a) == 0x0001
  {}

  lemma Power32768()
    ensures X(32768) == 0x4000
  {
    hide X, Product, Feed4, Half4;
    Power16384();
    Feeds32768();
    Multiply(0x1a22, 0x1a22, 0x8280, 0x8aa8, 0x1400, 0x4000, 0x01a2, 0x001a, 0x0001);
    PowerProduct(16384, 16384);
  }

  lemma Power9()
    ensures X(9) == 0x0040
  {
    hide X, Step;
    FirstPowers();
    SingleSteps();
    XNext(8);
  }

  lemma Power33()
    ensures X(33) == 0x0676
  {
    hide X, Step;
    Power32();
    SingleSteps();
    XNext(32);
  }

  lemma Feeds25()
    ensures Feed4(0, 0x8408, 0x0040) == 0x0040 && Feed4(0x0040, 0x0840, 0x0040) == 0x0004
    ensures Feed4(0x0004, 0x0084, 0x0040) == 0x4224 && Feed4(0x4224, 0x0008, 0x0040) == 0x4666
    ensures Half4(0x8408) == 0x0840 && Half4(0x0840) == 0x0084 && Half4(0x0084) == 0x0008
  {}

  lemma Power25()
    ensures X(25) == 0x4666
  {
    hide X, Product, Feed4, Half4;
    FirstPowers();
    Power9();
    Feeds25();
    Multiply(0x8408, 0x0040, 0x0040, 0x0004, 0x4224, 0x4666, 0x0840, 0x0084, 0x0008);
    PowerProduct(16, 9);
  }

  lemma Feeds192()
    ensures Feed4(0, 0x3f75, 0x861d) == 0x72cf && Feed4(0x72cf, 0x03f7, 0x861d) == 0xe1ef
    ensures Feed4(0xe1ef, 0x003f, 0x861d) == 0x6ec0 && Feed4(0x6ec0, 0x0003, 0x861d) == 0xd0a6
    ensures Half4(0x3f75) == 0x03f7 && Half4(0x03f7) == 0x003f && Half4(0x003f) == 0x0003
  {}

  lemma Power192()
    ensures X(192) == 0xd0a6
  {
    hide X, Product, Feed4, Half4;
    Power128();
    Power64();
    Feeds192();
    Multiply(0x3f75, 0x861d, 0x72cf, 0xe1ef, 0x6ec0, 0xd0a6, 0x03f7, 0x003f, 0x0003);
    PowerProduct(128, 64);
  }

  lemma Feeds217()
    ensures Feed4(0, 0xd0a6, 0x4666) == 0xb6a2 && Feed4(0xb6a2, 0x0d0a, 0x4666) == 0xf99f
    ensures Feed4(0xf99f, 0x00d0, 0x4666) == 0xf816 && Feed4(0xf816, 0x000d, 0x4666) == 0xc712
    ensures Half4(0xd0a6) == 0x0d0a && Half4(0x0d0a) == 0x00d0 && Half4(0x00d0) == 0x000d
  {}

  lemma Power217()
    ensures X(217) == 0xc712
  {
    hide X, Product, Feed4, Half4;
    Power192();
    Power25();
    Feeds217();
    Multiply(0xd0a6, 0x4666, 0xb6a2, 0xf99f, 0xf816, 0xc712, 0x0d0a, 0x00d0, 0x000d);
    PowerProduct(192, 25);
  }

  lemma Feeds1057()
    ensures Feed4(0, 0x236c, 0x0676) == 0x054d && Feed4(0x054d, 0x0236, 0x0676) == 0x5077
    ensures Feed4(0x5077, 0x0023, 0x0676) == 0x35d7 && Feed4(0x35d7, 0x0002, 0x0676) == 0xf54f
    ensures Half4(0x236c) == 0x0236 && Half4(0x0236) == 0x0023 && Half4(0x0023) == 0x0002
  {}

  lemma Power1057()
    ensures X(1057) == 0xf54f
  {
    hide X, Product, Feed4, Half4;
    Power1024();
    Power33();
    Feeds1057();
    Multiply(0x236c, 0x0676, 0x054d, 0x5077, 0x35d7, 0xf54f, 0x0236, 0x0023, 0x0002);
    PowerProduct(1024, 33);
  }

  lemma Feeds73()
    ensures Feed4(0, 0x861d, 0x0040) == 0x0068 && Feed4(0x0068, 0x0861, 0x0040) == 0x8406
    ensures Feed4(0x8406, 0x0086, 0x0040) == 0x6b76 && Feed4(0x6b76, 0x0008, 0x0040) == 0x65f1
    ensures Half4(0x861d) == 0x0861 && Half4(0x0861) == 0x0086 && Half4(0x0086) == 0x0008
  {}

  lemma Power73()
    ensures X(73) == 0x65f1
  {
    hide X, Product, Feed4, Half4;
    Power64();
    Power9();
    Feeds73();
    Multiply(0x861d, 0x0040, 0x0068, 0x8406, 0x6b76, 0x65f1, 0x0861, 0x0086, 0x0008);
    PowerProduct(64, 9);
  }

  lemma Feeds4608()
    ensures Feed4(0, 0x7955, 0x3fc8) == 0x181d && Feed4(0x181d, 0x0795, 0x3fc8) == 0xcf11
    ensures Feed4(0xcf11, 0x0079, 0x3fc8) == 0x2441 && Feed4(0x2441, 0x0007, 0x3fc8) == 0x052a
    ensures Half4(0x7955) == 0x0795 && Half4(0x0795) == 0x0079 && Half4(0x0079) == 0x0007
  {}

  lemma Power4608()
    ensures X(4608) == 0x052a
  {
    hide X, Product, Feed4, Half4;
    Power4096();
    Power512();
    Feeds4608();
    Multiply(0x7955, 0x3fc8, 0x181d, 0xcf11, 0x2441, 0x052a, 0x0795, 0x0079, 0x0007);
    PowerProduct(4096, 512);
  }

  lemma Feeds4681()
    ensures Feed4(0, 0x052a, 0x65f1) == 0x3e89 && Feed4(0x3e89, 0x0052, 0x65f1) == 0xcc19
    ensures Feed4(0xcc19, 0x0005, 0x65f1) == 0x0304 && Feed4(0x0304, 0x0000, 0x65f1) == 0x4234
    ensures Half4(0x052a) == 0x0052 && Half4(0x0052) == 0x0005 && Half4(0x0005) == 0x0000
  {}

  lemma Power4681()
    ensures X(4681) == 0x4234
  {
    hide X, Product, Feed4, Half4;
    Power4608();
    Power73();
    Feeds4681();
    Multiply(0x052a, 0x65f1, 0x3e89, 0xcc19, 0x0304, 0x4234, 0x0052, 0x0005, 0x0000);
    PowerProduct(4608, 73);
  }

  /** The proper divisors of 32767 that are not divisors of each other. */
  lemma ProperDivisors()
    ensures X(217) != UNIT && X(1057) != UNIT && X(4681) != UNIT
  {
    hide X;
    Power217();
    Power1057();
    Power4681();
  }

  /** x^32768 is x. */
  lemma FullPower()
    ensures X(32767) == UNIT
  {
    hide X, Step;
    Power32768();
    SingleSteps();
    XNext(32767);
    StepInjective(X(32767), UNIT, false);
  }
}
