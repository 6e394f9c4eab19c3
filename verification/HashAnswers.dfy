/** Known answers of the hashes, worked out on numbers. */
module HashAnswers {
  import opened Numbers
  import opened Words
  import opened Hashes
  import opened HashInverses

  // ---- the operators on numbers

  function Differ(a: nat, b: nat): nat
  {
    if a == b then 0 else 1
  }

  lemma XorDigit(x: nat, y: nat, a: nat, b: nat)
    requires a < 2 && b < 2
    ensures Xor(2 * x + a, 2 * y + b) == 2 * Xor(x, y) + Differ(a, b)
  {
    assert (2 * x + a) / 2 == x && (2 * y + b) / 2 == y;
  }

  /** Four more binary digits on each side. */
  lemma XorFour(x: nat, y: nat, z: nat, a: nat, b: nat, c: nat, d: nat, e: nat, f: nat, g: nat, h: nat)
    requires Xor(x, y) == z && a < 2 && b < 2 && c < 2 && d < 2 && e < 2 && f < 2 && g < 2 && h < 2
    ensures Xor(16 * x + (8 * a + 4 * b + 2 * c + d), 16 * y + (8 * e + 4 * f + 2 * g + h)) ==
            16 * z + (8 * Differ(a, e) + 4 * Differ(b, f) + 2 * Differ(c, g) + Differ(d, h))
  {
    hide Xor, Differ;
    XorDigit(x, y, a, e);
    XorDigit(2 * x + a, 2 * y + e, b, f);
    XorDigit(4 * x + 2 * a + b, 4 * y + 2 * e + f, c, g);
    XorDigit(8 * x + 4 * a + 2 * b + c, 8 * y + 4 * e + 2 * f + g, d, h);
  }

  lemma XorOfZero(x: Word)
    ensures Xor32(x, 0) == x && Xor32(0, x) == x
  {}

  lemma ShrIs(x: Word, k: nat, q: Word)
    requires x / Pow2(k) == q
    ensures Shr(x, k) == q
  {
    ShrIsQuotient(x, k);
  }

  lemma TimesIs(x: Word, c: nat, q: nat, r: nat)
    requires x * c == TWO32 * q + r && r < TWO32
    ensures Times(x, c) == r
  {
    RemainderIs(x * c, TWO32, q, r);
  }

  lemma Powers()
    ensures Pow2(6) == 64 && Pow2(11) == 2048 && Pow2(13) == 8192 && Pow2(16) == 65536
    ensures Pow2(3) == 8 && Pow2(5) == 32 && Pow2(10) == 1024 && Pow2(15) == 32768
    ensures Pow2(17) == 131072 && Pow2(19) == 524288
  {
    assert Pow2(3) == 8 && Pow2(5) == 32 && Pow2(6) == 64;
    assert Pow2(8) == 256;
    assert Pow2(10) == 1024 && Pow2(11) == 2048 && Pow2(13) == 8192 && Pow2(15) == 32768;
    assert Pow2(16) == 65536 && Pow2(17) == 131072 && Pow2(19) == 524288;
  }

  lemma {:induction false} OrBelow(a: nat, b: nat, k: nat)
    requires b < Pow2(k)
    ensures Or(a * Pow2(k), b) == a * Pow2(k) + b
    decreases k
  {
    if k > 0 {
      var y := a * Pow2(k - 1);
      assert a * Pow2(k) == 2 * y by { Reassociate(2, a, Pow2(k - 1)); Reassociate(a, 2, Pow2(k - 1)); }
      OrBelow(a, b / 2, k - 1);
      OrEven(y, b);
    }
  }

  lemma OrEven(y: nat, b: nat)
    ensures Or(2 * y, b) == b % 2 + 2 * Or(y, b / 2)
  {
    assert (2 * y) / 2 == y;
  }

  /** A rotation, with the two parts of the word: `x == hi * p + lo`. */
  lemma RotateIs(x: Word, k: nat, p: nat, hi: nat, lo: nat, r: Word)
    requires 0 < k < 32 && p == Pow2(32 - k) && x == p * hi + lo && lo < p
    requires r == lo * Pow2(k) + hi && hi < Pow2(k)
    ensures Rotate(x, k) == r
  {
    hide Or, Pow2, Shr;
    PowersMeet(k);
    RemainderIs(x, p, hi, lo);
    ShrIs(x, 32 - k, hi);
    var q := Pow2(k);
    Distribute(q, p * hi, lo);
    Reassociate(q, p, hi);
    Commute(q, lo);
    Commute(x, q);
    Commute(q, p);
    ProductMonotone(lo + 1, p, q);
    Distribute(q, lo, 1);
    RemainderIs(x * q, TWO32, hi, lo * q);
    OrBelow(lo, hi, k);
  }

  lemma Commute(a: int, b: int)
    ensures a * b == b * a
  {}

  lemma PowersMeet(k: nat)
    requires k <= 32
    ensures Pow2(k) * Pow2(32 - k) == TWO32
  {
    hide Pow2;
    Pow2Sum(k, 32 - k);
    Pow2Of32();
  }

  lemma {:induction false} Pow2Sum(i: nat, j: nat)
    ensures Pow2(i + j) == Pow2(i) * Pow2(j)
  {
    if i > 0 {
      Pow2Sum(i - 1, j);
      Reassociate(2, Pow2(i - 1), Pow2(j));
    }
  }

  // ---- the exclusive ors

  lemma Xor1()
    ensures Xor32(0x85ebca6b, 0x42f5e) == 0x85efe535
  {
    hide Xor;
    XorOfZero(0);
    XorFour(0x0, 0x0, 0x0, 1, 0, 0, 0, 0, 0, 0, 0);
    XorFour(0x8, 0x0, 0x8, 0, 1, 0, 1, 0, 0, 0, 0);
    XorFour(0x85, 0x0, 0x85, 1, 1, 1, 0, 0, 0, 0, 0);
    XorFour(0x85e, 0x0, 0x85e, 1, 0, 1, 1, 0, 1, 0, 0);
    XorFour(0x85eb, 0x4, 0x85ef, 1, 1, 0, 0, 0, 0, 1, 0);
    XorFour(0x85ebc, 0x42, 0x85efe, 1, 0, 1, 0, 1, 1, 1, 1);
    XorFour(0x85ebca, 0x42f, 0x85efe5, 0, 1, 1, 0, 0, 1, 0, 1);
    XorFour(0x85ebca6, 0x42f5, 0x85efe53, 1, 0, 1, 1, 1, 1, 1, 0);
  }

  lemma Xor2()
    ensures Xor32(0x514e79f9, 0x514e) == 0x514e28b7
  {
    hide Xor;
    XorOfZero(0);
    XorFour(0x0, 0x0, 0x0, 0, 1, 0, 1, 0, 0, 0, 0);
    XorFour(0x5, 0x0, 0x5, 0, 0, 0, 1, 0, 0, 0, 0);
    XorFour(0x51, 0x0, 0x51, 0, 1, 0, 0, 0, 0, 0, 0);
    XorFour(0x514, 0x0, 0x514, 1, 1, 1, 0, 0, 0, 0, 0);
    XorFour(0x514e, 0x0, 0x514e, 0, 1, 1, 1, 0, 1, 0, 1);
    XorFour(0x514e7, 0x5, 0x514e2, 1, 0, 0, 1, 0, 0, 0, 1);
    XorFour(0x514e79, 0x51, 0x514e28, 1, 1, 1, 1, 0, 1, 0, 0);
    XorFour(0x514e79f, 0x514, 0x514e28b, 1, 0, 0, 1, 1, 1, 1, 0);
  }

  lemma Xor3()
    ensures Xor32(0xef13efcd, 0x73bcd07e) == 0x9caf3fb3
  {
    hide Xor;
    XorOfZero(0);
    XorFour(0x0, 0x0, 0x0, 1, 1, 1, 0, 0, 1, 1, 1);
    XorFour(0xe, 0x7, 0x9, 1, 1, 1, 1, 0, 0, 1, 1);
    XorFour(0xef, 0x73, 0x9c, 0, 0, 0, 1, 1, 0, 1, 1);
    XorFour(0xef1, 0x73b, 0x9ca, 0, 0, 1, 1, 1, 1, 0, 0);
    XorFour(0xef13, 0x73bc, 0x9caf, 1, 1, 1, 0, 1, 1, 0, 1);
    XorFour(0xef13e, 0x73bcd, 0x9caf3, 1, 1, 1, 1, 0, 0, 0, 0);
    XorFour(0xef13ef, 0x73bcd0, 0x9caf3f, 1, 1, 0, 0, 0, 1, 1, 1);
    XorFour(0xef13efc, 0x73bcd07, 0x9caf3fb, 1, 1, 0, 1, 1, 1, 1, 0);
  }

  lemma Xor4()
    ensures Xor32(0x9caf3fb3, 0x5) == 0x9caf3fb6
  {
    hide Xor;
    XorOfZero(0);
    XorFour(0x0, 0x0, 0x0, 1, 0, 0, 1, 0, 0, 0, 0);
    XorFour(0x9, 0x0, 0x9, 1, 1, 0, 0, 0, 0, 0, 0);
    XorFour(0x9c, 0x0, 0x9c, 1, 0, 1, 0, 0, 0, 0, 0);
    XorFour(0x9ca, 0x0, 0x9ca, 1, 1, 1, 1, 0, 0, 0, 0);
    XorFour(0x9caf, 0x0, 0x9caf, 0, 0, 1, 1, 0, 0, 0, 0);
    XorFour(0x9caf3, 0x0, 0x9caf3, 1, 1, 1, 1, 0, 0, 0, 0);
    XorFour(0x9caf3f, 0x0, 0x9caf3f, 1, 0, 1, 1, 0, 0, 0, 0);
    XorFour(0x9caf3fb, 0x0, 0x9caf3fb, 0, 0, 1, 1, 0, 1, 0, 1);
  }

  lemma Xor5()
    ensures Xor32(0x9caf3fb6, 0x9caf) == 0x9cafa319
  {
    hide Xor;
    XorOfZero(0);
    XorFour(0x0, 0x0, 0x0, 1, 0, 0, 1, 0, 0, 0, 0);
    XorFour(0x9, 0x0, 0x9, 1, 1, 0, 0, 0, 0, 0, 0);
    XorFour(0x9c, 0x0, 0x9c, 1, 0, 1, 0, 0, 0, 0, 0);
    XorFour(0x9ca, 0x0, 0x9ca, 1, 1, 1, 1, 0, 0, 0, 0);
    XorFour(0x9caf, 0x0, 0x9caf, 0, 0, 1, 1, 1, 0, 0, 1);
    XorFour(0x9caf3, 0x9, 0x9cafa, 1, 1, 1, 1, 1, 1, 0, 0);
    XorFour(0x9caf3f, 0x9c, 0x9cafa3, 1, 0, 1, 1, 1, 0, 1, 0);
    XorFour(0x9caf3fb, 0x9ca, 0x9cafa31, 0, 1, 1, 0, 1, 1, 1, 1);
  }

  lemma Xor6()
    ensures Xor32(0xc90de573, 0x6486f) == 0xc90bad1c
  {
    hide Xor;
    XorOfZero(0);
    XorFour(0x0, 0x0, 0x0, 1, 1, 0, 0, 0, 0, 0, 0);
    XorFour(0xc, 0x0, 0xc, 1, 0, 0, 1, 0, 0, 0, 0);
    XorFour(0xc9, 0x0, 0xc9, 0, 0, 0, 0, 0, 0, 0, 0);
    XorFour(0xc90, 0x0, 0xc90, 1, 1, 0, 1, 0, 1, 1, 0);
    XorFour(0xc90d, 0x6, 0xc90b, 1, 1, 1, 0, 0, 1, 0, 0);
    XorFour(0xc90de, 0x64, 0xc90ba, 0, 1, 0, 1, 1, 0, 0, 0);
    XorFour(0xc90de5, 0x648, 0xc90bad, 0, 1, 1, 1, 0, 1, 1, 0);
    XorFour(0xc90de57, 0x6486, 0xc90bad1, 0, 0, 1, 1, 1, 1, 1, 1);
  }

  lemma Xor7()
    ensures Xor32(0x248bdecc, 0x248b) == 0x248bfa47
  {
    hide Xor;
    XorOfZero(0);
    XorFour(0x0, 0x0, 0x0, 0, 0, 1, 0, 0, 0, 0, 0);
    XorFour(0x2, 0x0, 0x2, 0, 1, 0, 0, 0, 0, 0, 0);
    XorFour(0x24, 0x0, 0x24, 1, 0, 0, 0, 0, 0, 0, 0);
    XorFour(0x248, 0x0, 0x248, 1, 0, 1, 1, 0, 0, 0, 0);
    XorFour(0x248b, 0x0, 0x248b, 1, 1, 0, 1, 0, 0, 1, 0);
    XorFour(0x248bd, 0x2, 0x248bf, 1, 1, 1, 0, 0, 1, 0, 0);
    XorFour(0x248bde, 0x24, 0x248bfa, 1, 1, 0, 0, 1, 0, 0, 0);
    XorFour(0x248bdec, 0x248, 0x248bfa4, 1, 1, 0, 0, 1, 0, 1, 1);
  }

  // ---- murmur3

  lemma ScrambleZero()
    ensures Scramble(0x0) == 0x0
  {
    hide Rotate, Times, Pow2;
    Powers();
    TimesIs(0x0, 0xcc9e2d51, 0x0, 0x0);
    TimesIs(0x0, 0x1b873593, 0x0, 0x0);
    RotateIs(0x0, 15, 0x20000, 0x0, 0x0, 0x0);
  }

  lemma FinishEmpty()
    ensures MurmurFinish(0x1, 0x0, 0) == 0x514e28b7
  {
    hide Xor32, Shr, Times, Scramble, Pow2;
    ScrambleZero();
    Powers();
    XorOfZero(0x1);
    XorOfZero(0x1);
    ShrIs(0x1, 16, 0x0);
    XorOfZero(0x1);
    TimesIs(0x1, 0x85ebca6b, 0x0, 0x85ebca6b);
    ShrIs(0x85ebca6b, 13, 0x42f5e);
    Xor1();
    TimesIs(0x85efe535, 0xc2b2ae35, 0x65dd47a4, 0x514e79f9);
    ShrIs(0x514e79f9, 16, 0x514e);
    Xor2();
  }

  /** The murmur hash of the empty key from the seed 1. */
  lemma MurmurEmpty()
    ensures Murmur([], 1) == 0x514e28b7
  {
    hide MurmurFinish, MurmurRound;
    FinishEmpty();
    assert Blocks([]) == [];
  }

  lemma ScrambleBlock()
    ensures Scramble(0x6c6c6568) == 0xa0ae7465
  {
    hide Rotate, Times, Pow2;
    Powers();
    TimesIs(0x6c6c6568, 0xcc9e2d51, 0x56a95ee6, 0xd24f5de8);
    TimesIs(0xaef46927, 0x1b873593, 0x12d02e97, 0xa0ae7465);
    RotateIs(0xd24f5de8, 15, 0x20000, 0x6927, 0x15de8, 0xaef46927);
  }

  lemma ScrambleTail()
    ensures Scramble(0x6f) == 0x73bcd07e
  {
    hide Rotate, Times, Pow2;
    Powers();
    TimesIs(0x6f, 0xcc9e2d51, 0x58, 0xb895a61f);
    TimesIs(0xd30fdc4a, 0x1b873593, 0x16b225c4, 0x73bcd07e);
    RotateIs(0xb895a61f, 15, 0x20000, 0x5c4a, 0x1a61f, 0xd30fdc4a);
  }

  lemma RoundBlock()
    ensures MurmurRound(0, 0x6c6c6568) == 0xef13efcd
  {
    hide Xor32, Rotate, Scramble, Pow2;
    Powers();
    ScrambleBlock();
    XorOfZero(0xa0ae7465);
    RotateIs(0xa0ae7465, 13, 0x80000, 0x1415, 0x67465, 0xce8cb415);
  }

  lemma FinishBlock()
    ensures MurmurFinish(0xef13efcd, 0x6f, 5) == 0x248bfa47
  {
    hide Xor32, Shr, Times, Scramble, Pow2;
    ScrambleTail();
    Powers();
    Xor3();
    Xor4();
    ShrIs(0x9caf3fb6, 16, 0x9caf);
    Xor5();
    TimesIs(0x9cafa319, 0x85ebca6b, 0x51f790da, 0xc90de573);
    ShrIs(0xc90de573, 13, 0x6486f);
    Xor6();
    TimesIs(0xc90bad1c, 0xc2b2ae35, 0x98e72c1d, 0x248bdecc);
    ShrIs(0x248bdecc, 16, 0x248b);
    Xor7();
  }

  /** The murmur hash of "hello", a block and a tail, from the seed 0. */
  lemma MurmurHello()
    ensures Murmur([104, 101, 108, 108, 111], 0) == 0x248bfa47
  {
    hide MurmurFinish, MurmurRound;
    var key: seq<Byte> := [104, 101, 108, 108, 111];
    assert key[..4] == [104, 101, 108, 108] && key[4..] == [111];
    assert Load([104, 101, 108, 108]) == 0x6c6c6568;
    assert Blocks(key) == [0x6c6c6568];
    assert Tail([111]) == 0x6f;
    RoundBlock();
    FinishBlock();
    assert Fold(MurmurRound, 0, [0x6c6c6568]) == MurmurRound(0, 0x6c6c6568) by {
      assert [0x6c6c6568 as Word][1..] == [];
    }
  }
}
