/** Every hash undone: functions that run the rounds backwards with the inverse multipliers, and so say
    exactly which value each hash has. */
module HashInverses {
  import opened Numbers
  import opened Orders
  import opened Words
  import opened Hashes

  // ---- the operations undone

  lemma TimesUndone(x: Word, c: nat, d: nat)
    requires (c * d) % TWO32 == 1
    ensures Times(Times(x, c), d) == x && Times(Times(x, d), c) == x
  {
    hide Times;
    TimesTwice(x, c, d);
    TimesTwice(x, d, c);
    Swap(c, d);
  }

  lemma TimesTwice(x: Word, c: nat, d: nat)
    requires (c * d) % TWO32 == 1
    ensures Times(Times(x, c), d) == x
  {
    var u, v := x * c, c * d;
    ReduceFirst(u, d, TWO32);
    assert u * d == x * v by { Reassociate(x, c, d); }
    Swap(x, v);
    ReduceFirst(v, x, TWO32);
  }

  lemma XorUndone(x: Word, c: Word)
    ensures Xor32(Xor32(x, c), c) == x
  {
    forall i | 0 <= i < 32 ensures Bit(Xor32(Xor32(x, c), c), i) <==> Bit(x, i) {
      BitXor(Xor32(x, c), c, i);
      BitXor(x, c, i);
    }
    Pow2Of32();
    WordExt(Xor32(Xor32(x, c), c), x, 32);
  }

  lemma XorCommutes(x: Word, y: Word)
    ensures Xor32(x, y) == Xor32(y, x)
  {
    forall i | 0 <= i < 32 ensures Bit(Xor32(x, y), i) <==> Bit(Xor32(y, x), i) {
      BitXor(x, y, i);
      BitXor(y, x, i);
    }
    Pow2Of32();
    WordExt(Xor32(x, y), Xor32(y, x), 32);
  }

  lemma PlusUndone(x: Word, c: Word)
    ensures Minus(Plus(x, c), c) == x && Plus(Minus(x, c), c) == x
  {}

  lemma RotateUndone(x: Word, k: nat)
    requires 0 < k < 32
    ensures Rotate(Rotate(x, k), 32 - k) == x
  {
    hide Rotate;
    forall i | 0 <= i < 32 ensures Bit(Rotate(Rotate(x, k), 32 - k), i) <==> Bit(x, i) {
      BitRotate(Rotate(x, k), 32 - k, i);
      BitRotate(x, k, if i >= 32 - k then i - (32 - k) else i + k);
    }
    Pow2Of32();
    WordExt(Rotate(Rotate(x, k), 32 - k), x, 32);
  }

  /** `(y >> j) ^ (y >> (j + k)) ^ ...`. */
  function Spread(y: Word, k: nat, j: nat): Word
    requires k > 0
    decreases 32 - j
  {
    if j >= 32 then 0 else Xor32(Shr(y, j), Spread(y, k, j + k))
  }

  /** `x ^ (x >> k)` undone. */
  function UnXorShift(y: Word, k: nat): Word
    requires k > 0
  {
    Spread(y, k, 0)
  }

  lemma {:induction false} ShrOfHigh(x: Word, j: nat)
    requires j >= 32
    ensures Shr(x, j) == 0
  {
    Pow2Of32();
    forall i | 0 <= i < 32 ensures Bit(Shr(x, j), i) <==> Bit(0, i) {
      BitShrBy(x, j, i);
      HighBits(x, 32, i + j);
      ZeroBits(i);
    }
    WordExt(Shr(x, j), 0, 32);
  }

  lemma ShrOfXor(x: Word, y: Word, j: nat)
    ensures Shr(Xor32(x, y), j) == Xor32(Shr(x, j), Shr(y, j))
  {
    var a, b := Shr(Xor32(x, y), j), Xor32(Shr(x, j), Shr(y, j));
    forall i | 0 <= i < 32 ensures Bit(a, i) <==> Bit(b, i) {
      BitShrBy(Xor32(x, y), j, i);
      BitXor(x, y, i + j);
      BitXor(Shr(x, j), Shr(y, j), i);
      BitShrBy(x, j, i);
      BitShrBy(y, j, i);
    }
    Pow2Of32();
    WordExt(a, b, 32);
  }

  lemma {:induction false} ShrTwice(x: nat, k: nat, j: nat)
    ensures Shr(Shr(x, k), j) == Shr(x, k + j)
    decreases k
  {
    if k > 0 { ShrTwice(x / 2, k - 1, j); }
  }

  lemma {:induction false} SpreadOfShifted(x: Word, k: nat, j: nat)
    requires k > 0
    ensures Spread(Xor32(x, Shr(x, k)), k, j) == Shr(x, j)
    decreases 32 - j
  {
    hide Xor32, Shr;
    if j >= 32 {
      ShrOfHigh(x, j);
    } else {
      SpreadOfShifted(x, k, j + k);
      ShrOfXor(x, Shr(x, k), j);
      ShrTwice(x, k, j);
      XorUndone(Shr(x, j), Shr(x, j + k));
    }
  }

  lemma ShrNone(x: Word)
    ensures Shr(x, 0) == x
  {}

  lemma {:induction false} ShrOfSpread(y: Word, k: nat, j: nat)
    requires k > 0
    ensures Shr(Spread(y, k, j), k) == Spread(y, k, j + k)
    decreases 32 - j
  {
    hide Xor32, Shr;
    if j >= 32 {
      ShrZero(k);
    } else {
      ShrOfSpread(y, k, j + k);
      ShrOfXor(Shr(y, j), Spread(y, k, j + k), k);
      ShrTwice(y, j, k);
      if j + k >= 32 {
        ShrOfHigh(y, j + k);
        XorZero();
      }
    }
  }

  lemma {:induction false} ShrZero(k: nat)
    ensures Shr(0, k) == 0
  {
    if k > 0 { ShrZero(k - 1); }
  }

  lemma XorZero()
    ensures Xor32(0, 0) == 0
  {}

  lemma XorShiftUndone(x: Word, k: nat)
    requires k > 0
    ensures UnXorShift(Xor32(x, Shr(x, k)), k) == x
    ensures var y := UnXorShift(x, k); Xor32(y, Shr(y, k)) == x
  {
    hide Xor32, Shr;
    SpreadOfShifted(x, k, 0);
    ShrNone(x);
    ShrOfSpread(x, k, 0);
    XorUndone(x, Spread(x, k, k));
  }

  // ---- folds undone

  /** `g` applied along `s` backwards. */
  function UnFold<T>(g: (Word, T) -> Word, r: Word, s: seq<T>): Word
    decreases |s|
  {
    if s == [] then r else UnFold(g, g(r, s[|s| - 1]), s[..|s| - 1])
  }

  /** `g` undoes the round `f`, and the other way round. */
  ghost predicate Undoes<T(!new)>(g: (Word, T) -> Word, f: (Word, T) -> Word)
  {
    forall h, c {:trigger f(h, c)} {:trigger g(h, c)} :: g(f(h, c), c) == h && f(g(h, c), c) == h
  }

  lemma {:induction false} FoldAppend<T>(f: (Word, T) -> Word, h: Word, s: seq<T>, c: T)
    ensures Fold(f, h, s + [c]) == f(Fold(f, h, s), c)
    decreases |s|
  {
    if s == [] {
      assert s + [c] == [c] && [c][1..] == [];
    } else {
      assert (s + [c])[1..] == s[1..] + [c];
      FoldAppend(f, f(h, s[0]), s[1..], c);
    }
  }

  /** A key has the fold `r` from `h` exactly if undoing it from `r` gives `h`. */
  lemma {:induction false} FoldUndone<T(!new)>(f: (Word, T) -> Word, g: (Word, T) -> Word, h: Word, r: Word, s: seq<T>)
    requires Undoes(g, f)
    ensures Fold(f, h, s) == r <==> UnFold(g, r, s) == h
    decreases |s|
  {
    if s != [] {
      var front, c := s[..|s| - 1], s[|s| - 1];
      assert s == front + [c];
      FoldAppend(f, h, front, c);
      FoldUndone(f, g, h, g(r, c), front);
      assert g(f(Fold(f, h, front), c), c) == Fold(f, h, front);
      assert f(g(r, c), c) == r;
    }
  }

  // ---- djb2a and FNV-1a

  function UnDjb2a(r: Word, c: Word): Word
  {
    Times(Xor32(r, c), 0x3e0f83e1)
  }

  function UnFnv1a(r: Word, c: Word): Word
  {
    Xor32(Times(r, 0x359c449b), c)
  }

  lemma Djb2aUndone(h: Word, c: Word)
    ensures UnDjb2a(Djb2aRound(h, c), c) == h && Djb2aRound(UnDjb2a(h, c), c) == h
  {
    hide Times, Xor32, Plus, Shl;
    AddShiftIsTimes(h, 5);
    AddShiftIsTimes(UnDjb2a(h, c), 5);
    assert Pow2(5) == 32;
    XorUndone(Times(h, 33), c);
    XorUndone(h, c);
    TimesUndone(h, 33, 0x3e0f83e1);
    TimesUndone(Xor32(h, c), 33, 0x3e0f83e1);
  }

  lemma Fnv1aUndone(h: Word, c: Word)
    ensures UnFnv1a(Fnv1aRound(h, c), c) == h && Fnv1aRound(UnFnv1a(h, c), c) == h
  {
    hide Times, Xor32;
    TimesUndone(Xor32(h, c), 16777619, 0x359c449b);
    TimesUndone(h, 16777619, 0x359c449b);
    XorUndone(h, c);
    XorUndone(Times(h, 0x359c449b), c);
  }

  lemma StringRoundsUndone()
    ensures Undoes(UnDjb2a, Djb2aRound) && Undoes(UnFnv1a, Fnv1aRound)
  {
    hide UnDjb2a, Djb2aRound, UnFnv1a, Fnv1aRound;
    forall h, c ensures UnDjb2a(Djb2aRound(h, c), c) == h && Djb2aRound(UnDjb2a(h, c), c) == h {
      Djb2aUndone(h, c);
    }
    forall h, c ensures UnFnv1a(Fnv1aRound(h, c), c) == h && Fnv1aRound(UnFnv1a(h, c), c) == h {
      Fnv1aUndone(h, c);
    }
  }

  /** A string has the djb2a hash `r` exactly if dividing by 33 backwards along it leads from `r` to
      5381. */
  lemma Djb2aExact(s: seq<Byte>, signed: bool, r: Word)
    ensures Djb2a(s, signed) == r <==> UnFold(UnDjb2a, r, Chars(s, signed)) == 5381
  {
    hide Djb2aRound, UnDjb2a, Fold, UnFold, Undoes;
    StringRoundsUndone();
    FoldUndone(Djb2aRound, UnDjb2a, 5381, r, Chars(s, signed));
  }

  /** The same for FNV-1a and its prime. */
  lemma Fnv1aExact(s: seq<Byte>, signed: bool, r: Word)
    ensures Fnv1a(s, signed) == r <==> UnFold(UnFnv1a, r, Chars(s, signed)) == 5381
  {
    hide Fnv1aRound, UnFnv1a, Fold, UnFold, Undoes;
    StringRoundsUndone();
    FoldUndone(Fnv1aRound, UnFnv1a, 5381, r, Chars(s, signed));
  }

  // ---- jenkin

  function UnJenkin(r: Word, c: Byte): Word
  {
    Minus(Times(UnXorShift(r, 6), 0xc00ffc01), c)
  }

  function UnJenkinFinish(r: Word): Word
  {
    Times(UnXorShift(Times(r, 0x3fff8001), 11), 0x38e38e39)
  }

  lemma JenkinUndone(h: Word, c: Byte)
    ensures UnJenkin(JenkinRound(h, c), c) == h && JenkinRound(UnJenkin(h, c), c) == h
  {
    hide Times, Xor32, Plus, Minus, Shl, Shr, UnXorShift;
    assert Pow2(8) == 256 && Pow2(10) == 1024;
    var s := Plus(h, c);
    AddShiftIsTimes(s, 10);
    XorShiftUndone(Times(s, 1025), 6);
    TimesUndone(s, 1025, 0xc00ffc01);
    PlusUndone(h, c);
    var t := UnXorShift(h, 6);
    XorShiftUndone(h, 6);
    TimesUndone(t, 1025, 0xc00ffc01);
    PlusUndone(Times(t, 0xc00ffc01), c);
    AddShiftIsTimes(Times(t, 0xc00ffc01), 10);
  }

  lemma JenkinFinishUndone(h: Word)
    ensures UnJenkinFinish(JenkinFinish(h)) == h && JenkinFinish(UnJenkinFinish(h)) == h
  {
    hide Times, Xor32, Plus, Shl, Shr, UnXorShift;
    assert Pow2(3) == 8 && Pow2(8) == 256 && Pow2(15) == 32768;
    var s := Times(h, 9);
    AddShiftIsTimes(h, 3);
    var t := Xor32(s, Shr(s, 11));
    AddShiftIsTimes(t, 15);
    TimesUndone(t, 32769, 0x3fff8001);
    XorShiftUndone(s, 11);
    TimesUndone(h, 9, 0x38e38e39);
    var a := Times(h, 0x3fff8001);
    var b := UnXorShift(a, 11);
    AddShiftIsTimes(Times(b, 0x38e38e39), 3);
    TimesUndone(b, 9, 0x38e38e39);
    XorShiftUndone(a, 11);
    AddShiftIsTimes(a, 15);
    TimesUndone(h, 32769, 0x3fff8001);
  }

  lemma JenkinRoundsUndone()
    ensures Undoes(UnJenkin, JenkinRound)
  {
    hide UnJenkin, JenkinRound;
    forall h, c ensures UnJenkin(JenkinRound(h, c), c) == h && JenkinRound(UnJenkin(h, c), c) == h {
      JenkinUndone(h, c);
    }
  }

  /** A key has the jenkin hash `r` exactly if undoing the final mixing and then the rounds backwards
      leads to 0. */
  lemma JenkinExact(s: seq<Byte>, r: Word)
    ensures Jenkin(s) == r <==> UnFold(UnJenkin, UnJenkinFinish(r), s) == 0
  {
    hide JenkinRound, UnJenkin, JenkinFinish, UnJenkinFinish, Fold, UnFold, Undoes;
    JenkinRoundsUndone();
    var h := Fold(JenkinRound, 0, s);
    JenkinFinishUndone(h);
    JenkinFinishUndone(r);
    FoldUndone(JenkinRound, UnJenkin, 0, UnJenkinFinish(r), s);
  }

  // ---- murmur3

  function UnScramble(v: Word): Word
  {
    Times(Rotate(Times(v, 0x56ed309b), 17), 0xdee13bb1)
  }

  function UnMurmur(r: Word, k: Word): Word
  {
    Xor32(Rotate(Times(Minus(r, 0xe6546b64), 0xcccccccd), 19), Scramble(k))
  }

  function UnMurmurFinish(r: Word, tail: Word, len: nat): Word
  {
    var a := Times(UnXorShift(r, 16), 0x7ed1b41d);
    var b := Times(UnXorShift(a, 13), 0xa5cb9243);
    Xor32(Xor32(UnXorShift(b, 16), len % TWO32), Scramble(tail))
  }

  /** The seed from which a key has the hash `r`. */
  function Recover(key: seq<Byte>, r: Word): Word
  {
    UnFold(UnMurmur, UnMurmurFinish(r, Tail(key[|key| / 4 * 4..]), |key|), Blocks(key))
  }

  /** The scramble has the value `v` exactly for this word. */
  lemma ScrambleExact(k: Word, v: Word)
    ensures Scramble(k) == v <==> UnScramble(v) == k
  {
    hide Times, Rotate;
    var a := Times(k, 0xcc9e2d51);
    TimesUndone(k, 0xcc9e2d51, 0xdee13bb1);
    RotateUndone(a, 15);
    TimesUndone(Rotate(a, 15), 0x1b873593, 0x56ed309b);
    var b := Times(v, 0x56ed309b);
    TimesUndone(v, 0x1b873593, 0x56ed309b);
    RotateUndone(b, 17);
    TimesUndone(Rotate(b, 17), 0xcc9e2d51, 0xdee13bb1);
  }

  lemma MurmurUndone(h: Word, k: Word)
    ensures UnMurmur(MurmurRound(h, k), k) == h && MurmurRound(UnMurmur(h, k), k) == h
  {
    hide Times, Xor32, Plus, Minus, Rotate, Scramble;
    var x := Xor32(h, Scramble(k));
    var y := Rotate(x, 13);
    PlusUndone(Times(y, 5), 0xe6546b64);
    TimesUndone(y, 5, 0xcccccccd);
    RotateUndone(x, 13);
    XorUndone(h, Scramble(k));
    var m := Minus(h, 0xe6546b64);
    var p := Times(m, 0xcccccccd);
    PlusUndone(h, 0xe6546b64);
    TimesUndone(m, 5, 0xcccccccd);
    RotateUndone(p, 19);
    XorUndone(Rotate(p, 19), Scramble(k));
  }

  lemma MurmurFinishUndone(h: Word, tail: Word, len: nat)
    ensures UnMurmurFinish(MurmurFinish(h, tail, len), tail, len) == h
  {
    hide Times, Xor32, Shr, Scramble, UnXorShift;
    var n := len % TWO32;
    var p := Xor32(h, Scramble(tail));
    var a := Xor32(p, n);
    var x := Xor32(a, Shr(a, 16));
    var b := Times(x, 0x85ebca6b);
    var y := Xor32(b, Shr(b, 13));
    var c := Times(y, 0xc2b2ae35);
    XorShiftUndone(c, 16);
    TimesUndone(y, 0xc2b2ae35, 0x7ed1b41d);
    XorShiftUndone(b, 13);
    TimesUndone(x, 0x85ebca6b, 0xa5cb9243);
    XorShiftUndone(a, 16);
    XorUndone(p, n);
    XorUndone(h, Scramble(tail));
  }

  lemma MurmurFinishRedone(r: Word, tail: Word, len: nat)
    ensures MurmurFinish(UnMurmurFinish(r, tail, len), tail, len) == r
  {
    hide Times, Xor32, Shr, Scramble, UnXorShift;
    var n := len % TWO32;
    var c := UnXorShift(r, 16);
    var y := Times(c, 0x7ed1b41d);
    var b := UnXorShift(y, 13);
    var x := Times(b, 0xa5cb9243);
    var a := UnXorShift(x, 16);
    XorUndone(Xor32(a, n), Scramble(tail));
    XorUndone(a, n);
    XorShiftUndone(x, 16);
    TimesUndone(b, 0x85ebca6b, 0xa5cb9243);
    XorShiftUndone(y, 13);
    TimesUndone(c, 0xc2b2ae35, 0x7ed1b41d);
    XorShiftUndone(r, 16);
  }

  lemma MurmurRoundsUndone()
    ensures Undoes(UnMurmur, MurmurRound)
  {
    hide UnMurmur, MurmurRound;
    forall h, k ensures UnMurmur(MurmurRound(h, k), k) == h && MurmurRound(UnMurmur(h, k), k) == h {
      MurmurUndone(h, k);
    }
  }

  /** A key has the murmur hash `r` from a seed exactly if the seed is the one recovered from `r`. */
  lemma MurmurExact(key: seq<Byte>, seed: Word, r: Word)
    ensures Murmur(key, seed) == r <==> Recover(key, r) == seed
  {
    hide MurmurRound, UnMurmur, MurmurFinish, UnMurmurFinish, Fold, UnFold, Undoes, Blocks, Tail;
    MurmurRoundsUndone();
    var tail, n := Tail(key[|key| / 4 * 4..]), |key|;
    var h := Fold(MurmurRound, seed, Blocks(key));
    MurmurFinishUndone(h, tail, n);
    MurmurFinishRedone(r, tail, n);
    FoldUndone(MurmurRound, UnMurmur, seed, UnMurmurFinish(r, tail, n), Blocks(key));
  }

  /** So for every key the hash is a bijection of the seeds. */
  lemma MurmurBijective(key: seq<Byte>, seed: Word, r: Word)
    ensures Murmur(key, Recover(key, r)) == r && Recover(key, Murmur(key, seed)) == seed
  {
    hide Murmur, Recover;
    MurmurExact(key, Recover(key, r), r);
    MurmurExact(key, seed, Murmur(key, seed));
  }

  // ---- sdbm

  /** The value of the characters as digits in base 65599. */
  function Value(w: seq<Word>): nat
  {
    if w == [] then 0 else Value(w[..|w| - 1]) * 65599 + w[|w| - 1]
  }

  lemma NextDigit(v: nat, c: Word)
    ensures Plus(c, Times(v % TWO32, 65599)) == (v * 65599 + c) % TWO32
  {
    ModProduct(v, 65599, TWO32);
    ModProduct(v % TWO32, 65599, TWO32);
    RemainderTwice(v, TWO32);
    ReduceRight(c, v * 65599);
  }

  /** The sdbm hash is that value modulo 2^32. */
  lemma {:induction false} SdbmFold(w: seq<Word>)
    ensures Fold(SdbmRound, 0, w) == Value(w) % TWO32
  {
    hide SdbmRound, Plus, Times;
    if w != [] {
      var front, c := w[..|w| - 1], w[|w| - 1];
      assert w == front + [c];
      FoldAppend(SdbmRound, 0, front, c);
      SdbmFold(front);
      SdbmRoundIs(Fold(SdbmRound, 0, front), c);
      NextDigit(Value(front), c);
    }
  }

  lemma SdbmExact(s: seq<Byte>, signed: bool)
    ensures Sdbm(s, signed) == Value(Chars(s, signed)) % TWO32
  {
    SdbmFold(Chars(s, signed));
  }

  // ---- pjw

  lemma ShiftedFour(h: Word)
    ensures Shl(h, 4) == (16 * h) % TWO32
  {
    assert Pow2(4) == 16;
  }

  lemma {:induction false} ShrIsQuotient(x: nat, k: nat)
    ensures Shr(x, k) == x / Pow2(k)
    decreases k
  {
    if k > 0 {
      ShrIsQuotient(x / 2, k - 1);
      var p := Pow2(k - 1);
      var q, r := (x / 2) / p, (x / 2) % p;
      assert x / 2 == p * q + r;
      Reassociate(2, p, q);
      RemainderIs(x, 2 * p, q, 2 * r + x % 2);
    }
  }

  lemma PjwBit(s: Word, g: Word, i: nat)
    requires g == And(s, 0xf000_0000) && i < 28
    ensures Bit(Xor32(Xor32(s, Shr(g, 24)), g), i) <==> (Bit(s, i) <==> !(i >= 4 && Bit(s, i + 24)))
  {
    hide And, Shr, Bit, Xor;
    BitXor(s, Shr(g, 24), i);
    BitXor(Xor32(s, Shr(g, 24)), g, i);
    BitShrBy(g, 24, i);
    BitAnd(s, 0xf000_0000, i);
    TopBits(i);
    BitAnd(s, 0xf000_0000, i + 24);
    if i >= 4 {
      if i + 24 < 32 { TopMask(i + 24); } else { Pow2Of32(); HighBits(s, 32, i + 24); }
    } else {
      TopBits(i + 24);
    }
  }

  lemma Pow2Of28()
    ensures Pow2(28) == 0x1000_0000
  {
    assert Pow2(8) == 256 && Pow2(16) == 65536 && Pow2(24) == 16777216;
  }

  lemma TimesSixteen(x: nat, i: nat)
    ensures Bit(16 * x, i) <==> i >= 4 && Bit(x, i - 4)
  {
    assert Pow2(4) == 16;
    BitScaled(x, 4, i);
  }

  lemma PjwSplitBit(s: Word, i: nat)
    requires i < 28
    ensures Bit(Xor(s % 0x1000_0000, 16 * (s / 0x1000_0000)), i) <==>
            (Bit(s, i) <==> !(i >= 4 && Bit(s, i + 24)))
  {
    hide Shr, Bit, Xor, Pow2;
    var low, top := s % 0x1000_0000, s / 0x1000_0000;
    Pow2Of28();
    BitXor(low, 16 * top, i);
    LowBits(s, 28, i);
    TimesSixteen(top, i);
    ShrIsQuotient(s, 28);
    if i >= 4 { BitShrBy(s, 28, i - 4); }
  }

  lemma NoTop(s: Word, i: nat)
    requires And(s, 0xf000_0000) == 0 && 28 <= i
    ensures !Bit(s, i)
  {
    hide And, Bit;
    if i < 32 {
      BitAnd(s, 0xf000_0000, i);
      TopMask(i);
      ZeroBits(i);
    } else {
      Pow2Of32();
      HighBits(s, 32, i);
    }
  }

  /** A round shifts in a character, and adds the four digits shifted out to digits 4 to 7 without
      carry. */
  lemma PjwRoundIs(h: Word, c: Word)
    ensures var s := (16 * h + c) % TWO32; PjwRound(h, c) == Xor(s % 0x1000_0000, 16 * (s / 0x1000_0000))
  {
    hide Shr, Bit, Xor, And, Pow2;
    ShiftedFour(h);
    ReduceRight(c, 16 * h);
    var s: Word := (16 * h + c) % TWO32;
    assert s == Plus(Shl(h, 4), c);
    AndBound(s, 0xf000_0000);
    var g: Word := And(s, 0xf000_0000);
    var low, top := s % 0x1000_0000, s / 0x1000_0000;
    Pow2Of28();
    XorBound(low, 16 * top, 28);
    PjwRoundBound(h, c);
    forall i | 0 <= i < 28 ensures Bit(PjwRound(h, c), i) <==> Bit(Xor(low, 16 * top), i) {
      PjwBit(s, g, i);
      PjwSplitBit(s, i);
      if g == 0 && i >= 4 { NoTop(s, i + 24); }
    }
    WordExt(PjwRound(h, c), Xor(low, 16 * top), 28);
  }

  // ---- bytes and characters

  /** A number from its bytes, the least significant first. */
  function LittleEndian(s: seq<Byte>): nat
  {
    if s == [] then 0 else s[0] + 256 * LittleEndian(s[1..])
  }

  /** Blocks and tails of murmur keys are little-endian numbers. */
  lemma LoadsAre(b: seq<Byte>)
    ensures |b| == 4 ==> Load(b) == LittleEndian(b)
    ensures |b| <= 3 ==> Tail(b) == LittleEndian(b)
  {
    if |b| >= 1 {
      assert b == [b[0]] + b[1..];
      if |b| >= 2 {
        assert b[1..][1..] == b[2..];
        if |b| >= 3 {
          assert b[2..][1..] == b[3..];
          if |b| == 4 { assert b[3..][1..] == []; }
        }
      }
    }
  }

  /** A character has the value that its C type gives it, modulo 2^32. */
  lemma CharWordIs(c: Byte, signed: bool)
    ensures CharWord(c, signed) == (if signed && c >= 128 then c - 256 else c) % TWO32
  {}
}
