/** The 32-bit hashes.  Every round is a bijection of the accumulator and injective in its input, so
    a change confined to one place of the key always changes the hash. */
module Hashes {
  import opened Numbers
  import opened Words

  // ---- the rounds

  /** `h += c; h += h << 10; h ^= h >> 6`. */
  function JenkinRound(h: Word, c: Byte): Word
  {
    var s := Plus(h, c);
    var t := Plus(s, Shl(s, 10));
    Xor32(t, Shr(t, 6))
  }

  /** `h += h << 3; h ^= h >> 11; h += h << 15`. */
  function JenkinFinish(h: Word): Word
  {
    var s := Plus(h, Shl(h, 3));
    var t := Xor32(s, Shr(s, 11));
    Plus(t, Shl(t, 15))
  }

  /** A `char` converted to uint32_t: sign-extended where plain char is signed. */
  function CharWord(c: Byte, signed: bool): Word
  {
    if signed && c >= 128 then TWO32 - 256 + c else c
  }

  /** `hash = ((hash << 5) + hash) ^ c`. */
  function Djb2aRound(h: Word, c: Word): Word
  {
    Xor32(Plus(Shl(h, 5), h), c)
  }

  /** `hash ^= c; hash *= 16777619`. */
  function Fnv1aRound(h: Word, c: Word): Word
  {
    Times(Xor32(h, c), 16777619)
  }

  /** `hash = c + (hash << 6) + (hash << 16) - hash`. */
  function SdbmRound(h: Word, c: Word): Word
  {
    Minus(Plus(Plus(c, Shl(h, 6)), Shl(h, 16)), h)
  }

  /** `h = (h << 4) + c`, then the top four digits folded down by 24 and cleared. */
  function PjwRound(h: Word, c: Word): Word
  {
    var s := Plus(Shl(h, 4), c);
    AndBound(s, 0xf000_0000);
    var g: Word := And(s, 0xf000_0000);
    if g != 0 then Xor32(Xor32(s, Shr(g, 24)), g) else s
  }

  function Minus(x: Word, y: Word): Word
  {
    (TWO32 + x - y) % TWO32
  }

  // ---- each round is injective in both arguments

  lemma ReduceRight(u: int, v: int)
    ensures (u + v % TWO32) % TWO32 == (u + v) % TWO32
  {
    AddMultiple(u + v, TWO32, -(v / TWO32));
  }

  lemma ShiftSum(h: nat, p: nat)
    ensures (h + (h * p) % TWO32) % TWO32 == (h * (p + 1)) % TWO32
  {
    Distribute(h, p, 1);
    ReduceRight(h, h * p);
  }

  lemma AddShiftIsTimes(h: Word, k: nat)
    ensures Plus(h, Shl(h, k)) == Times(h, Pow2(k) + 1)
    ensures Plus(Shl(h, k), h) == Times(h, Pow2(k) + 1)
  {
    hide Pow2;
    ShiftSum(h, Pow2(k));
  }

  lemma AddShiftInjective(x: Word, y: Word, k: nat)
    requires k > 0
    requires Plus(x, Shl(x, k)) == Plus(y, Shl(y, k)) || Plus(Shl(x, k), x) == Plus(Shl(y, k), y)
    ensures x == y
  {
    hide Plus, Shl, Times;
    AddShiftIsTimes(x, k);
    AddShiftIsTimes(y, k);
    assert Pow2(k) == 2 * Pow2(k - 1);
    TimesInjective(x, y, Pow2(k) + 1);
  }

  lemma JenkinRoundInjective(g: Word, h: Word, c: Byte, d: Byte)
    requires JenkinRound(g, c) == JenkinRound(h, d) && (g == h || c == d)
    ensures g == h && c == d
  {
    hide Plus, Shl, Xor32, Shr;
    var s, t := Plus(g, c), Plus(h, d);
    XorShiftInjective(Plus(s, Shl(s, 10)), Plus(t, Shl(t, 10)), 6);
    AddShiftInjective(s, t, 10);
    if g == h { PlusInjective(c, d, g); } else { PlusInjective(g, h, c); }
  }

  lemma JenkinFinishInjective(g: Word, h: Word)
    requires JenkinFinish(g) == JenkinFinish(h)
    ensures g == h
  {
    hide Plus, Shl, Xor32, Shr;
    var s, t := Plus(g, Shl(g, 3)), Plus(h, Shl(h, 3));
    AddShiftInjective(Xor32(s, Shr(s, 11)), Xor32(t, Shr(t, 11)), 15);
    XorShiftInjective(s, t, 11);
    AddShiftInjective(g, h, 3);
  }

  lemma CharWordInjective(c: Byte, d: Byte, signed: bool)
    requires CharWord(c, signed) == CharWord(d, signed)
    ensures c == d
  {}

  lemma Djb2aRoundInjective(g: Word, h: Word, c: Word, d: Word)
    requires Djb2aRound(g, c) == Djb2aRound(h, d) && (g == h || c == d)
    ensures g == h && c == d
  {
    hide Plus, Shl, Xor32;
    if g == h {
      XorInjective(c, d, Plus(Shl(g, 5), g));
    } else {
      XorInjective(Plus(Shl(g, 5), g), Plus(Shl(h, 5), h), c);
      AddShiftInjective(g, h, 5);
    }
  }

  lemma Fnv1aRoundInjective(g: Word, h: Word, c: Word, d: Word)
    requires Fnv1aRound(g, c) == Fnv1aRound(h, d) && (g == h || c == d)
    ensures g == h && c == d
  {
    hide Times, Xor32;
    TimesInjective(Xor32(g, c), Xor32(h, d), 16777619);
    if g == h { XorInjective(c, d, g); } else { XorInjective(g, h, c); }
  }

  lemma SdbmShifts(h: Word)
    ensures Shl(h, 6) == (h * 64) % TWO32 && Shl(h, 16) == (h * 65536) % TWO32
  {
    assert Pow2(6) == 64;
    assert Pow2(8) == 256;
    assert Pow2(16) == 65536;
  }

  lemma ReduceBoth(u: int, v: int)
    ensures (u % TWO32 + v % TWO32) % TWO32 == (u + v) % TWO32
  {
    ReduceRight(u % TWO32, v);
    ReduceRight(v, u);
  }

  lemma ReduceMinus(v: int, h: int)
    ensures (TWO32 + v % TWO32 - h) % TWO32 == (v - h) % TWO32
  {
    ReduceRight(TWO32 - h, v);
    AddMultiple(v - h, TWO32, 1);
  }

  lemma SdbmSum(h: nat, c: nat, a: nat, b: nat)
    requires a == h * 64 && b == h * 65536
    ensures (TWO32 + ((c + a % TWO32) % TWO32 + b % TWO32) % TWO32 - h) % TWO32 ==
            (c + (h * 65599) % TWO32) % TWO32
  {
    ReduceRight(c, a);
    ReduceBoth(c + a, b);
    ReduceMinus(c + a + b, h);
    ReduceRight(c, h * 65599);
  }

  lemma SdbmRoundIs(h: Word, c: Word)
    ensures SdbmRound(h, c) == Plus(c, Times(h, 65599))
  {
    hide Shl;
    SdbmShifts(h);
    SdbmSum(h, c, h * 64, h * 65536);
  }

  lemma SdbmRoundInjective(g: Word, h: Word, c: Word, d: Word)
    requires SdbmRound(g, c) == SdbmRound(h, d) && (g == h || c == d)
    ensures g == h && c == d
  {
    hide SdbmRound, Plus, Times;
    SdbmRoundIs(g, c);
    SdbmRoundIs(h, d);
    if g == h {
      PlusInjective(c, d, Times(g, 65599));
    } else {
      PlusInjective(Times(g, 65599), Times(h, 65599), c);
      TimesInjective(g, h, 65599);
    }
  }

  // ---- folding a round over a key

  /** `f` applied along `s` from the accumulator `h`. */
  function Fold<T>(f: (Word, T) -> Word, h: Word, s: seq<T>): Word
    decreases |s|
  {
    if s == [] then h else Fold(f, f(h, s[0]), s[1..])
  }

  ghost predicate Cancels<T(!new)>(f: (Word, T) -> Word)
  {
    forall g, h, c, d :: f(g, c) == f(h, d) && (g == h || c == d) ==> g == h && c == d
  }

  lemma {:induction false} FoldInjective<T(!new)>(f: (Word, T) -> Word, g: Word, h: Word, s: seq<T>)
    requires Cancels(f) && Fold(f, g, s) == Fold(f, h, s)
    ensures g == h
    decreases |s|
  {
    if s != [] {
      FoldInjective(f, f(g, s[0]), f(h, s[0]), s[1..]);
    }
  }

  /** Keys that differ in one place only are told apart. */
  lemma {:induction false} FoldTellsApart<T(!new)>(f: (Word, T) -> Word, h: Word, s: seq<T>, t: seq<T>, i: nat)
    requires Cancels(f) && |s| == |t| && i < |s| && s[i] != t[i]
    requires forall j :: 0 <= j < |s| && j != i ==> s[j] == t[j]
    ensures Fold(f, h, s) != Fold(f, h, t)
    decreases |s|
  {
    if i == 0 {
      assert s[1..] == t[1..];
      if Fold(f, h, s) == Fold(f, h, t) {
        FoldInjective(f, f(h, s[0]), f(h, t[0]), s[1..]);
      }
    } else {
      FoldTellsApart(f, f(h, s[0]), s[1..], t[1..], i - 1);
    }
  }

  // ---- the string hashes

  function Jenkin(s: seq<Byte>): Word
  {
    JenkinFinish(Fold(JenkinRound, 0, s))
  }

  function Chars(s: seq<Byte>, signed: bool): (w: seq<Word>)
    ensures |w| == |s| && forall i :: 0 <= i < |s| ==> w[i] == CharWord(s[i], signed)
  {
    seq(|s|, i requires 0 <= i < |s| => CharWord(s[i], signed))
  }

  function Djb2a(s: seq<Byte>, signed: bool): Word
  {
    Fold(Djb2aRound, 5381, Chars(s, signed))
  }

  function Fnv1a(s: seq<Byte>, signed: bool): Word
  {
    Fold(Fnv1aRound, 5381, Chars(s, signed))
  }

  function Sdbm(s: seq<Byte>, signed: bool): Word
  {
    Fold(SdbmRound, 0, Chars(s, signed))
  }

  function Pjw(s: seq<Byte>, signed: bool): Word
  {
    Fold(PjwRound, 0, Chars(s, signed))
  }

  /** Two strings of one length that differ in exactly one byte have different hashes, under each of
      the four. */
  lemma OneByteTellsApart(s: seq<Byte>, t: seq<Byte>, i: nat, signed: bool)
    requires |s| == |t| && i < |s| && s[i] != t[i]
    requires forall j :: 0 <= j < |s| && j != i ==> s[j] == t[j]
    ensures Jenkin(s) != Jenkin(t)
    ensures Djb2a(s, signed) != Djb2a(t, signed)
    ensures Fnv1a(s, signed) != Fnv1a(t, signed)
    ensures Sdbm(s, signed) != Sdbm(t, signed)
  {
    hide JenkinRound, JenkinFinish, Djb2aRound, Fnv1aRound, SdbmRound, Fold;
    RoundsCancel();
    FoldTellsApart(JenkinRound, 0, s, t, i);
    if Jenkin(s) == Jenkin(t) { JenkinFinishInjective(Fold(JenkinRound, 0, s), Fold(JenkinRound, 0, t)); }
    var a, b := Chars(s, signed), Chars(t, signed);
    if a[i] == b[i] { CharWordInjective(s[i], t[i], signed); }
    FoldTellsApart(Djb2aRound, 5381, a, b, i);
    FoldTellsApart(Fnv1aRound, 5381, a, b, i);
    FoldTellsApart(SdbmRound, 0, a, b, i);
  }

  lemma RoundsCancel()
    ensures Cancels(JenkinRound) && Cancels(Djb2aRound) && Cancels(Fnv1aRound) && Cancels(SdbmRound)
  {
    hide JenkinRound, Djb2aRound, Fnv1aRound, SdbmRound;
    forall g, h, c, d | JenkinRound(g, c) == JenkinRound(h, d) && (g == h || c == d) ensures g == h && c == d {
      JenkinRoundInjective(g, h, c, d);
    }
    forall g, h, c, d | Djb2aRound(g, c) == Djb2aRound(h, d) && (g == h || c == d) ensures g == h && c == d {
      Djb2aRoundInjective(g, h, c, d);
    }
    forall g, h, c, d | Fnv1aRound(g, c) == Fnv1aRound(h, d) && (g == h || c == d) ensures g == h && c == d {
      Fnv1aRoundInjective(g, h, c, d);
    }
    forall g, h, c, d | SdbmRound(g, c) == SdbmRound(h, d) && (g == h || c == d) ensures g == h && c == d {
      SdbmRoundInjective(g, h, c, d);
    }
  }

  // ---- the pjw hash stays within 28 digits

  lemma {:induction false} SmallBits(x: nat, w: nat, v: nat)
    requires w <= v && x < Pow2(v)
    requires forall i :: w <= i < v ==> !Bit(x, i)
    ensures x < Pow2(w)
    decreases v
  {
    if w == 0 {
      forall i | 0 <= i < v ensures Bit(x, i) <==> Bit(0, i) { ZeroBits(i); }
      WordExt(x, 0, v);
    } else {
      forall i | w - 1 <= i < v - 1 ensures !Bit(x / 2, i) { assert !Bit(x, i + 1); }
      SmallBits(x / 2, w - 1, v - 1);
    }
  }

  lemma TopMask(i: nat)
    requires 28 <= i < 32
    ensures Bit(0xf000_0000, i)
  {
    assert Pow2(8) == 256 && Pow2(16) == 65536 && Pow2(24) == 16777216;
    assert Pow2(28) == 0x1000_0000;
    BitScaled(15, 28, i);
    assert Pow2(4) == 16;
    OnesBits(4, i - 28);
  }

  lemma TopBits(i: nat)
    requires i < 28
    ensures !Bit(0xf000_0000, i)
  {
    assert Pow2(8) == 256 && Pow2(16) == 65536 && Pow2(24) == 16777216;
    assert Pow2(28) == 0x1000_0000;
    BitScaled(15, 28, i);
  }

  lemma PjwMaskBit(s: Word, g: Word, i: nat)
    requires g == And(s, 0xf000_0000) && 28 <= i < 32
    ensures (Bit(g, i) <==> Bit(s, i)) && !Bit(Shr(g, 24), i)
  {
    hide And, Shr, Bit;
    BitAnd(s, 0xf000_0000, i);
    TopMask(i);
    BitShrBy(g, 24, i);
    Pow2Of32();
    HighBits(g, 32, i + 24);
  }

  lemma PjwTopBit(s: Word, g: Word, i: nat)
    requires g == And(s, 0xf000_0000) && 28 <= i < 32
    ensures Bit(g, i) <==> Bit(s, i)
    ensures !Bit(Xor32(Xor32(s, Shr(g, 24)), g), i)
  {
    hide And, Shr, Bit, Xor;
    PjwMaskBit(s, g, i);
    BitXor(s, Shr(g, 24), i);
    BitXor(Xor32(s, Shr(g, 24)), g, i);
  }

  /** Folding the top four digits down clears them, so a round never shifts a digit out. */
  lemma PjwRoundBound(h: Word, c: Word)
    ensures PjwRound(h, c) < 0x1000_0000
  {
    hide Plus, Shl, Shr, Xor32, And, Bit;
    var s := Plus(Shl(h, 4), c);
    AndBound(s, 0xf000_0000);
    var g: Word := And(s, 0xf000_0000);
    forall i | 28 <= i < 32 ensures !Bit(PjwRound(h, c), i) {
      PjwTopBit(s, g, i);
      ZeroBits(i);
    }
    Pow2Of32();
    SmallBits(PjwRound(h, c), 28, 32);
    assert Pow2(8) == 256 && Pow2(16) == 65536 && Pow2(24) == 16777216;
  }

  lemma {:induction false} PjwFoldBound(h: Word, w: seq<Word>)
    requires h < 0x1000_0000
    ensures Fold(PjwRound, h, w) < 0x1000_0000
    decreases |w|
  {
    hide PjwRound;
    if w != [] {
      PjwRoundBound(h, w[0]);
      PjwFoldBound(PjwRound(h, w[0]), w[1..]);
    }
  }

  /** A pjw hash never uses the top four digits. */
  lemma PjwBound(s: seq<Byte>, signed: bool)
    ensures Pjw(s, signed) < 0x1000_0000
  {
    PjwFoldBound(0, Chars(s, signed));
  }

  // ---- the methods

  /** stress_hash_jenkin. */
  method HashJenkin(data: array<Byte>, len: nat) returns (h: Word)
    requires len <= data.Length
    ensures h == Jenkin(data[..len])
  {
    hide Plus, Shl, Xor32, Shr;
    h := 0;
    for i := 0 to len
      invariant Fold(JenkinRound, h, data[i..len]) == Fold(JenkinRound, 0, data[..len])
    {
      assert data[i..len][1..] == data[i + 1..len];
      h := Plus(h, data[i]);
      h := Plus(h, Shl(h, 10));
      h := Xor32(h, Shr(h, 6));
    }
    assert data[len..len] == [];
    h := Plus(h, Shl(h, 3));
    h := Xor32(h, Shr(h, 11));
    h := Plus(h, Shl(h, 15));
  }

  /** A NUL-terminated string of `len` characters at the start of a buffer. */
  predicate CString(str: array<Byte>, len: nat)
    reads str
  {
    len < str.Length && str[len] == 0 && forall i :: 0 <= i < len ==> str[i] != 0
  }

  lemma CharsTail(s: seq<Byte>, signed: bool)
    requires s != []
    ensures Chars(s, signed) == [CharWord(s[0], signed)] + Chars(s[1..], signed)
  {}

  /** stress_hash_djb2a. */
  method HashDjb2a(str: array<Byte>, signed: bool, ghost len: nat) returns (hash: Word)
    requires CString(str, len)
    ensures hash == Djb2a(str[..len], signed)
  {
    hide Plus, Shl, Xor32, CharWord;
    hash := 5381;
    var i := 0;
    while str[i] != 0
      invariant i <= len
      invariant Fold(Djb2aRound, hash, Chars(str[i..len], signed)) == Djb2a(str[..len], signed)
      decreases len - i
    {
      CharsTail(str[i..len], signed);
      assert str[i..len][1..] == str[i + 1..len];
      hash := Xor32(Plus(Shl(hash, 5), hash), CharWord(str[i], signed));
      i := i + 1;
    }
    assert Chars(str[len..len], signed) == [];
  }

  /** stress_hash_fnv1a. */
  method HashFnv1a(str: array<Byte>, signed: bool, ghost len: nat) returns (hash: Word)
    requires CString(str, len)
    ensures hash == Fnv1a(str[..len], signed)
  {
    hide Times, Xor32, CharWord;
    hash := 5381;
    var i := 0;
    while str[i] != 0
      invariant i <= len
      invariant Fold(Fnv1aRound, hash, Chars(str[i..len], signed)) == Fnv1a(str[..len], signed)
      decreases len - i
    {
      CharsTail(str[i..len], signed);
      assert str[i..len][1..] == str[i + 1..len];
      hash := Xor32(hash, CharWord(str[i], signed));
      hash := Times(hash, 16777619);
      i := i + 1;
    }
    assert Chars(str[len..len], signed) == [];
  }

  /** stress_hash_pjw. */
  method HashPjw(str: array<Byte>, signed: bool, ghost len: nat) returns (h: Word)
    requires CString(str, len)
    ensures h == Pjw(str[..len], signed)
  {
    hide Plus, Shl, Xor32, Shr, And, CharWord;
    h := 0;
    var i := 0;
    while str[i] != 0
      invariant i <= len
      invariant Fold(PjwRound, h, Chars(str[i..len], signed)) == Pjw(str[..len], signed)
      decreases len - i
    {
      CharsTail(str[i..len], signed);
      assert str[i..len][1..] == str[i + 1..len];
      h := Plus(Shl(h, 4), CharWord(str[i], signed));
      AndBound(h, 0xf000_0000);
      var g: Word := And(h, 0xf000_0000);
      if g != 0 {
        h := Xor32(h, Shr(g, 24));
        h := Xor32(h, g);
      }
      i := i + 1;
    }
    assert Chars(str[len..len], signed) == [];
  }

  /** stress_hash_sdbm. */
  method HashSdbm(str: array<Byte>, signed: bool, ghost len: nat) returns (hash: Word)
    requires CString(str, len)
    ensures hash == Sdbm(str[..len], signed)
  {
    hide Plus, Minus, Shl, CharWord;
    hash := 0;
    var i := 0;
    while str[i] != 0
      invariant i <= len
      invariant Fold(SdbmRound, hash, Chars(str[i..len], signed)) == Sdbm(str[..len], signed)
      decreases len - i
    {
      CharsTail(str[i..len], signed);
      assert str[i..len][1..] == str[i + 1..len];
      hash := Minus(Plus(Plus(CharWord(str[i], signed), Shl(hash, 6)), Shl(hash, 16)), hash);
      i := i + 1;
    }
    assert Chars(str[len..len], signed) == [];
  }

  // ---- murmur3

  function Join(lo: nat, hi: nat): nat
  {
    lo + 256 * hi
  }

  lemma JoinInjective(a: nat, b: nat, c: nat, d: nat)
    requires a < 256 && c < 256 && Join(a, b) == Join(c, d)
    ensures a == c && b == d
  {}

  /** Four bytes loaded on a little-endian host. */
  function Load(b: seq<Byte>): Word
    requires |b| == 4
  {
    Join(b[0], Join(b[1], Join(b[2], b[3])))
  }

  function Scramble(k: Word): Word
  {
    Times(Rotate(Times(k, 0xcc9e2d51), 15), 0x1b873593)
  }

  function MurmurRound(h: Word, k: Word): Word
  {
    Plus(Times(Rotate(Xor32(h, Scramble(k)), 13), 5), 0xe6546b64)
  }

  function MurmurFinish(h: Word, tail: Word, len: nat): Word
  {
    var a := Xor32(Xor32(h, Scramble(tail)), len % TWO32);
    var b := Times(Xor32(a, Shr(a, 16)), 0x85ebca6b);
    var c := Times(Xor32(b, Shr(b, 13)), 0xc2b2ae35);
    Xor32(c, Shr(c, 16))
  }

  /** The whole 4-byte blocks of a key. */
  function Blocks(key: seq<Byte>): (s: seq<Word>)
    ensures |s| == |key| / 4
  {
    if |key| < 4 then [] else [Load(key[..4])] + Blocks(key[4..])
  }

  /** The last 0 to 3 bytes, the first in the low digits. */
  function Tail(rest: seq<Byte>): Word
    requires |rest| <= 3
  {
    if |rest| == 0 then 0
    else if |rest| == 1 then rest[0]
    else if |rest| == 2 then Join(rest[0], rest[1])
    else Join(rest[0], Join(rest[1], rest[2]))
  }

  function Murmur(key: seq<Byte>, seed: Word): Word
  {
    MurmurFinish(Fold(MurmurRound, seed, Blocks(key)), Tail(key[|key| / 4 * 4..]), |key|)
  }

  lemma ScrambleInjective(j: Word, k: Word)
    requires Scramble(j) == Scramble(k)
    ensures j == k
  {
    hide Times, Rotate;
    TimesInjective(Rotate(Times(j, 0xcc9e2d51), 15), Rotate(Times(k, 0xcc9e2d51), 15), 0x1b873593);
    RotateInjective(Times(j, 0xcc9e2d51), Times(k, 0xcc9e2d51), 15);
    TimesInjective(j, k, 0xcc9e2d51);
  }

  lemma MurmurRoundInjective(g: Word, h: Word, j: Word, k: Word)
    requires MurmurRound(g, j) == MurmurRound(h, k) && (g == h || j == k)
    ensures g == h && j == k
  {
    hide Plus, Times, Rotate, Xor32, Scramble;
    var a, b := Xor32(g, Scramble(j)), Xor32(h, Scramble(k));
    PlusInjective(Times(Rotate(a, 13), 5), Times(Rotate(b, 13), 5), 0xe6546b64);
    TimesInjective(Rotate(a, 13), Rotate(b, 13), 5);
    RotateInjective(a, b, 13);
    if g == h {
      XorInjective(Scramble(j), Scramble(k), g);
      ScrambleInjective(j, k);
    } else {
      XorInjective(g, h, Scramble(j));
    }
  }

  lemma MurmurFinishInjective(g: Word, h: Word, j: Word, k: Word, len: nat)
    requires MurmurFinish(g, j, len) == MurmurFinish(h, k, len) && (g == h || j == k)
    ensures g == h && j == k
  {
    hide Times, Xor32, Shr, Scramble;
    var p, q := Xor32(g, Scramble(j)), Xor32(h, Scramble(k));
    var n := len % TWO32;
    var a, a' := Xor32(p, n), Xor32(q, n);
    var x, x' := Xor32(a, Shr(a, 16)), Xor32(a', Shr(a', 16));
    var b, b' := Times(x, 0x85ebca6b), Times(x', 0x85ebca6b);
    var y, y' := Xor32(b, Shr(b, 13)), Xor32(b', Shr(b', 13));
    var c, c' := Times(y, 0xc2b2ae35), Times(y', 0xc2b2ae35);
    XorShiftInjective(c, c', 16);
    TimesInjective(y, y', 0xc2b2ae35);
    XorShiftInjective(b, b', 13);
    TimesInjective(x, x', 0x85ebca6b);
    XorShiftInjective(a, a', 16);
    XorInjective(p, q, n);
    if g == h {
      XorInjective(Scramble(j), Scramble(k), g);
      ScrambleInjective(j, k);
    } else {
      XorInjective(g, h, Scramble(j));
    }
  }

  lemma LoadInjective(a: seq<Byte>, b: seq<Byte>)
    requires |a| == 4 && |b| == 4 && Load(a) == Load(b)
    ensures a == b
  {
    hide Join;
    JoinInjective(a[0], Join(a[1], Join(a[2], a[3])), b[0], Join(b[1], Join(b[2], b[3])));
    JoinInjective(a[1], Join(a[2], a[3]), b[1], Join(b[2], b[3]));
    JoinInjective(a[2], a[3], b[2], b[3]);
  }

  lemma TailInjective(a: seq<Byte>, b: seq<Byte>)
    requires |a| == |b| <= 3 && Tail(a) == Tail(b)
    ensures a == b
  {
    hide Join;
    if |a| == 2 {
      JoinInjective(a[0], a[1], b[0], b[1]);
    } else if |a| == 3 {
      JoinInjective(a[0], Join(a[1], a[2]), b[0], Join(b[1], b[2]));
      JoinInjective(a[1], a[2], b[1], b[2]);
    }
  }

  lemma BlocksUnfold(key: seq<Byte>)
    requires |key| >= 4
    ensures Blocks(key) == [Load(key[..4])] + Blocks(key[4..])
  {}

  lemma {:induction false} BlockAt(key: seq<Byte>, i: nat)
    requires 4 * i + 4 <= |key|
    ensures Blocks(key)[i] == Load(key[4 * i..4 * i + 4])
  {
    hide Load, Blocks;
    BlocksUnfold(key);
    if i > 0 {
      var rest, j := key[4..], i - 1;
      BlockAt(rest, j);
      assert rest[4 * j..4 * j + 4] == key[4 * i..4 * i + 4];
    } else {
      assert key[4 * 0..4 * 0 + 4] == key[..4];
    }
  }

  /** Two keys of one length that differ only within one aligned 4-byte block have different murmur
      hashes, for every seed. */
  lemma BlockTellsApart(s: seq<Byte>, t: seq<Byte>, i: nat, seed: Word)
    requires |s| == |t| && 4 * i + 4 <= |s| && s != t
    requires forall j :: 0 <= j < |s| && !(4 * i <= j < 4 * i + 4) ==> s[j] == t[j]
    ensures Murmur(s, seed) != Murmur(t, seed)
  {
    hide MurmurRound, MurmurFinish, Load, Tail, Fold, Blocks;
    var a, b := Blocks(s), Blocks(t);
    forall k | 0 <= k < |a| ensures k != i ==> a[k] == b[k] {
      BlockAt(s, k);
      BlockAt(t, k);
      if k != i { assert s[4 * k..4 * k + 4] == t[4 * k..4 * k + 4]; }
    }
    BlockAt(s, i);
    BlockAt(t, i);
    if a[i] == b[i] {
      LoadInjective(s[4 * i..4 * i + 4], t[4 * i..4 * i + 4]);
      SameWindow(s, t, 4 * i, 4 * i + 4);
    }
    MurmurCancels();
    FoldTellsApart(MurmurRound, seed, a, b, i);
    assert s[|s| / 4 * 4..] == t[|s| / 4 * 4..];
    var tail := Tail(s[|s| / 4 * 4..]);
    if Murmur(s, seed) == Murmur(t, seed) {
      MurmurFinishInjective(Fold(MurmurRound, seed, a), Fold(MurmurRound, seed, b), tail, tail, |s|);
    }
  }

  lemma SameWindow(s: seq<Byte>, t: seq<Byte>, lo: nat, hi: nat)
    requires |s| == |t| && lo <= hi <= |s| && s[lo..hi] == t[lo..hi]
    requires forall j :: 0 <= j < |s| && !(lo <= j < hi) ==> s[j] == t[j]
    ensures s == t
  {
    assert s == s[..lo] + s[lo..hi] + s[hi..];
    assert t == t[..lo] + t[lo..hi] + t[hi..];
  }

  lemma MurmurCancels()
    ensures Cancels(MurmurRound)
  {
    hide MurmurRound;
    forall g, h, j, k | MurmurRound(g, j) == MurmurRound(h, k) && (g == h || j == k) ensures g == h && j == k {
      MurmurRoundInjective(g, h, j, k);
    }
  }

  /** Two keys of one length that differ only in the 1 to 3 bytes after the last whole block have
      different murmur hashes, for every seed. */
  lemma TailTellsApart(s: seq<Byte>, t: seq<Byte>, seed: Word)
    requires |s| == |t| && s != t && s[..|s| / 4 * 4] == t[..|s| / 4 * 4]
    ensures Murmur(s, seed) != Murmur(t, seed)
  {
    hide MurmurRound, MurmurFinish, Load, Tail, Fold, Blocks;
    var n := |s| / 4 * 4;
    var a, b := Blocks(s), Blocks(t);
    forall k | 0 <= k < |a| ensures a[k] == b[k] {
      BlockAt(s, k);
      BlockAt(t, k);
      assert s[4 * k..4 * k + 4] == s[..n][4 * k..4 * k + 4];
      assert t[4 * k..4 * k + 4] == t[..n][4 * k..4 * k + 4];
    }
    assert a == b;
    if Murmur(s, seed) == Murmur(t, seed) {
      var h := Fold(MurmurRound, seed, a);
      MurmurFinishInjective(h, h, Tail(s[n..]), Tail(t[n..]), |s|);
      TailInjective(s[n..], t[n..]);
      SameParts(s, t, n);
    }
  }

  lemma SameParts(s: seq<Byte>, t: seq<Byte>, n: nat)
    requires n <= |s| && n <= |t| && s[..n] == t[..n] && s[n..] == t[n..]
    ensures s == t
  {
    assert s == s[..n] + s[n..] && t == t[..n] + t[n..];
  }

  /** stress_hash_murmur3_32. */
  method HashMurmur3(key: array<Byte>, len: nat, seed: Word) returns (h: Word)
    requires len <= key.Length
    ensures h == Murmur(key[..len], seed)
  {
    hide Plus, Times, Rotate, Xor32, Shr, Scramble, Load, Tail;
    h := seed;
    var at: nat := 0;
    var i := len / 4;
    while i > 0
      invariant 0 <= i && at + 4 * i == len / 4 * 4
      invariant Fold(MurmurRound, h, Blocks(key[at..len])) == Fold(MurmurRound, seed, Blocks(key[..len]))
    {
      var k := Load(key[at..at + 4]);
      assert key[at..len][..4] == key[at..at + 4] && key[at..len][4..] == key[at + 4..len];
      at := at + 4;
      h := Xor32(h, Scramble(k));
      h := Rotate(h, 13);
      h := Plus(Times(h, 5), 0xe6546b64);
      i := i - 1;
    }
    assert Blocks(key[at..len]) == [];
    assert key[..len][len / 4 * 4..] == key[at..len];
    var tail := TailLoop(key, at, len);
    h := Xor32(h, Scramble(tail));
    h := Xor32(h, len % TWO32);
    h := Xor32(h, Shr(h, 16));
    h := Times(h, 0x85ebca6b);
    h := Xor32(h, Shr(h, 13));
    h := Times(h, 0xc2b2ae35);
    h := Xor32(h, Shr(h, 16));
  }

  /** One byte in front of a tail. */
  lemma TailStep(x: Byte, rest: seq<Byte>)
    requires |rest| <= 2
    ensures Tail([x] + rest) == x + 256 * Tail(rest) < 0x100_0000
  {}

  lemma SliceFront(s: seq<Byte>, i: nat, n: nat)
    requires i < n <= |s|
    ensures s[i..n] == [s[i]] + s[i + 1..n]
  {}

  /** `k <<= 8; k |= x` for a `k` of three digits at most. */
  function ShiftByte(k: Word, x: Byte): Word
  {
    (k * 256) % TWO32 + x
  }

  lemma ShiftByteIs(k: Word, x: Byte)
    requires k < 0x100_0000
    ensures ShiftByte(k, x) == x + 256 * k
  {}

  lemma TailBound(rest: seq<Byte>)
    requires |rest| <= 2
    ensures Tail(rest) < 0x1_0000
  {}

  /** The loop of stress_hash_murmur3_32 over the last `len & 3` bytes. */
  method TailLoop(key: array<Byte>, at: nat, len: nat) returns (k: Word)
    requires at <= len <= key.Length && len - at <= 3
    ensures k == Tail(key[at..len])
  {
    hide Tail, ShiftByte;
    k := 0;
    var i := len - at;
    assert key[len..len] == [];
    EmptyTail();
    while i > 0
      invariant 0 <= i <= len - at
      invariant k == Tail(key[at + i..len])
    {
      SliceFront(key[..], at + i - 1, len);
      ghost var rest := key[at + i..len];
      TailBound(rest);
      TailStep(key[at + i - 1], rest);
      ShiftByteIs(k, key[at + i - 1]);
      k := ShiftByte(k, key[at + i - 1]);
      assert key[at + i - 1..len] == key[..][at + i - 1..len];
      i := i - 1;
    }
  }

  lemma EmptyTail()
    ensures Tail([]) == 0
  {}
}
