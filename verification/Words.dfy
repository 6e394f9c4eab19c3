/** 32-bit words as natural numbers below 2^32, with the C bit operators defined on their
    binary digits.  `Bit(x, i)` is digit `i` of `x`; every operator is characterised by the
    digits of its result, and `WordExt` says that the digits determine the word. */
module Words {
  import opened Numbers

  const TWO32 := 0x1_0000_0000
  const TWO64 := 0x1_0000_0000_0000_0000

  type Byte = x: nat | x < 256

  /** An unsigned 32-bit word. */
  type Word = x: nat | x < 0x1_0000_0000

  function Pow2(k: nat): (p: nat)
    ensures p > 0
  {
    if k == 0 then 1 else 2 * Pow2(k - 1)
  }

  predicate Bit(x: nat, i: nat)
  {
    if i == 0 then x % 2 == 1 else Bit(x / 2, i - 1)
  }

  function And(x: nat, y: nat): nat
  {
    if x == 0 || y == 0 then 0 else (if x % 2 == 1 && y % 2 == 1 then 1 else 0) + 2 * And(x / 2, y / 2)
  }

  function Or(x: nat, y: nat): nat
  {
    if x == 0 then y
    else if y == 0 then x
    else (if x % 2 == 1 then 1 else y % 2) + 2 * Or(x / 2, y / 2)
  }

  function Xor(x: nat, y: nat): nat
  {
    if x == 0 then y
    else if y == 0 then x
    else (if x % 2 == y % 2 then 0 else 1) + 2 * Xor(x / 2, y / 2)
  }

  /** The digits of a word are those of the number below its width: `~x`. */
  function Not(x: nat): nat
    requires x < TWO32
  {
    TWO32 - 1 - x
  }

  /** Unsigned negation `-x`, modulo 2^32. */
  function Neg(x: nat): nat
    requires x < TWO32
  {
    (TWO32 - x) % TWO32
  }

  /** `x << 1`, the top digit is lost. */
  function Shl1(x: nat): nat
  {
    (2 * x) % TWO32
  }

  /** `x >> 1`. */
  function Shr1(x: nat): nat
  {
    x / 2
  }

  lemma Pow2Of32()
    ensures Pow2(32) == TWO32
  {
    assert Pow2(8) == 256;
    assert Pow2(16) == 0x1_0000;
    assert Pow2(24) == 0x100_0000;
  }

  lemma {:induction false} Pow2Monotone(i: nat, j: nat)
    requires i < j
    ensures Pow2(i) < Pow2(j)
  {
    if i + 1 < j { Pow2Monotone(i, j - 1); }
  }

  lemma {:induction false} ZeroBits(i: nat)
    ensures !Bit(0, i)
  {
    if i > 0 { ZeroBits(i - 1); }
  }

  lemma {:induction false} BitAnd(x: nat, y: nat, i: nat)
    ensures Bit(And(x, y), i) <==> Bit(x, i) && Bit(y, i)
  {
    if x == 0 || y == 0 {
      ZeroBits(i);
    } else if i > 0 {
      assert And(x, y) / 2 == And(x / 2, y / 2);
      BitAnd(x / 2, y / 2, i - 1);
    }
  }

  lemma {:induction false} BitOr(x: nat, y: nat, i: nat)
    ensures Bit(Or(x, y), i) <==> Bit(x, i) || Bit(y, i)
  {
    if x == 0 || y == 0 {
      ZeroBits(i);
    } else if i > 0 {
      assert Or(x, y) / 2 == Or(x / 2, y / 2);
      BitOr(x / 2, y / 2, i - 1);
    }
  }

  lemma {:induction false} BitXor(x: nat, y: nat, i: nat)
    ensures Bit(Xor(x, y), i) <==> (Bit(x, i) <==> !Bit(y, i))
  {
    if x == 0 || y == 0 {
      ZeroBits(i);
    } else if i > 0 {
      assert Xor(x, y) / 2 == Xor(x / 2, y / 2);
      BitXor(x / 2, y / 2, i - 1);
    }
  }

  lemma {:induction false} XorBound(x: nat, y: nat, w: nat)
    requires x < Pow2(w) && y < Pow2(w)
    ensures Xor(x, y) < Pow2(w)
  {
    if x != 0 && y != 0 { XorBound(x / 2, y / 2, w - 1); }
  }

  lemma {:induction false} AndBound(x: nat, y: nat)
    ensures And(x, y) <= x && And(x, y) <= y
  {
    if x != 0 && y != 0 { AndBound(x / 2, y / 2); }
  }

  lemma {:induction false} OrBound(x: nat, y: nat, w: nat)
    requires x < Pow2(w) && y < Pow2(w)
    ensures Or(x, y) < Pow2(w)
  {
    if x != 0 && y != 0 { OrBound(x / 2, y / 2, w - 1); }
  }

  /** The digits at or above the width of a number are zero. */
  lemma {:induction false} HighBits(x: nat, w: nat, i: nat)
    requires x < Pow2(w) && w <= i
    ensures !Bit(x, i)
  {
    if w == 0 { ZeroBits(i); } else { HighBits(x / 2, w - 1, i - 1); }
  }

  lemma {:induction false} ComplementBits(x: nat, w: nat, i: nat)
    requires x < Pow2(w) && i < w
    ensures Bit(Pow2(w) - 1 - x, i) <==> !Bit(x, i)
  {
    if i > 0 {
      assert (Pow2(w) - 1 - x) / 2 == Pow2(w - 1) - 1 - x / 2;
      ComplementBits(x / 2, w - 1, i - 1);
    }
  }

  lemma BitNot(x: nat, i: nat)
    requires x < TWO32 && i < 32
    ensures Bit(Not(x), i) <==> !Bit(x, i)
  {
    Pow2Of32();
    ComplementBits(x, 32, i);
  }

  lemma {:induction false} LowBits(x: nat, w: nat, i: nat)
    requires i < w
    ensures Bit(x % Pow2(w), i) <==> Bit(x, i)
  {
    HalfModulo(x, Pow2(w - 1));
    if i > 0 { LowBits(x / 2, w - 1, i - 1); }
  }

  lemma HalfModulo(x: nat, p: nat)
    requires p > 0
    ensures (x % (2 * p)) / 2 == (x / 2) % p && (x % (2 * p)) % 2 == x % 2
  {
    var q, r := (x / 2) / p, (x / 2) % p;
    assert x == (2 * p) * q + (2 * r + x % 2) by { assert x / 2 == p * q + r; }
    RemainderIs(x, 2 * p, q, 2 * r + x % 2);
  }

  lemma BitShl(x: nat, i: nat)
    requires i < 32
    ensures Bit(Shl1(x), i) <==> i > 0 && Bit(x, i - 1)
  {
    Pow2Of32();
    LowBits(2 * x, 32, i);
  }

  lemma {:induction false} WordExt(x: nat, y: nat, w: nat)
    requires x < Pow2(w) && y < Pow2(w)
    requires forall i :: 0 <= i < w ==> (Bit(x, i) <==> Bit(y, i))
    ensures x == y
  {
    if w > 0 {
      assert Bit(x, 0) <==> Bit(y, 0);
      forall i | 0 <= i < w - 1 ensures Bit(x / 2, i) <==> Bit(y / 2, i) {
        assert Bit(x, i + 1) <==> Bit(y, i + 1);
      }
      WordExt(x / 2, y / 2, w - 1);
    }
  }

  lemma {:induction false} Pow2Bits(k: nat, i: nat)
    ensures Bit(Pow2(k), i) <==> i == k
  {
    if k > 0 && i > 0 { Pow2Bits(k - 1, i - 1); }
    else if k == 0 && i > 0 { ZeroBits(i - 1); }
  }

  /** `Pow2(w) - 1` has exactly the digits below `w`. */
  lemma {:induction false} OnesBits(w: nat, i: nat)
    ensures Bit(Pow2(w) - 1, i) <==> i < w
  {
    if w == 0 { ZeroBits(i); }
    else if i > 0 {
      assert (Pow2(w) - 1) / 2 == Pow2(w - 1) - 1;
      OnesBits(w - 1, i - 1);
    }
  }

  /** Subtracting a power of two whose digit is set clears that digit and no other. */
  lemma {:induction false} ClearBySubtraction(x: nat, k: nat, i: nat)
    requires Bit(x, k)
    ensures Pow2(k) <= x && (Bit(x - Pow2(k), i) <==> Bit(x, i) && i != k)
  {
    if k > 0 {
      ClearBySubtraction(x / 2, k - 1, if i > 0 then i - 1 else 0);
      assert (x - Pow2(k)) / 2 == x / 2 - Pow2(k - 1);
    } else if i > 0 {
      assert (x - 1) / 2 == x / 2;
    }
  }

  lemma {:induction false} ComplementDisjoint(x: nat, w: nat)
    requires x < Pow2(w)
    ensures And(x, Pow2(w) - 1 - x) == 0
  {
    if w > 0 && x != 0 && Pow2(w) - 1 - x != 0 {
      assert (Pow2(w) - 1 - x) / 2 == Pow2(w - 1) - 1 - x / 2;
      ComplementDisjoint(x / 2, w - 1);
    }
  }

  lemma {:induction false} IsolateLowest(x: nat, w: nat) returns (k: nat)
    requires 0 < x < Pow2(w)
    ensures k < w && And(x, Pow2(w) - x) == Pow2(k) && Bit(x, k)
  {
    if x % 2 == 1 {
      k := 0;
      assert (Pow2(w) - x) / 2 == Pow2(w - 1) - 1 - x / 2;
      ComplementDisjoint(x / 2, w - 1);
    } else {
      assert (Pow2(w) - x) / 2 == Pow2(w - 1) - x / 2;
      k := IsolateLowest(x / 2, w - 1);
      k := k + 1;
    }
  }

  /** The C idiom `x & -x` is a single set digit of `x`. */
  lemma LowestBit(x: nat) returns (k: nat)
    requires 0 < x < TWO32
    ensures k < 32 && And(x, Neg(x)) == Pow2(k) && Bit(x, k)
  {
    Pow2Of32();
    k := IsolateLowest(x, 32);
  }

  /** `x & (1 << k)` tests digit `k`. */
  lemma {:induction false} TestBit(x: nat, k: nat)
    ensures And(x, Pow2(k)) != 0 <==> Bit(x, k)
  {
    if x == 0 {
      ZeroBits(k);
    } else if k > 0 {
      TestBit(x / 2, k - 1);
    } else if x % 2 == 0 {
      assert And(x / 2, 0) == 0;
    }
  }

  lemma Pow2Word(k: nat)
    requires k < 32
    ensures Pow2(k) < TWO32
  {
    Pow2Of32();
    Pow2Monotone(k, 32);
  }

  /** `x & ~(1 << k)` clears digit `k` and no other. */
  lemma ClearBit(x: Word, k: nat, i: nat)
    requires k < 32 && i < 32
    ensures Pow2(k) < TWO32
    ensures And(x, Not(Pow2(k))) < TWO32
    ensures Bit(And(x, Not(Pow2(k))), i) <==> Bit(x, i) && i != k
  {
    Pow2Word(k);
    AndBound(x, Not(Pow2(k)));
    BitAnd(x, Not(Pow2(k)), i);
    BitNot(Pow2(k), i);
    Pow2Bits(k, i);
  }

  // ---- injective operations on words

  /** Unsigned addition. */
  function Plus(x: Word, y: Word): Word
  {
    (x + y) % TWO32
  }

  /** Unsigned multiplication by a constant. */
  function Times(x: Word, c: nat): Word
  {
    (x * c) % TWO32
  }

  function Xor32(x: Word, y: Word): Word
  {
    Pow2Of32();
    XorBound(x, y, 32);
    Xor(x, y)
  }

  /** `x >> k`. */
  function Shr(x: nat, k: nat): (y: nat)
    ensures y <= x
    decreases k
  {
    if k == 0 then x else Shr(x / 2, k - 1)
  }

  /** `x << k`. */
  function Shl(x: Word, k: nat): Word
  {
    (x * Pow2(k)) % TWO32
  }

  /** `(x << k) | (x >> (32 - k))`. */
  function Rotate(x: Word, k: nat): Word
    requires k <= 32
  {
    Pow2Of32();
    OrBound(Shl(x, k), Shr(x, 32 - k), 32);
    Or(Shl(x, k), Shr(x, 32 - k))
  }

  lemma {:induction false} BitShrBy(x: nat, k: nat, i: nat)
    ensures Bit(Shr(x, k), i) <==> Bit(x, i + k)
    decreases k
  {
    if k > 0 { BitShrBy(x / 2, k - 1, i); }
  }

  lemma {:induction false} BitScaled(x: nat, k: nat, i: nat)
    ensures Bit(x * Pow2(k), i) <==> i >= k && Bit(x, i - k)
    decreases k
  {
    if k > 0 {
      var y := x * Pow2(k - 1);
      assert x * Pow2(k) == 2 * y by { Reassociate(2, x, Pow2(k - 1)); Reassociate(x, 2, Pow2(k - 1)); }
      assert (2 * y) / 2 == y && (2 * y) % 2 == 0;
      if i > 0 { BitScaled(x, k - 1, i - 1); }
    }
  }

  lemma BitShlBy(x: Word, k: nat, i: nat)
    requires i < 32
    ensures Bit(Shl(x, k), i) <==> i >= k && Bit(x, i - k)
  {
    Pow2Of32();
    LowBits(x * Pow2(k), 32, i);
    BitScaled(x, k, i);
  }

  lemma BitRotate(x: Word, k: nat, i: nat)
    requires k <= 32 && i < 32
    ensures Bit(Rotate(x, k), i) <==> if i >= k then Bit(x, i - k) else Bit(x, i + 32 - k)
  {
    BitOr(Shl(x, k), Shr(x, 32 - k), i);
    BitShlBy(x, k, i);
    BitShrBy(x, 32 - k, i);
    Pow2Of32();
    if i >= k { HighBits(x, 32, i + (32 - k)); }
  }

  lemma RotateInjective(x: Word, y: Word, k: nat)
    requires k <= 32 && Rotate(x, k) == Rotate(y, k)
    ensures x == y
  {
    hide Rotate;
    forall i | 0 <= i < 32 ensures Bit(x, i) <==> Bit(y, i) {
      var j := if i + k < 32 then i + k else i + k - 32;
      BitRotate(x, k, j);
      BitRotate(y, k, j);
    }
    Pow2Of32();
    WordExt(x, y, 32);
  }

  lemma XorInjective(x: Word, y: Word, c: Word)
    requires Xor32(x, c) == Xor32(y, c) || Xor32(c, x) == Xor32(c, y)
    ensures x == y
  {
    forall i | 0 <= i < 32 ensures Bit(x, i) <==> Bit(y, i) {
      BitXor(x, c, i);
      BitXor(y, c, i);
      BitXor(c, x, i);
      BitXor(c, y, i);
    }
    Pow2Of32();
    WordExt(x, y, 32);
  }

  /** `x ^ (x >> k)` keeps the top digits, from which the others follow downwards. */
  lemma {:induction false} XorShiftBit(x: Word, y: Word, k: nat, i: nat)
    requires k > 0 && Xor32(x, Shr(x, k)) == Xor32(y, Shr(y, k))
    ensures Bit(x, i) <==> Bit(y, i)
    decreases 32 - i
  {
    Pow2Of32();
    if i >= 32 {
      HighBits(x, 32, i);
      HighBits(y, 32, i);
    } else {
      XorShiftBit(x, y, k, i + k);
      BitXor(x, Shr(x, k), i);
      BitXor(y, Shr(y, k), i);
      BitShrBy(x, k, i);
      BitShrBy(y, k, i);
    }
  }

  lemma XorShiftInjective(x: Word, y: Word, k: nat)
    requires k > 0 && Xor32(x, Shr(x, k)) == Xor32(y, Shr(y, k))
    ensures x == y
  {
    forall i | 0 <= i < 32 ensures Bit(x, i) <==> Bit(y, i) { XorShiftBit(x, y, k, i); }
    Pow2Of32();
    WordExt(x, y, 32);
  }

  lemma PlusInjective(x: Word, y: Word, c: Word)
    requires Plus(x, c) == Plus(y, c) || Plus(c, x) == Plus(c, y)
    ensures x == y
  {}

  lemma OddTimes(d: int, c: int, u: int)
    requires c % 2 == 1 && d * c == 2 * u
    ensures d % 2 == 0 && (d / 2) * c == u
  {
    var f := c / 2;
    assert c == 2 * f + 1;
    Distribute(d, 2 * f, 1);
    Reassociate(d, 2, f);
    Reassociate(2, d, f);
    assert d == 2 * (u - d * f);
    Reassociate(2, d / 2, c);
  }

  /** An odd factor can be cancelled modulo a power of two. */
  lemma {:induction false} CancelOdd(d: int, c: int, k: nat, q: int) returns (r: int)
    requires c % 2 == 1 && d * c == Pow2(k) * q
    ensures d == Pow2(k) * r
    decreases k
  {
    if k == 0 {
      r := d;
    } else {
      var p := Pow2(k - 1);
      Reassociate(2, p, q);
      OddTimes(d, c, p * q);
      r := CancelOdd(d / 2, c, k - 1, q);
      Reassociate(2, p, r);
    }
  }

  lemma SameRemainder(u: int, v: int)
    requires u % TWO32 == v % TWO32
    ensures u - v == TWO32 * (u / TWO32 - v / TWO32)
  {}

  lemma CancelOdd32(d: int, c: int, q: int) returns (r: int)
    requires c % 2 == 1 && d * c == TWO32 * q
    ensures d == TWO32 * r
  {
    hide Pow2;
    Pow2Of32();
    r := CancelOdd(d, c, 32, q);
  }

  lemma TimesInjective(x: Word, y: Word, c: nat)
    requires c % 2 == 1 && Times(x, c) == Times(y, c)
    ensures x == y
  {
    var u, v := x * c, y * c;
    assert u % TWO32 == v % TWO32;
    SameRemainder(u, v);
    var a: int, b: int := x, y;
    Distribute(c, a, -b);
    var r := CancelOdd32(a - b, c, u / TWO32 - v / TWO32);
  }
}
