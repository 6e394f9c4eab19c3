/** Building file names in bounded buffers: the fallback bodies of strlcpy and strlcat, their
    composition, and the base-36 names of overlong file names. */
module FileNames {
  import opened Hashes
  import opened Numbers
  import opened Words


  /** The character '/'. */
  const SLASH: Byte := 47

  predicate NoNul(s: seq<Byte>)
  {
    forall i :: 0 <= i < |s| ==> s[i] != 0
  }

  /** `*(src + i)` for a terminated string. */
  function CharAt(src: seq<Byte>, i: nat): Byte
  {
    if i < |src| then src[i] else 0
  }

  /** The buffer starts with the terminated string `s`. */
  ghost predicate Holds(dst: array<Byte>, s: seq<Byte>)
    reads dst
  {
    |s| < dst.Length && dst[..|s|] == s && dst[|s|] == 0 && NoNul(s)
  }

  /** The first characters of `s` that fit a buffer of `len` bytes with the terminator. */
  function Cut(s: seq<Byte>, len: nat): (c: seq<Byte>)
    requires len >= 1
    ensures |c| == Min(|s|, len - 1)
  {
    s[..Min(|s|, len - 1)]
  }

  // ---- strlcpy

  /** What shim_strlcpy returns for a source of `n` characters. */
  function StrlcpyResult(n: nat, len: nat): nat
  {
    if n + 1 < len then n else (n + TWO64 - 1) % TWO64
  }

  /** The result is the length of the source, as strlcpy promises, exactly if the source leaves at
      least one byte of the buffer unused; otherwise it is one less, in 64 bits. */
  lemma StrlcpyPromise(n: nat, len: nat)
    requires n < TWO64
    ensures StrlcpyResult(n, len) == n <==> n + 1 < len
    ensures n + 1 >= len ==> (StrlcpyResult(n, len) + 1) % TWO64 == n && StrlcpyResult(n, len) < TWO64
  {}

  /** shim_strlcpy, fallback body. */
  method Strlcpy(dst: array<Byte>, src: seq<Byte>, len: nat) returns (r: nat)
    requires len <= dst.Length && NoNul(src) && |src| < TWO64
    modifies dst
    ensures len > 0 ==> Holds(dst, Cut(src, len))
    ensures forall i :: 0 <= i < dst.Length && (len == 0 || i > |Cut(src, len)|) ==> dst[i] == old(dst[i])
    ensures r == StrlcpyResult(|src|, len)
  {
    var d, s, n := 0, 0, len;
    if n != 0 {
      n := n - 1;
      while n != 0
        invariant 0 <= n && s == d && s + n == len - 1 && s <= |src|
        invariant dst[..d] == src[..d]
        invariant forall i :: d <= i < dst.Length ==> dst[i] == old(dst[i])
      {
        var c := CharAt(src, s);
        s := s + 1;
        dst[d] := c;
        d := d + 1;
        if c == 0 {
          assert dst[..|src|] == src;
          break;
        }
        n := n - 1;
      }
    }
    if n == 0 {
      if len != 0 {
        dst[d] := 0;
        assert dst[..d] == src[..d];
      }
      while CharAt(src, s) != 0
        invariant s <= |src|
        decreases |src| - s
      {
        s := s + 1;
      }
    }
    r := (s + TWO64 - 1) % TWO64;
  }

  // ---- strlcat

  /** The characters before the first NUL. */
  function Prefix(s: seq<Byte>): (p: seq<Byte>)
    ensures |p| <= |s| && p == s[..|p|] && NoNul(p) && (|p| < |s| ==> s[|p|] == 0)
  {
    if s == [] || s[0] == 0 then [] else [s[0]] + Prefix(s[1..])
  }

  lemma {:induction false} PrefixIs(s: seq<Byte>, k: nat)
    requires k <= |s| && NoNul(s[..k]) && (k < |s| ==> s[k] == 0)
    ensures Prefix(s) == s[..k]
  {
    if k > 0 {
      assert s[0] == s[..k][0];
      assert s[1..][..k - 1] == s[..k][1..];
      PrefixIs(s[1..], k - 1);
    }
  }

  /** shim_strlcat, fallback body: appends what fits; a destination that is not terminated within
      `len` bytes is left alone.  The result is the length of the untruncated concatenation. */
  method Strlcat(dst: array<Byte>, src: seq<Byte>, len: nat) returns (r: nat)
    requires len <= dst.Length < TWO64 && NoNul(src)
    modifies dst
    ensures var p := old(Prefix(dst[..len]));
            && r == |p| + |src|
            && (|p| < len ==> Holds(dst, Cut(p + src, len)))
            && (|p| == len ==> dst[..] == old(dst[..]))
            && forall i :: 0 <= i < dst.Length && (i >= len || i < |p|) ==> dst[i] == old(dst[i])
  {
    var d, n := 0, len;
    while n != 0 && dst[d] != 0
      invariant 0 <= d && 0 <= n && d + n == len && dst[..] == old(dst[..])
      invariant NoNul(dst[..d])
      decreases n
    {
      d := d + 1;
      n := n - 1;
    }
    var tmplen := d;
    PrefixIs(dst[..len], d);
    assert dst[..len][..d] == dst[..d];
    ghost var p := dst[..d];
    n := len - tmplen;
    if n == 0 {
      return |src| + tmplen;
    }
    var s := 0;
    while CharAt(src, s) != 0
      invariant s <= |src| && 1 <= n && d + n == len && d == Min(tmplen + s, len - 1)
      invariant dst[..d] == (p + src)[..d]
      invariant forall i :: 0 <= i < dst.Length && (i >= len || i < tmplen) ==> dst[i] == old(dst[i])
      decreases |src| - s
    {
      if n != 1 {
        dst[d] := src[s];
        assert (p + src)[d] == src[s];
        d := d + 1;
        n := n - 1;
      }
      s := s + 1;
    }
    dst[d] := 0;
    assert dst[..d] == (p + src)[..d];
    return s + tmplen;
  }

  // ---- mk_filename

  /** stress_mk_filename: one clean truncation of path, slash and file name. */
  method MkFilename(fullname: array<Byte>, len: nat, path: seq<Byte>, filename: seq<Byte>) returns (r: nat)
    requires len <= fullname.Length < TWO64 && NoNul(path) && NoNul(filename) && |path| < TWO64
    modifies fullname
    ensures len >= 1 ==> Holds(fullname, Cut(path + [SLASH] + filename, len))
    ensures len >= 1 ==> r == MkResult(|path|, |filename|, len)
    ensures len == 0 ==> r == |filename|
    ensures forall i :: len <= i < fullname.Length ==> fullname[i] == old(fullname[i])
  {
    var r0 := Strlcpy(fullname, path, len);
    if len > 0 { HeldPrefix(fullname, Cut(path, len), len); }
    var r1 := Strlcat(fullname, [SLASH], len);
    if len > 0 {
      CutAgain(path, [SLASH], len);
      HeldPrefix(fullname, Cut(path + [SLASH], len), len);
    }
    r := Strlcat(fullname, filename, len);
    if len > 0 { CutAgain(path + [SLASH], filename, len); }
  }

  function MkResult(path: nat, filename: nat, len: nat): nat
    requires len >= 1
  {
    Min(path + 1, len - 1) + filename
  }

  lemma HeldPrefix(dst: array<Byte>, s: seq<Byte>, len: nat)
    requires Holds(dst, s) && |s| < len <= dst.Length
    ensures Prefix(dst[..len]) == s
  {
    assert dst[..len][..|s|] == s;
    PrefixIs(dst[..len], |s|);
  }

  lemma CutAgain(s: seq<Byte>, t: seq<Byte>, len: nat)
    requires len >= 1
    ensures Cut(Cut(s, len) + t, len) == Cut(s + t, len)
  {}

  /** The result is below the buffer length exactly if nothing was cut off, or the file name is empty:
      an empty name hides a cut of the path and the slash. */
  lemma MkPromise(path: nat, filename: nat, len: nat)
    requires len >= 1
    ensures MkResult(path, filename, len) < len <==> path + 1 + filename < len || filename == 0
    ensures MkResult(path, filename, len) == path + 1 + filename <==> path + 1 < len
    ensures path + 1 >= len ==> MkResult(path, filename, len) == len - 1 + filename
  {}

  // ---- base 36

  /** "abcdefghijklmnopqrstuvwxyz0123456789". */
  const B36: seq<Byte> :=
    [97, 98, 99, 100, 101, 102, 103, 104, 105, 106, 107, 108, 109, 110, 111, 112, 113, 114, 115, 116, 117, 118,
     119, 120, 121, 122, 48, 49, 50, 51, 52, 53, 54, 55, 56, 57]

  /** The digits are these characters. */
  lemma DigitsSpelled(i: nat)
    requires i < 36
    ensures B36[i] == "abcdefghijklmnopqrstuvwxyz0123456789"[i] as int
  {}

  function Encode(val: nat): seq<Byte>
  {
    if val == 0 then [] else [B36[val % 36]] + Encode(val / 36)
  }

  function DigitOf(c: Byte): nat
  {
    if c >= 97 then c - 97 else if c >= 48 then c - 48 + 26 else 0
  }

  /** Little-endian base 36. */
  function Decode(s: seq<Byte>): nat
  {
    if s == [] then 0 else DigitOf(s[0]) + 36 * Decode(s[1..])
  }

  lemma DigitRoundTrip(d: nat)
    requires d < 36
    ensures DigitOf(B36[d]) == d && B36[d] != 0
  {}

  lemma {:induction false} EncodeRoundTrip(val: nat)
    ensures Decode(Encode(val)) == val && NoNul(Encode(val))
  {
    if val > 0 {
      DigitRoundTrip(val % 36);
      EncodeRoundTrip(val / 36);
      assert Encode(val)[1..] == Encode(val / 36);
    }
  }

  /** Distinct values get distinct names. */
  lemma EncodeInjective(v: nat, w: nat)
    requires Encode(v) == Encode(w)
    ensures v == w
  {
    EncodeRoundTrip(v);
    EncodeRoundTrip(w);
  }

  function Power36(n: nat): nat
  {
    if n == 0 then 1 else 36 * Power36(n - 1)
  }

  lemma {:induction false} EncodeLength(val: nat, n: nat)
    requires val < Power36(n)
    ensures |Encode(val)| <= n
    decreases n
  {
    if val > 0 { EncodeLength(val / 36, n - 1); }
  }

  /** Thirteen digits are enough for 64 bits. */
  lemma ThirteenDigits(val: nat)
    requires val < TWO64
    ensures |Encode(val)| <= 13
  {
    assert Power36(4) == 1679616;
    assert Power36(8) == 2821109907456;
    assert Power36(12) == 4738381338321616896;
    EncodeLength(val, 13);
  }

  /** stress_base36_encode_uint64. */
  method Base36Encode(dst: array<Byte>, val: nat)
    requires dst.Length >= 14 && val < TWO64
    modifies dst
    ensures Holds(dst, Encode(val)) && |Encode(val)| <= 13
    ensures forall i :: 14 <= i < dst.Length ==> dst[i] == old(dst[i])
  {
    hide Encode, Decode;
    ThirteenDigits(val);
    EncodeRoundTrip(val);
    var v, ptr := val, 0;
    while v != 0
      invariant 0 <= v && ptr + |Encode(v)| == |Encode(val)|
      invariant dst[..ptr] + Encode(v) == Encode(val)
      invariant forall i :: 14 <= i < dst.Length ==> dst[i] == old(dst[i])
      decreases v
    {
      EncodeIs(v);
      ghost var before, digit := dst[..ptr], B36[v % 36];
      dst[ptr] := B36[v % 36];
      v := v / 36;
      ptr := ptr + 1;
      assert dst[..ptr] == before + [digit];
      Shift(before, digit, Encode(v));
    }
    EncodeIs(0);
    dst[ptr] := 0;
    assert dst[..ptr] == Encode(val);
  }

  lemma EncodeIs(val: nat)
    ensures Encode(val) == if val == 0 then [] else [B36[val % 36]] + Encode(val / 36)
  {}

  lemma Shift(a: seq<Byte>, x: Byte, b: seq<Byte>)
    ensures a + ([x] + b) == (a + [x]) + b
  {}

  // ---- overlong names

  /** The 64-bit hash of a name: jenkin above pjw. */
  function NameHash(s: seq<Byte>, signed: bool): nat
  {
    Jenkin(s) * TWO32 + Pjw(s, signed)
  }

  /** The jenkin hash is the upper half, and the pjw hash, of 28 bits at most, the lower one. */
  lemma NameHashHalves(s: seq<Byte>, signed: bool)
    ensures NameHash(s, signed) / TWO32 == Jenkin(s)
    ensures NameHash(s, signed) % TWO32 == Pjw(s, signed) < 0x1000_0000
  {
    hide Jenkin, Pjw;
    PjwBound(s, signed);
    RemainderIs(NameHash(s, signed), TWO32, Jenkin(s), Pjw(s, signed));
  }

  /** stress_temp_hash_truncate: a name longer than the file system allows is replaced by the base-36
      form of its hash. */
  method TempHashTruncate(filename: array<Byte>, namemax: nat, signed: bool, ghost s: seq<Byte>)
    requires Holds(filename, s) && filename.Length >= 14
    modifies filename
    ensures Holds(filename, if |s| > namemax then Encode(NameHash(s, signed)) else s)
  {
    hide Encode, Jenkin, Pjw;
    HeldIsCString(filename, s);
    var len := 0;
    while filename[len] != 0
      invariant len <= |s|
      decreases |s| - len
    {
      len := len + 1;
    }
    if len > namemax {
      var upper := HashJenkin(filename, len);
      var lower := HashPjw(filename, signed, len);
      HashFits(upper, lower);
      Base36Encode(filename, upper * TWO32 + lower);
    }
  }

  lemma HeldIsCString(dst: array<Byte>, s: seq<Byte>)
    requires Holds(dst, s)
    ensures CString(dst, |s|) && dst[..|s|] == s
  {
    assert forall i :: 0 <= i < |s| ==> dst[i] == s[i];
  }

  lemma HashFits(upper: Word, lower: Word)
    ensures upper * TWO32 + lower < TWO64
  {}

  /** Two overlong names of one length that differ in a single character stay different. */
  lemma TruncationTellsApart(s: seq<Byte>, t: seq<Byte>, i: nat, signed: bool)
    requires |s| == |t| && i < |s| && s[i] != t[i]
    requires forall j :: 0 <= j < |s| && j != i ==> s[j] == t[j]
    ensures Encode(NameHash(s, signed)) != Encode(NameHash(t, signed))
  {
    hide Jenkin, Pjw, Encode;
    OneByteTellsApart(s, t, i, signed);
    if Encode(NameHash(s, signed)) == Encode(NameHash(t, signed)) {
      EncodeInjective(NameHash(s, signed), NameHash(t, signed));
      UpperHalf(Jenkin(s), Pjw(s, signed), Jenkin(t), Pjw(t, signed));
    }
  }

  lemma UpperHalf(a: Word, b: Word, c: Word, d: Word)
    requires a * TWO32 + b == c * TWO32 + d
    ensures a == c
  {}
}
