/** The IPv4 checksum: a 32-bit sum folded twice equals the one's complement sum of RFC 1071. */
module Checksum {
  import opened Numbers
  import opened Words

  type Short = x: nat | x < 65536

  // ---- the data as 16-bit words

  /** Little-endian 16-bit words; a last odd byte counts as the low byte of a word. */
  function WordsOf(data: seq<Byte>): (ws: seq<Short>)
    ensures |ws| == (|data| + 1) / 2
  {
    if |data| == 0 then []
    else if |data| == 1 then [data[0]]
    else [Pair(data[0], data[1])] + WordsOf(data[2..])
  }

  function Pair(low: nat, high: nat): nat
  {
    low + 256 * high
  }

  function Sum(ws: seq<Short>): nat
  {
    if ws == [] then 0 else ws[0] + Sum(ws[1..])
  }

  // ---- one's complement addition

  /** Addition with end-around carry, section 2 of RFC 1071. */
  function OnesAdd(x: Short, y: Short): Short
  {
    if x + y < 65536 then x + y else x + y - 65535
  }

  function OnesSum(ws: seq<Short>): Short
  {
    if ws == [] then 0 else OnesAdd(ws[0], OnesSum(ws[1..]))
  }

  /** The Internet checksum: the complement of the one's complement sum, section 1 of RFC 1071. */
  function InternetChecksum(ws: seq<Short>): Short
  {
    65535 - OnesSum(ws)
  }

  /** What stress_ipv4_checksum computes: a 32-bit sum, two folds, and the complement. */
  function FoldedChecksum(ws: seq<Short>): Short
  {
    Fold(Sum(ws) % TWO32)
  }

  /** The two folds and the complement. */
  function Fold(sum: Word): Short
  {
    var once := sum / 65536 + sum % 65536;
    var twice := once + once / 65536;
    65535 - twice % 65536
  }

  /** stress_ipv4_checksum of `sz` bytes. */
  method Ipv4Checksum(data: array<Byte>, sz: nat) returns (r: Short)
    requires sz <= data.Length
    ensures r == FoldedChecksum(WordsOf(data[..sz]))
    ensures sz <= 131074 ==> r == InternetChecksum(WordsOf(data[..sz]))
  {
    hide Pair, Sum, WordsOf, Fold;
    var sum, n, at := 0, sz, 0;
    while n > 1
      invariant 0 <= at && at + n == sz && 0 <= sum < TWO32
      invariant (sum + Sum(WordsOf(data[at..sz]))) % TWO32 == Sum(WordsOf(data[..sz])) % TWO32
    {
      ghost var rest := data[at..sz];
      assert rest[2..] == data[at + 2..sz];
      FirstWord(rest);
      AddWord(sum, Pair(data[at], data[at + 1]), Sum(WordsOf(rest[2..])), Sum(WordsOf(data[..sz])));
      sum := (sum + Pair(data[at], data[at + 1])) % TWO32;
      at := at + 2;
      n := n - 2;
    }
    LastWord(data[at..sz]);
    if n != 0 {
      AddWord(sum, data[at], 0, Sum(WordsOf(data[..sz])));
      sum := (sum + data[at]) % TWO32;
    }
    assert sum == Sum(WordsOf(data[..sz])) % TWO32 by { SmallModulo(sum); }
    ghost var total := sum;
    sum := sum / 65536 + sum % 65536;
    sum := sum + sum / 65536;
    r := 65535 - sum % 65536;
    FoldSteps(total, r);
    if sz <= 131074 { FoldingIsExact(WordsOf(data[..sz])); }
  }

  lemma FirstWord(rest: seq<Byte>)
    requires |rest| >= 2
    ensures Sum(WordsOf(rest)) == Pair(rest[0], rest[1]) + Sum(WordsOf(rest[2..]))
  {}

  lemma LastWord(rest: seq<Byte>)
    requires |rest| < 2
    ensures Sum(WordsOf(rest)) == if rest == [] then 0 else rest[0]
  {}

  lemma AddWord(sum: nat, x: nat, rest: nat, total: nat)
    requires (sum + (x + rest)) % TWO32 == total % TWO32
    ensures ((sum + x) % TWO32 + rest) % TWO32 == total % TWO32
  {
    ReduceLeft(sum + x, rest);
  }

  lemma FoldSteps(sum: Word, r: nat)
    requires var once := sum / 65536 + sum % 65536; r == 65535 - (once + once / 65536) % 65536
    ensures r == Fold(sum)
  {}

  lemma ReduceLeft(u: int, v: int)
    ensures (u % TWO32 + v) % TWO32 == (u + v) % TWO32
  {
    AddMultiple(u + v, TWO32, -(u / TWO32));
  }

  // ---- representatives modulo 65535

  /** The one's complement representative of a sum: 0 for 0, and otherwise in 1..65535. */
  function Representative(s: nat): (v: Short)
  {
    if s == 0 then 0 else (s - 1) % 65535 + 1
  }

  lemma RepresentativeIs(s: nat, v: nat, q: int)
    requires 0 < v <= 65535 && s == v + 65535 * q && s > 0
    ensures Representative(s) == v
  {
    RemainderIs(s - 1, 65535, q, v - 1);
  }

  lemma RepresentativeOf(s: nat) returns (q: nat)
    ensures s == Representative(s) + 65535 * q
    ensures s > 0 ==> Representative(s) > 0
  {
    q := if s == 0 then 0 else (s - 1) / 65535;
  }

  lemma AddToRepresentative(x: Short, s: nat)
    ensures OnesAdd(x, Representative(s)) == Representative(x + s)
  {
    var q := RepresentativeOf(s);
    var v := OnesAdd(x, Representative(s));
    if x + s > 0 { RepresentativeIs(x + s, v, if x + Representative(s) < 65536 then q else q + 1); }
  }

  /** One's complement addition adds modulo 65535. */
  lemma {:induction false} OnesSumIsSum(ws: seq<Short>)
    ensures OnesSum(ws) == Representative(Sum(ws))
  {
    if ws != [] {
      OnesSumIsSum(ws[1..]);
      AddToRepresentative(ws[0], Sum(ws[1..]));
    }
  }

  /** Two folds of a 32-bit sum give its representative. */
  lemma TwoFolds(sum: Word)
    ensures var once := sum / 65536 + sum % 65536;
            (once + once / 65536) % 65536 == Representative(sum)
  {
    var h := sum / 65536;
    var once := h + sum % 65536;
    assert sum == once + 65535 * h;
    if sum > 0 {
      if once < 65536 {
        RepresentativeIs(sum, once, h);
      } else {
        RepresentativeIs(sum, once - 65535, h + 1);
      }
    }
  }

  lemma FoldedIs(ws: seq<Short>)
    ensures FoldedChecksum(ws) == 65535 - Representative(Sum(ws) % TWO32)
  {
    TwoFolds(Sum(ws) % TWO32);
  }

  lemma {:induction false} SumBound(ws: seq<Short>)
    ensures Sum(ws) <= 65535 * |ws|
  {
    if ws != [] { SumBound(ws[1..]); }
  }

  /** Up to 65537 words the 32-bit sum cannot overflow, and the result is the Internet checksum. */
  lemma FoldingIsExact(ws: seq<Short>)
    requires |ws| <= 65537
    ensures Sum(ws) < TWO32 && FoldedChecksum(ws) == InternetChecksum(ws)
  {
    hide Sum, OnesSum, Representative, FoldedChecksum;
    SumBound(ws);
    FoldedIs(ws);
    OnesSumIsSum(ws);
    SmallModulo(Sum(ws));
  }

  lemma SmallModulo(s: nat)
    requires s < TWO32
    ensures s % TWO32 == s
  {}

  function Repeat(w: Short, n: nat): (ws: seq<Short>)
    ensures |ws| == n
  {
    if n == 0 then [] else [w] + Repeat(w, n - 1)
  }

  lemma {:induction false} SumRepeat(w: Short, n: nat)
    ensures Sum(Repeat(w, n)) == w * n
  {
    if n > 0 {
      SumRepeat(w, n - 1);
      Distribute(w, n - 1, 1);
    }
  }

  lemma {:induction false} SumConcat(a: seq<Short>, b: seq<Short>)
    ensures Sum(a + b) == Sum(a) + Sum(b)
  {
    if a == [] {
      assert a + b == b;
    } else {
      assert (a + b)[1..] == a[1..] + b;
      SumConcat(a[1..], b);
    }
  }

  /** For a number of words, the result is the Internet checksum on all data exactly if the number is
      at most 65537: one word more, and a carry out of the 32-bit sum can be lost. */
  lemma ExactLengths(n: nat)
    ensures (forall ws: seq<Short> :: |ws| == n ==> FoldedChecksum(ws) == InternetChecksum(ws)) <==> n <= 65537
  {
    if n <= 65537 {
      forall ws: seq<Short> | |ws| == n ensures FoldedChecksum(ws) == InternetChecksum(ws) { FoldingIsExact(ws); }
    } else {
      var ws := LostCarry(n);
      assert |ws| == n && FoldedChecksum(ws) != InternetChecksum(ws);
    }
  }

  /** Data whose 32-bit sum wraps around to 0. */
  lemma LostCarry(n: nat) returns (ws: seq<Short>)
    requires n > 65537
    ensures |ws| == n && FoldedChecksum(ws) != InternetChecksum(ws)
  {
    hide OnesSum, Sum, Repeat, FoldedChecksum, Representative;
    var a, b := Repeat(65535, 65537), Repeat(0, n - 65538);
    ws := a + ([1] + b);
    SumRepeat(65535, 65537);
    SumRepeat(0, n - 65538);
    SumConcat(a, [1] + b);
    SumCons(1, b);
    assert Sum(ws) == TWO32;
    FoldedIs(ws);
    OnesSumIsSum(ws);
    RepresentativeIs(TWO32, 1, 65537);
    assert Representative(0) == 0 by { RepresentativeOfZero(); }
  }

  lemma RepresentativeOfZero()
    ensures Representative(0) == 0
  {}

  lemma SumCons(w: Short, ws: seq<Short>)
    ensures Sum([w] + ws) == w + Sum(ws)
  {}

  // ---- the properties of section 2 of RFC 1071

  lemma SumRemove(ws: seq<Short>, i: nat)
    requires i < |ws|
    ensures Sum(ws) == ws[i] + Sum(ws[..i] + ws[i + 1..])
  {
    hide Sum;
    assert ws == ws[..i] + ([ws[i]] + ws[i + 1..]);
    SumConcat(ws[..i], [ws[i]] + ws[i + 1..]);
    SumConcat(ws[..i], ws[i + 1..]);
    SumCons(ws[i], ws[i + 1..]);
  }

  lemma RemoveFromMultiset(b: seq<Short>, i: nat)
    requires i < |b|
    ensures multiset(b[..i] + b[i + 1..]) == multiset(b) - multiset{b[i]}
  {
    assert b == b[..i] + ([b[i]] + b[i + 1..]);
  }

  lemma {:induction false} SumOrder(a: seq<Short>, b: seq<Short>)
    requires multiset(a) == multiset(b)
    ensures Sum(a) == Sum(b)
    decreases |a|
  {
    hide Sum;
    if a == [] {
      assert |multiset(b)| == 0;
    } else {
      var i := Occurrence(a, b);
      SumOrder(a[1..], b[..i] + b[i + 1..]);
      assert a == [a[0]] + a[1..];
      SumCons(a[0], a[1..]);
      SumRemove(b, i);
    }
  }

  /** The first word of `a` occurs in `b`, and without it the two have the same words again. */
  lemma Occurrence(a: seq<Short>, b: seq<Short>) returns (i: nat)
    requires a != [] && multiset(a) == multiset(b)
    ensures i < |b| && b[i] == a[0] && multiset(a[1..]) == multiset(b[..i] + b[i + 1..])
  {
    assert a[0] in multiset(b);
    i :| 0 <= i < |b| && b[i] == a[0];
    RemoveFromMultiset(b, i);
    assert a == [a[0]] + a[1..];
  }

  /** The order of the words does not matter. */
  lemma OrderIndependent(a: seq<Short>, b: seq<Short>)
    requires multiset(a) == multiset(b)
    ensures FoldedChecksum(a) == FoldedChecksum(b) && InternetChecksum(a) == InternetChecksum(b)
  {
    SumOrder(a, b);
    OnesSumIsSum(a);
    OnesSumIsSum(b);
  }

  function Swap(w: Short): Short
  {
    w % 256 * 256 + w / 256
  }

  function SwapAll(ws: seq<Short>): (s: seq<Short>)
    ensures |s| == |ws|
  {
    if ws == [] then [] else [Swap(ws[0])] + SwapAll(ws[1..])
  }

  lemma SwapIsTimes256(w: Short)
    ensures 256 * w == Swap(w) + 65535 * (w / 256)
  {}

  lemma {:induction false} SwappedSum(ws: seq<Short>) returns (q: nat)
    ensures 256 * Sum(ws) == Sum(SwapAll(ws)) + 65535 * q
    ensures Sum(ws) == 0 <==> Sum(SwapAll(ws)) == 0
  {
    if ws == [] {
      q := 0;
    } else {
      q := SwappedSum(ws[1..]);
      SwapIsTimes256(ws[0]);
      q := q + ws[0] / 256;
    }
  }

  lemma SwapRepresentative(s: nat, t: nat, q: nat)
    requires 256 * s == t + 65535 * q && (s == 0 <==> t == 0)
    ensures Representative(t) == Swap(Representative(s))
  {
    var p := RepresentativeOf(s);
    var v := Representative(s);
    SwapIsTimes256(v);
    if t > 0 {
      RepresentativeIs(t, Swap(v), 256 * p + v / 256 - q);
    }
  }

  lemma SwapComplement(v: Short)
    ensures Swap(65535 - v) == 65535 - Swap(v)
  {
    var h, l := v / 256, v % 256;
    assert v == 256 * h + l;
    RemainderIs(65535 - v, 256, 255 - h, 255 - l);
  }

  /** Swapping the bytes of every word swaps the bytes of the checksum. */
  lemma ByteOrderIndependent(ws: seq<Short>)
    ensures InternetChecksum(SwapAll(ws)) == Swap(InternetChecksum(ws))
  {
    hide Swap, Representative, Sum, SwapAll, OnesSum;
    var q := SwappedSum(ws);
    SwapRepresentative(Sum(ws), Sum(SwapAll(ws)), q);
    OnesSumIsSum(ws);
    OnesSumIsSum(SwapAll(ws));
    SwapComplement(OnesSum(ws));
  }

  /** The 16-bit words of data in network order: the first byte of each pair is the upper one, and a
      last odd byte is followed by a zero. */
  function NetworkWords(data: seq<Byte>): (ws: seq<Short>)
    ensures |ws| == (|data| + 1) / 2
  {
    if |data| == 0 then []
    else
      var w: Short := 256 * (data[0] as nat) + if |data| == 1 then 0 else data[1];
      [w] + if |data| == 1 then [] else NetworkWords(data[2..])
  }

  lemma SwapPair(a: Byte, b: Byte)
    ensures Swap(Pair(a, b)) == 256 * a + b
  {}

  lemma {:induction false} SwappedWords(data: seq<Byte>)
    ensures SwapAll(WordsOf(data)) == NetworkWords(data)
  {
    hide Swap, Pair;
    if |data| == 1 {
      LastPair(data[0]);
      assert [data[0] as Short][1..] == [];
    } else if |data| >= 2 {
      SwapPair(data[0], data[1]);
      SwappedWords(data[2..]);
      assert WordsOf(data)[1..] == WordsOf(data[2..]);
    }
  }

  lemma LastPair(a: Byte)
    ensures Swap(a) == 256 * a
  {}

  /** The result as it lies in memory, its low byte first, is the Internet checksum of the data in
      network order, its high byte first. */
  lemma NetworkOrder(data: seq<Byte>)
    requires |data| <= 131074
    ensures var c := FoldedChecksum(WordsOf(data));
            InternetChecksum(NetworkWords(data)) == 256 * (c % 256) + c / 256
  {
    hide InternetChecksum, FoldedChecksum, WordsOf;
    FoldingIsExact(WordsOf(data));
    SwappedWords(data);
    ByteOrderIndependent(WordsOf(data));
  }

  /** A word appended to the data makes the checksum 0 exactly if it is the checksum of the data, up
      to the two zeros of one's complement. */
  lemma AppendedChecksum(ws: seq<Short>, c: Short)
    ensures InternetChecksum(ws + [c]) == 0 <==>
            c == InternetChecksum(ws) || (InternetChecksum(ws) == 0 && c == 65535)
  {
    SumConcat(ws, [c]);
    OnesSumIsSum(ws);
    OnesSumIsSum(ws + [c]);
    assert Sum([c]) == c;
    AddToRepresentative(c, Sum(ws));
  }

  /** Appending the two bytes of the result to data of even length gives checksum 0. */
  lemma SelfCheck(data: seq<Byte>)
    requires |data| % 2 == 0 && |data| + 2 <= 131074
    ensures var c := FoldedChecksum(WordsOf(data));
            FoldedChecksum(WordsOf(data + [c % 256, c / 256])) == 0
  {
    var ws := WordsOf(data);
    var c := FoldedChecksum(ws);
    AppendWord(data, c);
    FoldingIsExact(ws);
    FoldingIsExact(ws + [c]);
    AppendedChecksum(ws, c);
  }

  lemma {:induction false} AppendWord(data: seq<Byte>, c: Short)
    requires |data| % 2 == 0
    ensures WordsOf(data + [c % 256, c / 256]) == WordsOf(data) + [c]
  {
    if data == [] {
      assert data + [c % 256, c / 256] == [c % 256, c / 256];
      assert WordsOf([c % 256, c / 256]) == [Pair(c % 256, c / 256)] + WordsOf([]);
    } else {
      assert (data + [c % 256, c / 256])[2..] == data[2..] + [c % 256, c / 256];
      AppendWord(data[2..], c);
    }
  }

  /** A change of one word is always noticed, unless it turns one of the two zeros into the other. */
  lemma OneWordChange(a: seq<Short>, b: seq<Short>, i: nat)
    requires |a| == |b| && i < |a| && a[i] != b[i] && InternetChecksum(a) == InternetChecksum(b)
    requires forall j :: 0 <= j < |a| && j != i ==> a[j] == b[j]
    ensures {a[i], b[i]} == {0, 65535}
  {
    var rest := a[..i] + a[i + 1..];
    assert rest == b[..i] + b[i + 1..];
    SumRemove(a, i);
    SumRemove(b, i);
    OnesSumIsSum(a);
    OnesSumIsSum(b);
    var p := RepresentativeOf(Sum(a));
    var q := RepresentativeOf(Sum(b));
    var x: int, y: int := a[i], b[i];
    assert x - y == 65535 * (p as int - q as int);
  }
}
