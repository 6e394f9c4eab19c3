/** The bit-parallel n-queens counter: three masks describe the columns and diagonals attacked in
    the current row, and the recursion counts every way to complete the rows placed so far. */
module Queens {
  import opened Numbers
  import opened Words

  /** `board[r]` is the column of the queen in row `r`. */
  type Board = seq<nat>

  predicate Attacks(r0: int, c0: int, r1: int, c1: int)
  {
    c0 == c1 || c0 - c1 == r0 - r1 || c0 - c1 == r1 - r0
  }

  ghost predicate Peaceful(b: Board)
  {
    forall i, j :: 0 <= i < j < |b| ==> !Attacks(i, b[i], j, b[j])
  }

  ghost predicate InRange(b: Board, n: nat)
  {
    forall i :: 0 <= i < |b| ==> b[i] < n
  }

  /** Every placement of one queen in each of the first `k` rows of an `n`-column board. */
  ghost function Boards(n: nat, k: nat): set<Board>
  {
    if k == 0 then {[]}
    else set b, c: nat | b in Boards(n, k - 1) && 0 <= c < n :: b + [c]
  }

  /** The solutions of the n-queens problem. */
  ghost function Solutions(n: nat): set<Board>
  {
    set b | b in Boards(n, n) && |b| == n && Peaceful(b)
  }

  lemma {:induction false} BoardsAre(n: nat, k: nat, b: Board)
    ensures b in Boards(n, k) <==> |b| == k && InRange(b, n)
  {
    if k > 0 {
      if |b| == k {
        BoardsAre(n, k - 1, b[..k - 1]);
        assert b == b[..k - 1] + [b[k - 1]];
      }
      if b in Boards(n, k) {
        var a, c: nat :| a in Boards(n, k - 1) && c < n && b == a + [c];
        BoardsAre(n, k - 1, a);
      }
    }
  }

  /** `Solutions(n)` holds exactly the boards with one queen per row, none attacking another. */
  lemma SolutionsAre(n: nat, b: Board)
    ensures b in Solutions(n) <==> |b| == n && InRange(b, n) && Peaceful(b)
  {
    BoardsAre(n, n, b);
  }

  /** The solutions that extend the rows placed so far. */
  ghost function Completions(n: nat, p: Board): set<Board>
  {
    set b | b in Solutions(n) && p <= b
  }

  /** The completions whose next queen stands in a column that is not in the mask `poss`. */
  ghost function Covered(n: nat, p: Board, poss: nat): set<Board>
    requires |p| < n
  {
    set b | b in Completions(n, p) && !Bit(poss, b[|p|])
  }

  // ---- what the three masks mean in row |p|

  ghost predicate ColumnTaken(p: Board, c: int)
  {
    exists r :: 0 <= r < |p| && p[r] == c
  }

  ghost predicate LeftDiagonalTaken(p: Board, c: int)
  {
    exists r :: 0 <= r < |p| && p[r] + (|p| - r) == c
  }

  ghost predicate RightDiagonalTaken(p: Board, c: int)
  {
    exists r :: 0 <= r < |p| && p[r] - (|p| - r) == c
  }

  ghost predicate MasksDescribe(p: Board, left: nat, cols: nat, right: nat)
  {
    && left < TWO32 && cols < TWO32 && right < TWO32
    && forall c {:trigger Bit(left, c)} {:trigger Bit(cols, c)} {:trigger Bit(right, c)} :: 0 <= c < 32 ==>
         && (Bit(left, c) <==> LeftDiagonalTaken(p, c))
         && (Bit(cols, c) <==> ColumnTaken(p, c))
         && (Bit(right, c) <==> RightDiagonalTaken(p, c))
  }

  /** A queen in column `c` of the next row is peaceful iff no mask covers it. */
  lemma FreeColumn(p: Board, c: nat)
    requires Peaceful(p)
    ensures Peaceful(p + [c]) <==>
            !ColumnTaken(p, c) && !LeftDiagonalTaken(p, c) && !RightDiagonalTaken(p, c)
  {
    var q := p + [c];
    assert forall r :: 0 <= r < |p| ==> q[r] == p[r];
    assert q[|p|] == c;
    if Peaceful(q) {
      assert forall r :: 0 <= r < |p| ==> !Attacks(r, q[r], |p|, q[|p|]);
    }
  }

  lemma ColumnsStep(p: Board, cols: nat, c: nat, x: nat)
    requires Bit(cols, x) <==> ColumnTaken(p, x)
    ensures Bit(Or(cols, Pow2(c)), x) <==> ColumnTaken(p + [c], x)
  {
    var q := p + [c];
    BitOr(cols, Pow2(c), x);
    Pow2Bits(c, x);
    assert q[|p|] == c;
    if ColumnTaken(p, x) {
      var r :| 0 <= r < |p| && p[r] == x;
      assert q[r] == x;
    }
  }

  lemma LeftStep(p: Board, left: nat, c: nat, x: nat)
    requires x < 32
    requires x > 0 ==> (Bit(left, x - 1) <==> LeftDiagonalTaken(p, x - 1))
    ensures Bit(Shl1(Or(left, Pow2(c))), x) <==> LeftDiagonalTaken(p + [c], x)
  {
    var q := p + [c];
    BitShl(Or(left, Pow2(c)), x);
    assert q[|p|] == c;
    if x > 0 {
      BitOr(left, Pow2(c), x - 1);
      Pow2Bits(c, x - 1);
      if LeftDiagonalTaken(p, x - 1) {
        var r :| 0 <= r < |p| && p[r] + (|p| - r) == x - 1;
        assert q[r] + (|q| - r) == x;
      }
      if LeftDiagonalTaken(q, x) {
        var r :| 0 <= r < |q| && q[r] + (|q| - r) == x;
        assert r < |p| ==> p[r] + (|p| - r) == x - 1;
      }
    }
  }

  lemma RightStep(p: Board, right: nat, c: nat, x: nat)
    requires Bit(right, x + 1) <==> RightDiagonalTaken(p, x + 1)
    ensures Bit(Shr1(Or(right, Pow2(c))), x) <==> RightDiagonalTaken(p + [c], x)
  {
    var q := p + [c];
    BitOr(right, Pow2(c), x + 1);
    Pow2Bits(c, x + 1);
    assert q[|p|] == c;
    if RightDiagonalTaken(p, x + 1) {
      var r :| 0 <= r < |p| && p[r] - (|p| - r) == x + 1;
      assert q[r] - (|q| - r) == x;
    }
    if RightDiagonalTaken(q, x) {
      var r :| 0 <= r < |q| && q[r] - (|q| - r) == x;
      assert r < |p| ==> p[r] - (|p| - r) == x + 1;
    }
  }

  /** The masks passed to the recursive call describe the board with the new queen: the digit
      shifted out at either end stands for no square of the board. */
  lemma MasksStep(p: Board, n: nat, left: nat, cols: nat, right: nat, c: nat)
    requires n <= 32 && c < n && InRange(p, n) && MasksDescribe(p, left, cols, right)
    ensures MasksDescribe(p + [c], Shl1(Or(left, Pow2(c))), Or(cols, Pow2(c)), Shr1(Or(right, Pow2(c))))
  {
    Pow2Of32();
    Pow2Monotone(c, 32);
    OrBound(left, Pow2(c), 32);
    OrBound(cols, Pow2(c), 32);
    OrBound(right, Pow2(c), 32);
    forall x | 0 <= x < 32
      ensures Bit(Or(cols, Pow2(c)), x) <==> ColumnTaken(p + [c], x)
      ensures Bit(Shl1(Or(left, Pow2(c))), x) <==> LeftDiagonalTaken(p + [c], x)
      ensures Bit(Shr1(Or(right, Pow2(c))), x) <==> RightDiagonalTaken(p + [c], x)
    {
      ColumnsStep(p, cols, c, x);
      LeftStep(p, left, c, x);
      if x == 31 { HighBits(right, 32, 32); }
      RightStep(p, right, c, x);
    }
  }

  // ---- counting

  ghost function Elements(p: Board): set<nat>
  {
    set r | 0 <= r < |p| :: p[r]
  }

  lemma {:induction false} ElementsCount(p: Board)
    requires forall i, j :: 0 <= i < j < |p| ==> p[i] != p[j]
    ensures |Elements(p)| == |p|
  {
    if |p| > 0 {
      var q, last := p[..|p| - 1], p[|p| - 1];
      ElementsCount(q);
      assert Elements(p) == Elements(q) + {last} by {
        forall x | x in Elements(p) ensures x in Elements(q) + {last} {
          var r :| 0 <= r < |p| && p[r] == x;
          if r < |q| { assert q[r] == x; }
        }
        forall x | x in Elements(q) ensures x in Elements(p) {
          var r :| 0 <= r < |q| && q[r] == x;
          assert p[r] == x;
        }
      }
      assert last !in Elements(q);
    }
  }

  lemma BoardHeight(p: Board, n: nat)
    requires InRange(p, n) && Peaceful(p)
    ensures |p| <= n && (|p| == n <==> forall c: nat :: c < n ==> ColumnTaken(p, c))
  {
    assert forall i, j :: 0 <= i < j < |p| ==> !Attacks(i, p[i], j, p[j]);
    ElementsCount(p);
    assert Elements(p) <= Range(n);
    SubsetCount(Elements(p), Range(n));
    assert forall c: nat :: ColumnTaken(p, c) <==> c in Elements(p);
    if forall c: nat :: c < n ==> ColumnTaken(p, c) {
      assert Range(n) <= Elements(p);
      SubsetCount(Range(n), Elements(p));
    }
  }

  /** The columns are all occupied exactly when every row is. */
  lemma FullBoard(p: Board, n: nat, cols: nat)
    requires n <= 32 && InRange(p, n) && Peaceful(p) && cols < TWO32
    requires forall c :: 0 <= c < 32 ==> (Bit(cols, c) <==> ColumnTaken(p, c))
    ensures cols == Pow2(n) - 1 <==> |p| == n
    ensures |p| <= n
  {
    BoardHeight(p, n);
    Pow2Of32();
    if |p| == n {
      forall c | 0 <= c < 32 ensures Bit(cols, c) <==> Bit(Pow2(n) - 1, c) { OnesBits(n, c); }
      if n < 32 { Pow2Monotone(n, 32); }
      WordExt(cols, Pow2(n) - 1, 32);
    }
    if cols == Pow2(n) - 1 {
      forall c: nat | c < n ensures ColumnTaken(p, c) { OnesBits(n, c); }
    }
  }

  /** Moving column `c` out of `poss` covers exactly the completions that start with it. */
  lemma CoverStep(n: nat, p: Board, poss: nat, c: nat)
    requires |p| < n && Bit(poss, c)
    ensures Pow2(c) <= poss
    ensures |Covered(n, p, poss - Pow2(c))| == |Covered(n, p, poss)| + |Completions(n, p + [c])|
  {
    ClearBySubtraction(poss, c, 0);
    var rest := poss - Pow2(c);
    var old', new', added := Covered(n, p, poss), Covered(n, p, rest), Completions(n, p + [c]);
    forall b | b in Completions(n, p) ensures b in new' <==> b in old' || b in added {
      ClearBySubtraction(poss, c, b[|p|]);
      assert p + [c] <= b <==> b[|p|] == c by {
        if b[|p|] == c { assert b[..|p| + 1] == p + [c]; }
      }
    }
    assert forall b :: b in added ==> p <= p + [c] <= b;
    assert added <= Completions(n, p);
    assert new' == old' + added;
    forall b | b in added ensures b !in old' {
      assert b[|p|] == (p + [c])[|p|] == c;
    }
    assert old' !! added;
  }

  lemma PrefixPeaceful(b: Board, k: nat)
    requires k <= |b| && Peaceful(b)
    ensures Peaceful(b[..k])
  {
    assert forall i :: 0 <= i < k ==> b[..k][i] == b[i];
  }

  /** Initially only completions through an attacked column are covered: there are none. */
  lemma CoverStart(n: nat, p: Board, poss: nat)
    requires |p| < n
    requires forall c: nat :: c < n && Peaceful(p + [c]) ==> Bit(poss, c)
    ensures Covered(n, p, poss) == {}
  {
    forall b | b in Completions(n, p) ensures Bit(poss, b[|p|]) {
      SolutionsAre(n, b);
      PrefixPeaceful(b, |p| + 1);
      assert b[..|p| + 1] == p + [b[|p|]];
    }
  }

  lemma FullCompletion(n: nat, p: Board)
    requires |p| == n && InRange(p, n) && Peaceful(p)
    ensures |Completions(n, p)| == 1
  {
    SolutionsAre(n, p);
    assert forall b :: b in Completions(n, p) ==> b == p;
    assert Completions(n, p) == {p};
  }

  /** Only free columns of the next row are in `poss`. */
  ghost predicate OnlyFree(n: nat, p: Board, poss: nat)
  {
    forall c: nat :: Bit(poss, c) ==> c < n && Peaceful(p + [c])
  }

  lemma FewerFree(n: nat, p: Board, poss: nat, c: nat)
    requires OnlyFree(n, p, poss) && Bit(poss, c)
    ensures Pow2(c) <= poss && OnlyFree(n, p, poss - Pow2(c))
  {
    ClearBySubtraction(poss, c, 0);
    var rest := poss - Pow2(c);
    forall x: nat | Bit(rest, x) ensures x < n && Peaceful(p + [x]) {
      ClearBySubtraction(poss, c, x);
    }
  }

  lemma AddModulo(a: nat, b: nat, m: nat, n: nat)
    requires m == a % TWO32 && n == b % TWO32
    ensures (m + n) % TWO32 == (a + b) % TWO32
  {}

  lemma FreeMaskBit(p: Board, n: nat, left: nat, cols: nat, right: nat, c: nat)
    requires n <= 32 && Peaceful(p) && MasksDescribe(p, left, cols, right)
    requires Or(Or(left, cols), right) < TWO32
    ensures Bit(And(Not(Or(Or(left, cols), right)), Pow2(n) - 1), c) <==> c < n && Peaceful(p + [c])
  {
    var taken := Or(Or(left, cols), right);
    BitAnd(Not(taken), Pow2(n) - 1, c);
    OnesBits(n, c);
    if c < n {
      BitNot(taken, c);
      BitOr(Or(left, cols), right, c);
      BitOr(left, cols, c);
      FreeColumn(p, c);
    }
  }

  /** `~(left | cols | right) & all` is the set of free columns; nothing is covered yet. */
  lemma FreeMask(p: Board, n: nat, left: nat, cols: nat, right: nat)
    requires n <= 32 && |p| < n && Peaceful(p) && MasksDescribe(p, left, cols, right)
    ensures Or(Or(left, cols), right) < TWO32
    ensures var poss := And(Not(Or(Or(left, cols), right)), Pow2(n) - 1);
            poss < TWO32 && OnlyFree(n, p, poss) && Covered(n, p, poss) == {}
  {
    Pow2Of32();
    OrBound(left, cols, 32);
    OrBound(Or(left, cols), right, 32);
    var taken := Or(Or(left, cols), right);
    AndBound(Not(taken), Pow2(n) - 1);
    var poss := And(Not(taken), Pow2(n) - 1);
    forall c: nat ensures Bit(poss, c) <==> c < n && Peaceful(p + [c]) {
      FreeMaskBit(p, n, left, cols, right, c);
    }
    CoverStart(n, p, poss);
  }

  /** One turn of the loop picks a free column `c`: the recursive call's masks describe the board
      with the new queen, the board is full exactly when `cols` reaches `all`, and the solutions
      counted for `c` are those not covered before. */
  lemma Turn(n: nat, p: Board, left: nat, cols: nat, right: nat, poss: nat, bit: nat) returns (c: nat)
    requires n <= 32 && |p| < n && InRange(p, n) && Peaceful(p)
    requires MasksDescribe(p, left, cols, right)
    requires 0 < poss < TWO32 && bit == And(poss, Neg(poss))
    requires OnlyFree(n, p, poss)
    ensures 0 < bit <= poss && c < n && InRange(p + [c], n) && Peaceful(p + [c])
    ensures OnlyFree(n, p, poss - bit)
    ensures MasksDescribe(p + [c], Shl1(Or(left, bit)), Or(cols, bit), Shr1(Or(right, bit)))
    ensures Or(cols, bit) == Pow2(n) - 1 <==> |p| + 1 == n
    ensures |Covered(n, p, poss - bit)| == |Covered(n, p, poss)| + |Completions(n, p + [c])|
  {
    c := LowestBit(poss);
    CoverStep(n, p, poss, c);
    FewerFree(n, p, poss, c);
    MasksStep(p, n, left, cols, right, c);
    FullBoard(p + [c], n, Or(cols, Pow2(c)));
  }

  /** queens_try: given masks that describe the queens `p` already placed, the result is the number
      of solutions that extend `p`, modulo 2^32. */
  method QueensTry(leftDiag: nat, cols: nat, rightDiag: nat, all: nat, ghost n: nat, ghost p: Board)
    returns (solutions: nat)
    requires 1 <= n <= 32 && all == Pow2(n) - 1
    requires |p| < n && InRange(p, n) && Peaceful(p)
    requires MasksDescribe(p, leftDiag, cols, rightDiag)
    ensures solutions == |Completions(n, p)| % TWO32
    decreases n - |p|
  {
    hide Or, And, Not, Neg, InRange, Peaceful, MasksDescribe, OnlyFree, Completions, Covered;
    solutions := 0;
    FreeMask(p, n, leftDiag, cols, rightDiag);
    var poss := And(Not(Or(Or(leftDiag, cols), rightDiag)), all);
    while poss != 0
      invariant 0 <= poss < TWO32
      invariant OnlyFree(n, p, poss)
      invariant solutions == |Covered(n, p, poss)| % TWO32
      decreases poss
    {
      var inv := Neg(poss);
      var bit := And(poss, inv);
      var newCols := Or(cols, bit);
      ghost var c := Turn(n, p, leftDiag, cols, rightDiag, poss, bit);
      ghost var q, covered := p + [c], |Covered(n, p, poss)|;
      poss := poss - bit;
      assert |Covered(n, p, poss)| == covered + |Completions(n, q)|;
      var found := 1;
      if newCols == all {
        FullCompletion(n, q);
      } else {
        found := QueensTry(Shl1(Or(leftDiag, bit)), newCols, Shr1(Or(rightDiag, bit)), all, n, q);
      }
      assert found == |Completions(n, q)| % TWO32;
      AddModulo(covered, |Completions(n, q)|, solutions, found);
      solutions := (solutions + found) % TWO32;
    }
    AllCovered(n, p);
  }

  /** The first call of queens_try, with no queen placed, meets its precondition on every board size
      from 1 to 32, and what it returns is then the number of all solutions modulo 2^32. */
  lemma FirstCall(n: nat)
    ensures InRange([], n) && Peaceful([]) && MasksDescribe([], 0, 0, 0)
    ensures Completions(n, []) == Solutions(n)
  {
    forall c: nat ensures !Bit(0, c) { ZeroBits(c); }
  }

  lemma AllCovered(n: nat, p: Board)
    requires |p| < n
    ensures Covered(n, p, 0) == Completions(n, p)
  {
    forall b | b in Completions(n, p) ensures b in Covered(n, p, 0) {
      ZeroBits(b[|p|]);
    }
  }

  /** stress_cpu_queens: the sizes 1 to 11, with `all` doubled and incremented from size to size. */
  method CpuQueens() returns (counts: seq<nat>)
    ensures |counts| == 11
    ensures forall n :: 1 <= n < 12 ==> counts[n - 1] == |Solutions(n)| % TWO32
  {
    counts := [];
    var all := 1;
    for n := 1 to 12
      invariant all == Pow2(n) - 1
      invariant |counts| == n - 1
      invariant forall k :: 1 <= k < n ==> counts[k - 1] == |Solutions(k)| % TWO32
    {
      FirstCall(n);
      var solutions := QueensTry(0, 0, 0, all, n, []);
      counts := counts + [solutions];
      Pow2Of32();
      Pow2Monotone(n + 1, 32);
      all := (all + all + 1) % TWO32;
    }
  }
}
