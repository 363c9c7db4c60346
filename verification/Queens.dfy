/** Counting queen placements with three bit masks, as in queen.c. */
module Queens {
  import opened Arithmetic
  import opened BitMasks
  import opened BitOperations
  import opened Pigeonhole

  // ----- placements

  /** The square in row j and column d is not attacked by the queen in row i and column c. */
  predicate Peaceful(i: int, c: int, j: int, d: int) { c != d && c - d != j - i && d - c != j - i }

  /** One queen in each of the first rows, no two in a column or on a diagonal. */
  ghost predicate NonAttacking(cols: seq<int>) {
    forall i, j :: 0 <= i < j < |cols| ==> Peaceful(i, cols[i], j, cols[j])
  }

  /** All ways to choose a column below n for each of k rows. */
  ghost function Boards(n: nat, k: nat): set<seq<int>> {
    if k == 0 then {[]} else set b, c | b in Boards(n, k - 1) && c in Below(n) :: b + [c]
  }

  lemma {:induction false} BoardsAre(n: nat, k: nat, b: seq<int>)
    ensures b in Boards(n, k) <==> |b| == k && forall i :: 0 <= i < k ==> 0 <= b[i] < n
  {
    if k > 0 && |b| > 0 {
      var front := b[..|b| - 1];
      assert b == front + [b[|b| - 1]];
      BoardsAre(n, k - 1, front);
    }
    if k > 0 && b in Boards(n, k) {
      var front, c :| front in Boards(n, k - 1) && c in Below(n) && b == front + [c];
      BoardsAre(n, k - 1, front);
    }
  }

  /** The solutions of the n queens puzzle. */
  ghost function Solutions(n: nat): set<seq<int>> { set b | b in Boards(n, n) && NonAttacking(b) }

  /** The size of a set as a 32-bit counter shows it. */
  ghost function Modulo(boards: set<seq<int>>): nat { |boards| % TWO32 }

  /** The solutions that begin with cols. */
  ghost function Completions(n: nat, cols: seq<int>): set<seq<int>> { set b | b in Solutions(n) && cols <= b }

  // ----- the masks

  /** A queen so far attacks column c of the next row, straight (0) or by a diagonal (1 or -1 per row). */
  ghost predicate Attacked(cols: seq<int>, c: int, slope: int) {
    exists i :: 0 <= i < |cols| && cols[i] + slope * (|cols| - i) == c
  }

  lemma AttackedNext(cols: seq<int>, p: int, c: int, slope: int)
    requires -1 <= slope <= 1
    ensures Attacked(cols + [p], c, slope) <==> Attacked(cols, c - slope, slope) || p + slope == c
  {
    var next, k := cols + [p], |cols|;
    if Attacked(cols, c - slope, slope) {
      var i :| 0 <= i < k && cols[i] + slope * (k - i) == c - slope;
      OneRowOn(slope, k, i);
      assert next[i] + slope * (|next| - i) == c;
    }
    if p + slope == c { assert next[k] + slope * (|next| - k) == c; }
    if Attacked(next, c, slope) {
      var i :| 0 <= i < |next| && next[i] + slope * (|next| - i) == c;
      OneRowOn(slope, k, i);
      if i < k { assert cols[i] + slope * (k - i) == c - slope; }
    }
  }

  lemma OneRowOn(slope: int, k: int, i: int)
    ensures slope * (k + 1 - i) == slope * (k - i) + slope
  {
  }

  ghost predicate Free(cols: seq<int>, c: int) {
    !Attacked(cols, c, 0) && !Attacked(cols, c, 1) && !Attacked(cols, c, -1)
  }

  lemma FreeIsNonAttacking(cols: seq<int>, c: int)
    requires NonAttacking(cols)
    ensures Free(cols, c) <==> NonAttacking(cols + [c])
  {
    var next, k := cols + [c], |cols|;
    if NonAttacking(next) {
      forall i | 0 <= i < k
        ensures cols[i] != c && cols[i] + (k - i) != c && cols[i] - (k - i) != c
      {
        assert Peaceful(i, next[i], k, next[k]);
      }
    }
    if Free(cols, c) {
      forall i, j | 0 <= i < j < |next|
        ensures Peaceful(i, next[i], j, next[j])
      {
        if j == k {
          assert cols[i] + 0 * (k - i) != c && cols[i] + 1 * (k - i) != c && cols[i] + -1 * (k - i) != c;
        } else {
          assert Peaceful(i, cols[i], j, cols[j]);
        }
      }
    }
  }

  /** The bits of mask below limit are the squares of the next row attacked along slope. */
  ghost predicate Shows(mask: nat, cols: seq<int>, slope: int, limit: nat) {
    && mask < Pow2(limit)
    && forall c: nat {:trigger Bit(mask, c)} :: c < limit ==> (Bit(mask, c) <==> Attacked(cols, c, slope))
  }

  ghost predicate OnBoard(n: nat, cols: seq<int>) {
    |cols| <= n <= 32 && NonAttacking(cols) && forall i :: 0 <= i < |cols| ==> 0 <= cols[i] < n
  }

  /** The three masks stand for the partial placement cols. */
  ghost predicate Encodes(n: nat, cols: seq<int>, row: nat, ld: nat, rd: nat) {
    OnBoard(n, cols) && Shows(row, cols, 0, n) && Shows(ld, cols, 1, 32) && Shows(rd, cols, -1, 32)
  }

  lemma NothingPlaced(n: nat)
    requires n <= 32
    ensures Encodes(n, [], 0, 0, 0)
  {
    forall c: nat ensures !Bit(0, c) { ZeroBit(c); }
  }

  /** With a queen on column p, the masks move along their slopes to the next row. */
  lemma RowPlaced(n: nat, cols: seq<int>, row: nat, p: nat)
    requires Shows(row, cols, 0, n) && p < n
    ensures Shows(Or(row, Pow2(p)), cols + [p], 0, n)
  {
    OneBitFits(p, n);
    OrBound(row, Pow2(p), n);
    forall c: nat | c < n ensures Bit(Or(row, Pow2(p)), c) <==> Attacked(cols + [p], c, 0) {
      OrBit(row, Pow2(p), c);
      PowerBit(p, c);
      AttackedNext(cols, p, c, 0);
    }
  }

  lemma LeftPlaced(n: nat, cols: seq<int>, ld: nat, p: nat)
    requires OnBoard(n, cols) && Shows(ld, cols, 1, 32) && p < n
    ensures Shows(2 * Or(ld, Pow2(p)) % TWO32, cols + [p], 1, 32)
  {
    WordSizes();
    forall c: nat | c < 32 ensures Bit(2 * Or(ld, Pow2(p)) % Pow2(32), c) <==> Attacked(cols + [p], c, 1) {
      LeftBit(n, cols, ld, p, c);
    }
  }

  lemma LeftBit(n: nat, cols: seq<int>, ld: nat, p: nat, c: nat)
    requires OnBoard(n, cols) && Shows(ld, cols, 1, 32) && c < 32
    ensures Bit(2 * Or(ld, Pow2(p)) % Pow2(32), c) <==> Attacked(cols + [p], c, 1)
  {
    DoubledBit(Or(ld, Pow2(p)), 32, c);
    AttackedNext(cols, p, c, 1);
    if c > 0 {
      OrBit(ld, Pow2(p), c - 1);
      PowerBit(p, c - 1);
    }
  }

  lemma RightPlaced(n: nat, cols: seq<int>, rd: nat, p: nat)
    requires OnBoard(n, cols) && Shows(rd, cols, -1, 32) && p < n
    ensures Shows(Or(rd, Pow2(p)) / 2, cols + [p], -1, 32)
  {
    OneBitFits(p, 32);
    OrBound(rd, Pow2(p), 32);
    forall c: nat | c < 32 ensures Bit(Or(rd, Pow2(p)) / 2, c) <==> Attacked(cols + [p], c, -1) {
      RightBit(n, cols, rd, p, c);
    }
  }

  lemma RightBit(n: nat, cols: seq<int>, rd: nat, p: nat, c: nat)
    requires OnBoard(n, cols) && Shows(rd, cols, -1, 32) && c < 32
    ensures Bit(Or(rd, Pow2(p)) / 2, c) <==> Attacked(cols + [p], c, -1)
  {
    OrBit(rd, Pow2(p), c + 1);
    PowerBit(p, c + 1);
    AttackedNext(cols, p, c, -1);
    if c == 31 { HighBit(rd, 32, 32); }
  }

  lemma OneBitFits(p: nat, k: nat)
    requires p < k
    ensures Pow2(p) < Pow2(k)
  {
  }

  /** Placing a queen on a free square. */
  lemma Placed(n: nat, cols: seq<int>, row: nat, ld: nat, rd: nat, p: nat, mask: nat)
    requires Encodes(n, cols, row, ld, rd) && |cols| < n && p < n && Free(cols, p) && mask == Pow2(p)
    ensures Encodes(n, cols + [p], Or(row, mask), 2 * Or(ld, mask) % TWO32, Or(rd, mask) / 2)
  {
    FreeIsNonAttacking(cols, p);
    RowPlaced(n, cols, row, p);
    LeftPlaced(n, cols, ld, p);
    RightPlaced(n, cols, rd, p);
  }

  function Not(x: nat): nat
    requires x < TWO32
  {
    TWO32 - 1 - x
  }

  lemma OrFits(row: nat, ld: nat, rd: nat)
    requires row < TWO32 && ld < TWO32 && rd < TWO32
    ensures Or(Or(row, ld), rd) < TWO32
  {
    WordSizes();
    OrBound(row, ld, 32);
    OrBound(Or(row, ld), rd, 32);
  }

  lemma MasksFit(n: nat, cols: seq<int>, row: nat, ld: nat, rd: nat)
    requires Encodes(n, cols, row, ld, rd)
    ensures row < TWO32 && ld < TWO32 && rd < TWO32 && Or(Or(row, ld), rd) < TWO32
  {
    WordSizes();
    Pow2Monotone(n, 32);
    OrFits(row, ld, rd);
  }

  lemma MaskBit(n: nat, row: nat, ld: nat, rd: nat, c: nat)
    requires n <= 32 && Or(Or(row, ld), rd) < TWO32
    ensures Bit(And(Pow2(n) - 1, Not(Or(Or(row, ld), rd))), c)
            <==> c < n && !Bit(row, c) && !Bit(ld, c) && !Bit(rd, c)
  {
    AndBit(Pow2(n) - 1, Not(Or(Or(row, ld), rd)), c);
    FullBit(n, c);
    if c < n {
      NotWordBit(Or(Or(row, ld), rd), c);
      OrBit(Or(row, ld), rd, c);
      OrBit(row, ld, c);
    }
  }

  /** The mask pos has a bit for every free square of the next row, and no other bit. */
  lemma FreeSquare(n: nat, cols: seq<int>, row: nat, ld: nat, rd: nat, c: nat)
    requires Encodes(n, cols, row, ld, rd) && Or(Or(row, ld), rd) < TWO32
    ensures Bit(And(Pow2(n) - 1, Not(Or(Or(row, ld), rd))), c) <==> c < n && Free(cols, c)
  {
    MaskBit(n, row, ld, rd, c);
  }

  lemma FullBit(n: nat, c: nat)
    ensures Bit(Pow2(n) - 1, c) <==> c < n
  {
    if c < n {
      NotBit(0, n, c);
      ZeroBit(c);
    } else {
      HighBit(Pow2(n) - 1, n, c);
    }
  }

  lemma NotWordBit(x: nat, c: nat)
    requires x < TWO32 && c < 32
    ensures Bit(Not(x), c) <==> !Bit(x, c)
  {
    WordSizes();
    NotBit(x, 32, c);
  }

  ghost predicate AllFree(n: nat, cols: seq<int>, pos: nat) {
    forall c: nat {:trigger Bit(pos, c)} :: Bit(pos, c) ==> c < n && Free(cols, c)
  }

  lemma FreeSquares(n: nat, cols: seq<int>, row: nat, ld: nat, rd: nat, pos: nat)
    requires Encodes(n, cols, row, ld, rd) && Or(Or(row, ld), rd) < TWO32 && |cols| < n
    requires pos == And(Pow2(n) - 1, Not(Or(Or(row, ld), rd)))
    ensures pos < TWO32 && AllFree(n, cols, pos) && Modulo(Counted(n, cols, pos)) == 0
  {
    forall c: nat ensures Bit(pos, c) <==> c < n && Free(cols, c) { FreeSquare(n, cols, row, ld, rd, c); }
    NoneCounted(n, cols, pos);
    FreeFits(n, Not(Or(Or(row, ld), rd)));
  }

  lemma FreeFits(n: nat, mask: nat)
    requires n <= 32
    ensures And(Pow2(n) - 1, mask) < TWO32
  {
    WordSizes();
    Pow2Monotone(n, 32);
    AndAtMost(Pow2(n) - 1, mask);
  }

  lemma LowestMask(pos: nat) returns (c: nat)
    requires 0 < pos < TWO32
    ensures And(pos, (Not(pos) + 1) % TWO32) == Pow2(c) && Bit(pos, c) && c < 32
  {
    Digits(0, TWO32 - pos, TWO32);
    assert Pow2(32) == TWO32 by { WordSizes(); }
    c := LowestBit(pos, 32);
  }

  lemma ColumnTaken(n: nat, cols: seq<int>, row: nat, c: nat)
    requires Shows(row, cols, 0, n) && c < n
    ensures Bit(row, c) <==> c in cols
  {
    if c in cols {
      var i :| 0 <= i < |cols| && cols[i] == c;
      assert cols[i] + 0 * (|cols| - i) == c;
    }
  }

  /** The columns are all taken exactly when all rows are. */
  lemma FullRow(n: nat, cols: seq<int>, row: nat, ld: nat, rd: nat)
    requires Encodes(n, cols, row, ld, rd)
    ensures row == Pow2(n) - 1 <==> |cols| == n
  {
    forall i, j | 0 <= i < j < |cols| ensures cols[i] != cols[j] {
      assert Peaceful(i, cols[i], j, cols[j]);
    }
    forall c: nat | c < n ensures Bit(Pow2(n) - 1, c) && (Bit(row, c) <==> c in cols) {
      FullBit(n, c);
      ColumnTaken(n, cols, row, c);
    }
    if |cols| == n {
      Surjective(cols, n);
      SameBits(row, Pow2(n) - 1, n);
    } else if row == Pow2(n) - 1 {
      AtLeast(cols, n);
      assert false;
    }
  }

  // ----- counting

  ghost predicate InMask(pos: nat, b: seq<int>, k: nat) {
    k < |b| && var c: int := b[k]; 0 <= c && Bit(pos, c)
  }

  /** The completions whose next queen stands on a square no longer in pos. */
  ghost function Counted(n: nat, cols: seq<int>, pos: nat): set<seq<int>>
    requires |cols| < n
  {
    set b | b in Completions(n, cols) && !InMask(pos, b, |cols|)
  }

  lemma CompletionShape(n: nat, cols: seq<int>, b: seq<int>)
    requires b in Completions(n, cols) && |cols| < n
    ensures |b| == n && 0 <= b[|cols|] < n && b[..|cols|] == cols && NonAttacking(cols + [b[|cols|]])
  {
    BoardsAre(n, n, b);
    var next := b[..|cols| + 1];
    assert next == cols + [b[|cols|]];
    forall i, j | 0 <= i < j < |next| ensures Peaceful(i, next[i], j, next[j]) {
      assert Peaceful(i, b[i], j, b[j]);
    }
  }

  lemma NoneCounted(n: nat, cols: seq<int>, pos: nat)
    requires |cols| < n && NonAttacking(cols) && forall c: nat :: c < n ==> (Bit(pos, c) <==> Free(cols, c))
    ensures Counted(n, cols, pos) == {}
  {
    forall b | b in Completions(n, cols)
      ensures b !in Counted(n, cols, pos)
    {
      CompletionShape(n, cols, b);
      FreeIsNonAttacking(cols, b[|cols|]);
    }
  }

  lemma OneMore(n: nat, cols: seq<int>, pos: nat, p: nat)
    requires |cols| < n && Bit(pos, p)
    ensures Pow2(p) <= pos
    ensures Splits(Counted(n, cols, pos - Pow2(p)), Counted(n, cols, pos), Completions(n, cols + [p]))
  {
    var k := |cols|;
    RemovedBit(pos, p, p);
    var before, more, after := Counted(n, cols, pos), Completions(n, cols + [p]), Counted(n, cols, pos - Pow2(p));
    forall b: seq<int>
      ensures b in after <==> b in before || b in more
      ensures !(b in before && b in more)
    {
      if b in Completions(n, cols) {
        CompletionShape(n, cols, b);
        var c: int := b[k];
        RemovedBit(pos, p, c);
        assert cols + [p] <= b <==> b[k] == p;
      }
    }
  }

  ghost predicate Splits(whole: set<seq<int>>, a: set<seq<int>>, b: set<seq<int>>) { whole == a + b && a !! b }

  lemma SplitCount(whole: set<seq<int>>, a: set<seq<int>>, b: set<seq<int>>)
    requires Splits(whole, a, b)
    ensures Modulo(whole) == (Modulo(a) + Modulo(b)) % TWO32
  {
  }

  lemma CountMore(n: nat, cols: seq<int>, pos: nat, p: nat)
    requires |cols| < n && Bit(pos, p)
    ensures Pow2(p) <= pos
    ensures Modulo(Counted(n, cols, pos - Pow2(p)))
            == (Modulo(Counted(n, cols, pos)) + Modulo(Completions(n, cols + [p]))) % TWO32
  {
    OneMore(n, cols, pos, p);
    SplitCount(Counted(n, cols, pos - Pow2(p)), Counted(n, cols, pos), Completions(n, cols + [p]));
  }

  lemma LessFree(n: nat, cols: seq<int>, pos: nat, p: nat)
    requires Bit(pos, p) && AllFree(n, cols, pos)
    ensures Pow2(p) <= pos && AllFree(n, cols, pos - Pow2(p))
  {
    RemovedBit(pos, p, p);
    var less: nat := pos - Pow2(p);
    forall c: nat ensures Bit(less, c) ==> c < n && Free(cols, c) { RemovedBit(pos, p, c); }
  }

  /** The lowest column of pos is free; without it, one set of completions more is counted. */
  lemma LowestColumn(n: nat, cols: seq<int>, pos: nat) returns (c: nat)
    requires 0 < pos < TWO32 && |cols| < n && AllFree(n, cols, pos)
    ensures And(pos, (Not(pos) + 1) % TWO32) == Pow2(c) <= pos && c < n && Free(cols, c)
    ensures AllFree(n, cols, pos - Pow2(c))
    ensures Modulo(Counted(n, cols, pos - Pow2(c)))
            == (Modulo(Counted(n, cols, pos)) + Modulo(Completions(n, cols + [c]))) % TWO32
  {
    c := LowestMask(pos);
    CountMore(n, cols, pos, c);
    LessFree(n, cols, pos, c);
  }

  lemma AllCounted(n: nat, cols: seq<int>)
    requires |cols| < n
    ensures Counted(n, cols, 0) == Completions(n, cols)
  {
    forall b | b in Completions(n, cols) ensures b in Counted(n, cols, 0) {
      CompletionShape(n, cols, b);
      var c: int := b[|cols|];
      ZeroBit(c);
    }
  }

  lemma OnlyItself(n: nat, cols: seq<int>)
    requires |cols| == n && NonAttacking(cols) && forall i :: 0 <= i < n ==> 0 <= cols[i] < n
    ensures Completions(n, cols) == {cols} && Modulo(Completions(n, cols)) == 1
  {
    BoardsAre(n, n, cols);
    forall b | b in Completions(n, cols) ensures b == cols { BoardsAre(n, n, b); }
  }

  lemma OneShifted(k: nat)
    requires k < 32
    ensures Shl(1, k) == Pow2(k)
  {
    WordSizes();
    OneBitFits(k, 32);
  }

  // ----- the search

  class QueenBench {
    var full: nat
    var ans: nat

    /** A mask with one bit for each column, and no other: of all numbers, only Pow2(size) - 1 is that. */
    method Prepare(size: nat)
      requires size < 32
      modifies this
      ensures ans == 0 && full == Pow2(size) - 1 && forall c: nat :: Bit(full, c) <==> c < size
    {
      ans := 0;
      OneShifted(size);
      full := Shl(1, size) - 1;
      forall c: nat ensures Bit(full, c) <==> c < size { FullBit(size, c); }
    }

    /** Counts the ways to complete the placement that the masks stand for, modulo 2^32. */
    method Dfs(row: nat, ld: nat, rd: nat, ghost n: nat, ghost cols: seq<int>) returns (count: nat)
      requires full == Pow2(n) - 1 && Encodes(n, cols, row, ld, rd)
      ensures count == Modulo(Completions(n, cols))
      decreases n - |cols|, 1, 0
    {
      FullRow(n, cols, row, ld, rd);
      MasksFit(n, cols, row, ld, rd);
      if row == full {
        OnlyItself(n, cols);
        return 1;
      }
      var pos: nat := And(full, Not(Or(Or(row, ld), rd)));
      FreeSquares(n, cols, row, ld, rd, pos);
      count := 0;
      while pos != 0
        invariant pos < TWO32 && AllFree(n, cols, pos)
        invariant count == Modulo(Counted(n, cols, pos))
        decreases pos
      {
        pos, count := TryLowest(row, ld, rd, pos, count, n, cols);
      }
      AllCounted(n, cols);
    }

    /** One round of the loop: a queen on the lowest free column, and all that follows from it. */
    method TryLowest(row: nat, ld: nat, rd: nat, pos: nat, count: nat, ghost n: nat, ghost cols: seq<int>)
      returns (rest: nat, sum: nat)
      requires full == Pow2(n) - 1 && Encodes(n, cols, row, ld, rd) && |cols| < n
      requires 0 < pos < TWO32 && AllFree(n, cols, pos) && count == Modulo(Counted(n, cols, pos))
      ensures rest < pos && AllFree(n, cols, rest) && sum == Modulo(Counted(n, cols, rest))
      decreases n - |cols|, 0, pos
    {
      ghost var c := LowestColumn(n, cols, pos);
      var p := And(pos, (Not(pos) + 1) % TWO32);
      Placed(n, cols, row, ld, rd, c, p);
      rest := pos - p;
      var more := Dfs(Or(row, p), 2 * Or(ld, p) % TWO32, Or(rd, p) / 2, n, cols + [c]);
      sum := (count + more) % TWO32;
    }

    /** The benchmark counts the solutions of the puzzle, modulo 2^32. */
    method Run(ghost n: nat)
      requires n <= 32 && full == Pow2(n) - 1
      modifies this`ans
      ensures ans == Modulo(Solutions(n))
    {
      NothingPlaced(n);
      assert Completions(n, []) == Solutions(n);
      ans := Dfs(0, 0, 0, n, []);
    }
  }
}
