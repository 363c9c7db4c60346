/** What int8_t cells and uint8_t coordinates mean for boards of each size. */
module PuzzleCells {
  import opened Arithmetic
  import opened BitOperations
  import opened Inversions
  import opened Pigeonhole
  import opened Puzzle

  // ----- which tiles the cells can hold

  /** The cells hold the tiles themselves on boards up to 11 by 11; beyond that, tile 143 is stored as -113. */
  lemma CellsKept(n: nat, tiles: seq<int>)
    requires |tiles| == n * n && Permutation(tiles)
    ensures Stored(tiles) == tiles <==> n <= 11
    ensures n >= 12 ==> exists k :: 0 <= k < |tiles| && tiles[k] == 143 && Stored(tiles)[k] == -113
  {
    if n <= 11 {
      TilesKept(n, tiles);
    } else {
      AreaAtLeast(n, 12);
      Surjective(tiles, n * n);
      assert 143 in tiles;
      var k :| 0 <= k < |tiles| && tiles[k] == 143;
      assert Stored(tiles)[k] == -113;
    }
  }

  lemma AreaAtLeast(n: nat, m: nat)
    requires n >= m
    ensures n * n >= m * m
  {
    if n > m {
      MulAtMost(m, m, n);
      MulAtMost(n, m, n);
      assert m * n == n * m;
    }
  }

  lemma WrapSame(a: int, b: int)
    requires 0 <= a < 256 && 0 <= b < 256
    ensures Wrap8(a) == Wrap8(b) <==> a == b
  {
  }

  /** Different tiles have different cells exactly up to 16 by 16; on larger boards tile 256 looks like the blank. */
  lemma CellsDiffer(n: nat, tiles: seq<int>)
    requires |tiles| == n * n && Permutation(tiles)
    ensures Distinct(Stored(tiles)) <==> n <= 16
  {
    if n <= 16 {
      AreaAtLeast(16, n);
      forall k, l | 0 <= k < l < |tiles| ensures Stored(tiles)[k] != Stored(tiles)[l] {
        WrapSame(tiles[k], tiles[l]);
      }
    } else {
      AreaAtLeast(n, 17);
      Surjective(tiles, n * n);
      assert 0 in tiles && 256 in tiles;
      var k :| 0 <= k < |tiles| && tiles[k] == 0;
      var l :| 0 <= l < |tiles| && tiles[l] == 256;
      assert Stored(tiles)[k] == Stored(tiles)[l] == 0;
    }
  }

  /** Up to 16 by 16 the cells tell which tiles they stand for. */
  lemma SameTiles(n: nat, a: seq<int>, b: seq<int>)
    requires n <= 16 && |a| == |b| == n * n && Permutation(a) && Permutation(b) && Stored(a) == Stored(b)
    ensures a == b
  {
    AreaAtLeast(16, n);
    forall k | 0 <= k < |a| ensures a[k] == b[k] {
      assert Stored(a)[k] == Wrap8(a[k]) && Stored(b)[k] == Wrap8(b[k]);
      WrapSame(a[k], b[k]);
    }
  }

  /** Then equal boards of measured puzzles have all fields equal, so comparing boards loses nothing. */
  lemma BoardDeterminesPuzzle(n: nat, y: Puzzle, z: Puzzle, a: seq<int>, b: seq<int>)
    requires n <= 16 && Shows(n, y, a) && Shows(n, z, b) && Measured(n, y, a) && Measured(n, z, b) && y.board == z.board
    ensures y == z
  {
    SameTiles(n, a, b);
    CellFits(n, y.zeroI, y.zeroJ);
    CellFits(n, z.zeroI, z.zeroJ);
  }

  // ----- what the constructor makes

  ghost predicate BlankAt(n: nat, tiles: seq<int>, i: nat, j: nat) {
    i < n && j < n && 0 <= Cell(n, i, j) < |tiles| && tiles[Cell(n, i, j)] == 0
  }

  /** Its board, distance and hash are right; the blank's row and column go into a byte each. */
  ghost predicate Made(n: nat, z: Puzzle, tiles: seq<int>) {
    && Shaped(n, z) && z.valid && |tiles| == n * n && Permutation(tiles)
    && z.board == Stored(tiles) && Measured(n, z, tiles)
    && exists i: nat, j: nat :: BlankAt(n, tiles, i, j) && z.zeroI == Byte(i) && z.zeroJ == Byte(j)
  }

  /** It shows the tiles exactly when these bytes can hold the place of the blank. */
  lemma MadeShows(n: nat, z: Puzzle, tiles: seq<int>, i: nat, j: nat)
    requires Made(n, z, tiles) && BlankAt(n, tiles, i, j)
    ensures Shows(n, z, tiles) <==> i < 256 && j < 256
  {
    var k: nat, l: nat :| BlankAt(n, tiles, k, l) && z.zeroI == Byte(k) && z.zeroJ == Byte(l);
    CellFits(n, i, j);
    CellFits(n, k, l);
    CellFits(n, z.zeroI, z.zeroJ);
    ByteFits(n, i);
    ByteFits(n, j);
  }

  lemma SmallMadeShows(n: nat, z: Puzzle, tiles: seq<int>)
    requires Made(n, z, tiles) && n <= 256
    ensures Shows(n, z, tiles)
  {
    var i: nat, j: nat :| BlankAt(n, tiles, i, j) && z.zeroI == Byte(i) && z.zeroJ == Byte(j);
    MadeShows(n, z, tiles, i, j);
  }

  // ----- the parity of the cells

  /** An entry as its cell holds it: from 128 on it is negative; the last one stands for the blank. */
  function Turned(m: nat, v: int): int { if 128 <= v < m then v - 256 else v }

  ghost predicate AllTurned(s: seq<int>, t: seq<int>, m: nat) {
    128 <= m <= 256 && |s| == |t| && forall k :: 0 <= k < |s| ==> 1 <= s[k] <= m && t[k] == Turned(m, s[k])
  }

  lemma {:induction false} SmallerTurned(s: seq<int>, t: seq<int>, m: nat, h: int)
    requires AllTurned(s, t, m) && 1 <= h <= m
    ensures Smaller(t, Turned(m, h)) == if h < 128 then Smaller(s, h) + Smaller(s, m) - Smaller(s, 128)
                                        else if h < m then Smaller(s, h) - Smaller(s, 128) else Smaller(s, m)
  {
    if s != [] { SmallerTurned(s[1..], t[1..], m, h); }
  }

  /** Each pair of an entry below 128 and a higher one is inverted in exactly one of the two sequences. */
  /** How many entries lie between 128 and m. */
  ghost function Higher(s: seq<int>, m: nat): nat {
    if s == [] then 0 else (if 128 <= s[0] < m then 1 else 0) + Higher(s[1..], m)
  }

  lemma {:induction false} SmallerSplit(s: seq<int>, m: nat)
    requires m >= 128
    ensures Smaller(s, m) == Smaller(s, 128) + Higher(s, m)
  {
    if s != [] { SmallerSplit(s[1..], m); }
  }

  lemma {:induction false} TurnedPairs(s: seq<int>, t: seq<int>, m: nat) returns (half: int)
    requires AllTurned(s, t, m)
    ensures Inverted(s) + Inverted(t) + Times(Smaller(s, 128), Higher(s, m)) == 2 * half
  {
    half := 0;
    if s != [] {
      var low, high, pairs := Smaller(s[1..], 128), Higher(s[1..], m), Smaller(s[1..], s[0]);
      half := TurnedPairs(s[1..], t[1..], m);
      SmallerTurned(s[1..], t[1..], m, s[0]);
      SmallerSplit(s[1..], m);
      OneMore(low, high);
      half := half + pairs + if s[0] < 128 then high else 0;
    }
  }

  lemma OneMore(a: nat, b: nat)
    ensures Times(a + 1, b) == Times(a, b) + b && Times(a, b + 1) == Times(a, b) + a
  {
  }

  lemma {:induction false} SmallerCount(s: seq<int>, x: int)
    requires Distinct(s)
    ensures Smaller(s, x) == |set v | v in s && v < x|
  {
    if s != [] {
      SmallerCount(s[1..], x);
      var rest := set v | v in s[1..] && v < x;
      assert s[0] !in s[1..];
      assert (set v | v in s && v < x) == if s[0] < x then rest + {s[0]} else rest;
    }
  }

  lemma EntriesBelow(tiles: seq<int>, x: nat)
    requires Permutation(tiles) && 1 <= x <= |tiles|
    ensures Smaller(Entries(tiles), x) == x - 1
  {
    var e := Entries(tiles);
    EntriesDiffer(tiles);
    SmallerCount(e, x);
    Surjective(tiles, |tiles|);
    forall v | 1 <= v < x ensures v in e {
      assert v in tiles;
      var k :| 0 <= k < |tiles| && tiles[k] == v;
      assert e[k] == v;
    }
    assert (set v | v in e && v < x) == Below(x) - {0};
  }

  /** The inversions of the cells are even with those of the tiles, except on boards of odd size from 13 on. */
  lemma CellParity(n: nat, tiles: seq<int>)
    requires n <= 16 && |tiles| == n * n && Permutation(tiles)
    ensures Flips(Entries(tiles), Entries(Stored(tiles))) <==> n == 13 || n == 15
  {
    var e, t, m := Entries(tiles), Entries(Stored(tiles)), n * n;
    if n <= 11 {
      TilesKept(n, tiles);
    } else {
      AreaAtLeast(16, n);
      AreaAtLeast(n, 12);
      forall k | 0 <= k < m ensures 1 <= e[k] <= m && t[k] == Turned(m, e[k]) {
        assert Stored(tiles)[k] == Wrap8(tiles[k]);
      }
      var half := TurnedPairs(e, t, m);
      EntriesBelow(tiles, 128);
      EntriesBelow(tiles, m);
      SmallerSplit(e, m);
      PairsParity(n);
    }
  }

  lemma PairsParity(n: nat)
    requires 12 <= n <= 16
    ensures n * n >= 128 && Times(127, n * n - 128) % 2 == n % 2
  {
    assert n == 12 || n == 13 || n == 14 || n == 15 || n == 16;
  }

  /** Up to 16 by 16, solvable() tells whether the tiles are regular; at 13 and 15 it says the opposite. */
  lemma SolvableMeans(n: nat, z: Puzzle, tiles: seq<int>)
    requires n <= 16 && Shows(n, z, tiles)
    ensures Solvable(n, z) <==> (Regular(n, z, tiles) <==> n != 13 && n != 15)
  {
    CellParity(n, tiles);
    EvenTogether(Inverted(Entries(tiles)), Inverted(Entries(z.board)), n, z.zeroI, z.zeroJ);
  }

  lemma EvenTogether(x: int, y: int, n: nat, i: int, j: int)
    ensures (Even(x, n, i, j) <==> Even(y, n, i, j)) <==> x % 2 == y % 2
  {
  }

  /** Up to 16 by 16, legal moves keep what solvable() says. */
  lemma PlayKeepsSolvable(n: nat, z: Puzzle, tiles: seq<int>, moves: seq<Direction>)
    requires n <= 16 && Shows(n, z, tiles) && Legal(n, z, moves)
    ensures Solvable(n, Play(n, z, moves)) <==> Solvable(n, z)
  {
    LegalIsInside(n, z, moves);
    PlayKeeps(n, z, tiles, moves);
    SolvableMeans(n, z, tiles);
    SolvableMeans(n, Play(n, z, moves), TilesAfter(n, z, tiles, moves));
  }

  /** Twice exchanged tiles of the solution. */
  ghost function Rearranged(n: nat, p: nat, q: nat, r: nat, s: nat): seq<int>
    requires p < n * n && q < n * n && r < n * n && s < n * n
  {
    Exchanged(Exchanged(SolvedTiles(n), p, q), r, s)
  }

  /** The blank in the first cell, tile 256 beside it. */
  lemma BlankBeside256(n: nat) returns (tiles: seq<int>)
    requires n >= 17
    ensures |tiles| == n * n >= 289 && Permutation(tiles) && tiles[0] == 0 && tiles[1] == 256
    ensures Stored(tiles)[0] == Stored(tiles)[1] == 0
  {
    AreaAtLeast(n, 17);
    var last := n * n - 1;
    tiles := Rearranged(n, 0, last, 1, 255);
    ExchangePermutes(SolvedTiles(n), 0, last);
    ExchangePermutes(Exchanged(SolvedTiles(n), 0, last), 1, 255);
  }

  /** On all larger boards there is a legal move that turns it, and that leaves every cell as it was. */
  lemma FlipsFrom17(n: nat) returns (z: Puzzle, tiles: seq<int>)
    requires n >= 17
    ensures Shows(n, z, tiles) && Measured(n, z, tiles) && Possible(n, z, Left)
    ensures var y := Move(n, z, Left);
            y.valid && y != z && y.board == z.board && (Solvable(n, y) <==> !Solvable(n, z))
  {
    tiles := BlankBeside256(n);
    var board := Stored(tiles);
    z := Puzzle(true, 0, 0, Wrap8(Distances(n, tiles)), board, HashOf(board));
    assert Cell(n, 0, 0) == 0 && Cell(n, 0, 1) == 1;
    var x := MoveSlides(n, z, Left);
    assert Moved(n, z, 0, 1, x).board == board;
    EvenShifted(Inverted(Entries(board)), n);
  }

  lemma EvenShifted(x: int, n: nat)
    ensures Even(x, n, 0, 0) <==> !Even(x, n, 0, 1)
  {
  }

  // ----- reaching the solution

  /** The solution is regular and has nothing to go; up to 16 by 16 it passes the test, except at 13 and 15. */
  lemma SolutionIsSolvable(n: nat, z: Puzzle)
    requires Shows(n, z, SolvedTiles(n))
    ensures Regular(n, z, SolvedTiles(n)) && Distances(n, SolvedTiles(n)) == 0
    ensures n <= 16 ==> (Solvable(n, z) <==> n != 13 && n != 15)
  {
    SolutionIsRegular(n, z);
    if n <= 16 { SolvableMeans(n, z, SolvedTiles(n)); }
  }

  /**
   * Whatever can reach the tiles of the solution is regular, and needs at least as many moves as its tiles are away,
   * and as the lower bound if that was measured.
   */
  lemma ReachesSolution(n: nat, z: Puzzle, tiles: seq<int>, moves: seq<Direction>)
    requires Shows(n, z, tiles) && Inside(n, z, moves) && TilesAfter(n, z, tiles, moves) == SolvedTiles(n)
    ensures Regular(n, z, tiles) && Distances(n, tiles) <= |moves|
    ensures Measured(n, z, tiles) ==> LowerBound(n, z) <= |moves|
  {
    PlayKeeps(n, z, tiles, moves);
    SolutionIsRegular(n, Play(n, z, moves));
    if Measured(n, z, tiles) { StoredDistance(n, z, tiles); }
  }

  /** Up to 16 by 16 it is enough to reach the cells of the solution; then the test passes whenever it does there. */
  lemma ReachesSolvedCells(n: nat, z: Puzzle, tiles: seq<int>, moves: seq<Direction>)
    requires n <= 16 && Shows(n, z, tiles)
    requires Play(n, z, moves).valid && Play(n, z, moves).board == Stored(SolvedTiles(n))
    ensures Inside(n, z, moves) && TilesAfter(n, z, tiles, moves) == SolvedTiles(n)
    ensures Solvable(n, z) <==> n != 13 && n != 15
  {
    ValidWhileLegal(n, z, moves);
    LegalIsInside(n, z, moves);
    PlayKeeps(n, z, tiles, moves);
    SameTiles(n, TilesAfter(n, z, tiles, moves), SolvedTiles(n));
    ReachesSolution(n, z, tiles, moves);
    SolvableMeans(n, z, tiles);
  }

  /**
   * On all larger boards it is not: with tiles 1 and 257 exchanged the cells are those of the solution. At 17 by 17
   * they are 32 away, and so is the lower bound.
   */
  lemma CellsMisleadFrom17(n: nat) returns (z: Puzzle, tiles: seq<int>)
    requires 17 <= n <= 256
    ensures Shows(n, z, tiles) && Measured(n, z, tiles) && z.board == Stored(SolvedTiles(n))
    ensures Distances(n, tiles) > 0 && (n == 17 ==> LowerBound(n, z) == 32)
  {
    AreaAtLeast(n, 17);
    tiles := Exchanged(SolvedTiles(n), 0, 256);
    ExchangePermutes(SolvedTiles(n), 0, 256);
    SameCells(SolvedTiles(n), 0, 256);
    FarApart(n);
    CellFits(n, n - 1, n - 1);
    MulSum(n, n, -1);
    z := Puzzle(true, n - 1, n - 1, Wrap8(Distances(n, tiles)), Stored(tiles), HashOf(Stored(tiles)));
  }

  lemma SameCells(tiles: seq<int>, p: nat, q: nat)
    requires p < |tiles| && q < |tiles| && Wrap8(tiles[p]) == Wrap8(tiles[q])
    ensures Stored(Exchanged(tiles, p, q)) == Stored(tiles)
  {
  }

  lemma PlaceOf257(n: nat)
    requires n >= 17
    ensures Distance(n, 257, 0, 0) == Distance(n, 1, 256 / n, 256 % n) == 256 / n + 256 % n > 0
    ensures n == 17 ==> Distance(n, 257, 0, 0) == 16
  {
    assert Row(n, 1) == 0 && Column(n, 1) == 0 && Row(n, 257) == 256 / n && Column(n, 257) == 256 % n;
    if 256 / n == 0 { assert 256 % n == 256; }
  }

  lemma FarApart(n: nat)
    requires n >= 17 && n * n >= 289
    ensures Distances(n, Exchanged(SolvedTiles(n), 0, 256)) == 2 * Distance(n, 257, 0, 0) > 0
    ensures n == 17 ==> Distance(n, 257, 0, 0) == 16
  {
    var t := SolvedTiles(n);
    NothingToGo(n, n * n);
    TotalChanged(n, t, 0, 257, n * n);
    TotalChanged(n, t[0 := 257], 256, 1, n * n);
    assert t[0 := 257][256 := 1] == Exchanged(t, 0, 256);
    TileInPlace(n, 0);
    TileInPlace(n, 256);
    PlaceOf257(n);
  }
}
