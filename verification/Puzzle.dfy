/** The sliding puzzle of puzzle.h on boards of every size: moves, and the tiles that a board shows. */
module Puzzle {
  import opened Arithmetic
  import opened Inversions
  import opened Pigeonhole

  /** The value that an int8_t keeps of x. */
  function Wrap8(x: int): int { (x + 128) % 256 - 128 }

  /** The value that a uint8_t keeps of x. */
  function Byte(x: int): nat { x % 256 }

  /** The place of tile v; a cell may hold a negative number, which C divides toward zero. */
  function Row(n: nat, v: int): int
    requires n > 0
  {
    TruncDiv(v - 1, n)
  }

  function Column(n: nat, v: int): int
    requires n > 0
  {
    TruncMod(v - 1, n)
  }

  /** How far tile v at row i and column j is from its place; the blank does not count. */
  function Distance(n: nat, v: int, i: int, j: int): nat
    requires n > 0
  {
    if v == 0 then 0 else Abs(Row(n, v) - i) + Abs(Column(n, v) - j)
  }

  /** Tile n * r + c + 1 belongs at row r and column c. */
  lemma DistanceOf(n: nat, r: nat, c: nat, i: int, j: int)
    requires r < n && c < n
    ensures Distance(n, n * r + c + 1, i, j) == (if r < i then i - r else r - i) + if c < j then j - c else c - j
    ensures Distance(n, 0, i, j) == 0
  {
    DivModUnique(n * r + c, n, r, c);
    assert n * r + c >= 0;
  }

  /** The distances of the first k tiles. */
  function Total(n: nat, tiles: seq<int>, k: nat): nat
    requires n > 0 && k <= |tiles|
  {
    if k == 0 then 0 else Total(n, tiles, k - 1) + Distance(n, tiles[k - 1], (k - 1) / n, (k - 1) % n)
  }

  function Distances(n: nat, tiles: seq<int>): nat
    requires n > 0
  {
    Total(n, tiles, |tiles|)
  }

  /** One round of determine_hash, on 32-bit words. */
  function Mix(hash: nat, v: int): nat { (hash * 1973 + v) % TWO32 }

  function HashOf(board: seq<int>): nat {
    if board == [] then 0 else Mix(HashOf(board[..|board| - 1]), board[|board| - 1])
  }

  /** 1973 to the power m. */
  ghost function HashFactor(m: nat): nat { if m == 0 then 1 else 1973 * HashFactor(m - 1) }

  /** The first k cells, each with a factor 1973 for every cell behind it. */
  ghost function HashSum(board: seq<int>, k: nat): int
    requires k <= |board|
  {
    if k == 0 then 0 else HashSum(board, k - 1) + board[k - 1] * HashFactor(|board| - k)
  }

  lemma {:induction false} HashSumNext(board: seq<int>, k: nat)
    requires board != [] && k < |board|
    ensures HashSum(board, k) == 1973 * HashSum(board[..|board| - 1], k)
  {
    if k > 0 {
      HashSumNext(board, k - 1);
      var v, factor := board[k - 1], HashFactor(|board| - k - 1);
      assert v * (1973 * factor) == 1973 * (v * factor);
    }
  }

  lemma MixReduced(sum: int, v: int)
    ensures Mix(sum % TWO32, v) == (1973 * sum + v) % TWO32
  {
    var q := sum / TWO32;
    var mixed := 1973 * (sum % TWO32) + v;
    DivModUnique(1973 * sum + v, TWO32, 1973 * q + mixed / TWO32, mixed % TWO32);
  }

  /** The hash in closed form. */
  lemma {:induction false} HashIsSum(board: seq<int>)
    ensures HashOf(board) == HashSum(board, |board|) % TWO32
  {
    if board != [] {
      var front := board[..|board| - 1];
      HashIsSum(front);
      HashSumNext(board, |front|);
      MixReduced(HashSum(front, |front|), board[|front|]);
      assert HashFactor(0) == 1;
    }
  }

  /** The board holds int8_t cells row by row, the coordinates of the blank are of type uint8_t. */
  datatype Puzzle = Puzzle(valid: bool, zeroI: int, zeroJ: int, manhattan: int, board: seq<int>, hash: nat)

  ghost predicate Shaped(n: nat, z: Puzzle) {
    1 <= n && |z.board| == n * n && 0 <= z.zeroI < n && 0 <= z.zeroJ < n && z.zeroI < 256 && z.zeroJ < 256
  }

  ghost predicate Permutation(tiles: seq<int>) {
    Distinct(tiles) && forall k :: 0 <= k < |tiles| ==> 0 <= tiles[k] < |tiles|
  }

  /** The cells in which the tiles are kept. */
  ghost function Stored(tiles: seq<int>): seq<int> {
    seq(|tiles|, k requires 0 <= k < |tiles| => Wrap8(tiles[k]))
  }

  /** The board of z stands for these tiles, each number once, with the blank where z says. */
  ghost predicate Shows(n: nat, z: Puzzle, tiles: seq<int>) {
    && Shaped(n, z) && z.valid && |tiles| == n * n && Permutation(tiles) && z.board == Stored(tiles)
    && 0 <= Cell(n, z.zeroI, z.zeroJ) < |tiles| && tiles[Cell(n, z.zeroI, z.zeroJ)] == 0
  }

  /** The stored distance and hash are those of the tiles and of the board. */
  ghost predicate Measured(n: nat, z: Puzzle, tiles: seq<int>)
    requires n > 0
  {
    z.manhattan == Wrap8(Distances(n, tiles)) && z.hash == HashOf(z.board)
  }

  // ----- the four moves

  predicate TileUpPossible(n: nat, z: Puzzle) { z.valid && z.zeroI != n - 1 }
  predicate TileDownPossible(n: nat, z: Puzzle) { z.valid && z.zeroI != 0 }
  predicate TileLeftPossible(n: nat, z: Puzzle) { z.valid && z.zeroJ != n - 1 }
  predicate TileRightPossible(n: nat, z: Puzzle) { z.valid && z.zeroJ != 0 }

  lemma ByteFits(n: nat, i: int)
    requires 0 <= i < n
    ensures 0 <= Byte(i) < n && Byte(i) < 256 && (i < 256 ==> Byte(i) == i)
  {
  }

  /** The copy of z in which the tile of row i and column j has gone to the blank, with the distance changed by d. */
  function Moved(n: nat, z: Puzzle, i: int, j: int, d: int): (y: Puzzle)
    requires Shaped(n, z) && 0 <= i < n && 0 <= j < n
    ensures Shaped(n, y)
  {
    CellFits(n, z.zeroI, z.zeroJ);
    CellFits(n, i, j);
    ByteFits(n, i);
    ByteFits(n, j);
    CellFits(n, Byte(i), Byte(j));
    var board := z.board[Cell(n, z.zeroI, z.zeroJ) := z.board[Cell(n, i, j)]][Cell(n, Byte(i), Byte(j)) := 0];
    z.(manhattan := Wrap8(z.manhattan + d), board := board, zeroI := Byte(i), zeroJ := Byte(j), hash := HashOf(board))
  }

  function TileAt(n: nat, z: Puzzle, i: int, j: int): int
    requires Shaped(n, z) && 0 <= i < n && 0 <= j < n
  {
    CellFits(n, i, j);
    z.board[Cell(n, i, j)]
  }

  function TileUp(n: nat, z: Puzzle): (y: Puzzle)
    requires z.valid ==> Shaped(n, z)
    ensures y.valid ==> Shaped(n, y)
  {
    if !z.valid then z
    else if z.zeroI == n - 1 then z.(valid := false)
    else
      var row := Row(n, TileAt(n, z, z.zeroI + 1, z.zeroJ));
      Moved(n, z, z.zeroI + 1, z.zeroJ, Abs(row - z.zeroI) - Abs(row - (z.zeroI + 1)))
  }

  function TileDown(n: nat, z: Puzzle): (y: Puzzle)
    requires z.valid ==> Shaped(n, z)
    ensures y.valid ==> Shaped(n, y)
  {
    if !z.valid then z
    else if z.zeroI == 0 then z.(valid := false)
    else
      var row := Row(n, TileAt(n, z, z.zeroI - 1, z.zeroJ));
      Moved(n, z, z.zeroI - 1, z.zeroJ, Abs(row - z.zeroI) - Abs(row - (z.zeroI - 1)))
  }

  function TileLeft(n: nat, z: Puzzle): (y: Puzzle)
    requires z.valid ==> Shaped(n, z)
    ensures y.valid ==> Shaped(n, y)
  {
    if !z.valid then z
    else if z.zeroJ == n - 1 then z.(valid := false)
    else
      var column := Column(n, TileAt(n, z, z.zeroI, z.zeroJ + 1));
      Moved(n, z, z.zeroI, z.zeroJ + 1, Abs(column - z.zeroJ) - Abs(column - (z.zeroJ + 1)))
  }

  function TileRight(n: nat, z: Puzzle): (y: Puzzle)
    requires z.valid ==> Shaped(n, z)
    ensures y.valid ==> Shaped(n, y)
  {
    if !z.valid then z
    else if z.zeroJ == 0 then z.(valid := false)
    else
      var column := Column(n, TileAt(n, z, z.zeroI, z.zeroJ - 1));
      Moved(n, z, z.zeroI, z.zeroJ - 1, Abs(column - z.zeroJ) - Abs(column - (z.zeroJ - 1)))
  }

  datatype Direction = Up | Down | Left | Right

  predicate Possible(n: nat, z: Puzzle, d: Direction) {
    match d
    case Up => TileUpPossible(n, z)
    case Down => TileDownPossible(n, z)
    case Left => TileLeftPossible(n, z)
    case Right => TileRightPossible(n, z)
  }

  function Move(n: nat, z: Puzzle, d: Direction): (y: Puzzle)
    requires z.valid ==> Shaped(n, z)
    ensures y.valid ==> Shaped(n, y)
  {
    match d
    case Up => TileUp(n, z)
    case Down => TileDown(n, z)
    case Left => TileLeft(n, z)
    case Right => TileRight(n, z)
  }

  function LowerBound(n: nat, z: Puzzle): int { if z.valid then z.manhattan else n * n * n }

  /**
   * A move is possible when the blank stays on the board, and then blank and neighbour change places: a tile goes up
   * when the blank goes down, and left when it goes right.
   */
  lemma MoveIs(n: nat, z: Puzzle, d: Direction)
    requires z.valid && Shaped(n, z) && n <= 256
    ensures var y := Move(n, z, d);
            var i := if d == Up then z.zeroI + 1 else if d == Down then z.zeroI - 1 else z.zeroI;
            var j := if d == Left then z.zeroJ + 1 else if d == Right then z.zeroJ - 1 else z.zeroJ;
            && (y.valid <==> 0 <= i < n && 0 <= j < n) && (y.valid <==> Possible(n, z, d))
            && (!y.valid ==> LowerBound(n, y) == n * n * n)
            && (y.valid ==>
                  && y.zeroI == i && y.zeroJ == j
                  && 0 <= n * z.zeroI + z.zeroJ < |z.board| && 0 <= n * i + j < |z.board|
                  && y.board == z.board[n * z.zeroI + z.zeroJ := z.board[n * i + j]][n * i + j := 0])
  {
    var i := if d == Up then z.zeroI + 1 else if d == Down then z.zeroI - 1 else z.zeroI;
    var j := if d == Left then z.zeroJ + 1 else if d == Right then z.zeroJ - 1 else z.zeroJ;
    CellFits(n, z.zeroI, z.zeroJ);
    if 0 <= i < n && 0 <= j < n {
      CellFits(n, i, j);
      ByteFits(n, i);
      ByteFits(n, j);
    }
  }

  // ----- solvability

  ghost function Entries(board: seq<int>): seq<int> {
    seq(|board|, k requires 0 <= k < |board| => if board[k] == 0 then |board| else board[k])
  }

  /** Inversions, and the distance of the blank from the last cell, are even together. */
  predicate Even(inversions: int, n: nat, i: int, j: int) { (inversions + 2 * n - 2 - i - j) % 2 == 0 }

  ghost predicate Solvable(n: nat, z: Puzzle) {
    z.valid && Even(Inverted(Entries(z.board)), n, z.zeroI, z.zeroJ)
  }

  /** The same of the tiles themselves. */
  ghost predicate Regular(n: nat, z: Puzzle, tiles: seq<int>) {
    Even(Inverted(Entries(tiles)), n, z.zeroI, z.zeroJ)
  }

  // ----- what one move does

  lemma {:induction false} TotalChanged(n: nat, tiles: seq<int>, p: nat, v: int, k: nat)
    requires n > 0 && p < |tiles| && k <= |tiles|
    ensures Total(n, tiles[p := v], k)
            == Total(n, tiles, k)
               + if p < k then Distance(n, v, p / n, p % n) - Distance(n, tiles[p], p / n, p % n) else 0
  {
    if k > 0 { TotalChanged(n, tiles, p, v, k - 1); }
  }

  /** The blank in p and the tile in q change places: only the tile's distance counts. */
  lemma ExchangeTotal(n: nat, tiles: seq<int>, p: nat, q: nat)
    requires n > 0 && p < |tiles| && q < |tiles| && p != q && tiles[p] == 0
    ensures Distances(n, Exchanged(tiles, p, q))
            == Distances(n, tiles) + Distance(n, tiles[q], p / n, p % n) - Distance(n, tiles[q], q / n, q % n)
  {
    TotalChanged(n, tiles, p, tiles[q], |tiles|);
    TotalChanged(n, tiles[p := tiles[q]], q, 0, |tiles|);
    assert tiles[p := tiles[q]][q := 0] == Exchanged(tiles, p, q);
  }

  lemma EntriesDiffer(tiles: seq<int>)
    requires Permutation(tiles)
    ensures Distinct(Entries(tiles))
  {
  }

  lemma ExchangePermutes(tiles: seq<int>, p: nat, q: nat)
    requires Permutation(tiles) && p < |tiles| && q < |tiles| && p != q
    ensures Permutation(Exchanged(tiles, p, q))
  {
    StillDifferent(tiles, p, q);
  }

  lemma ExchangeEntries(tiles: seq<int>, p: nat, q: nat)
    requires Permutation(tiles) && p < |tiles| && q < |tiles| && p != q
    ensures Flips(Entries(tiles), Entries(Exchanged(tiles, p, q)))
  {
    var i, j := if p < q then p else q, if p < q then q else p;
    var e := Entries(tiles);
    assert Exchanged(tiles, p, q) == Exchanged(tiles, i, j);
    EntriesDiffer(tiles);
    assert Entries(Exchanged(tiles, p, q)) == Exchanged(e, i, j);
    ExchangeFlips(e, i, j);
  }

  ghost predicate Neighbours(i: int, j: int, k: int, l: int) { Abs(i - k) + Abs(j - l) == 1 }

  /** The tiles after tile and blank have changed places. */
  ghost function Slid(n: nat, z: Puzzle, tiles: seq<int>, i: int, j: int): (now: seq<int>)
    requires Shaped(n, z) && |tiles| == n * n && 0 <= i < n && 0 <= j < n
    ensures |now| == |tiles|
  {
    CellFits(n, i, j);
    CellFits(n, z.zeroI, z.zeroJ);
    Exchanged(tiles, Cell(n, z.zeroI, z.zeroJ), Cell(n, i, j))
  }

  /** Sliding a neighbouring tile into the blank keeps every tile, exactly if the blank's new place fits a byte. */
  lemma SlidShows(n: nat, z: Puzzle, tiles: seq<int>, i: int, j: int, d: int)
    requires Shows(n, z, tiles) && 0 <= i < n && 0 <= j < n && Neighbours(i, j, z.zeroI, z.zeroJ)
    ensures Shows(n, Moved(n, z, i, j, d), Slid(n, z, tiles, i, j)) <==> i < 256 && j < 256
    ensures i < 256 && j < 256 ==> Moved(n, z, i, j, d).zeroI == i && Moved(n, z, i, j, d).zeroJ == j
  {
    CellFits(n, i, j);
    CellFits(n, z.zeroI, z.zeroJ);
    var p, q := Cell(n, z.zeroI, z.zeroJ), Cell(n, i, j);
    ExchangePermutes(tiles, p, q);
    ByteFits(n, i);
    ByteFits(n, j);
    if i < 256 && j < 256 {
      assert Moved(n, z, i, j, d).board == Stored(Exchanged(tiles, p, q));
    } else {
      CellFits(n, Byte(i), Byte(j));
      assert Cell(n, Byte(i), Byte(j)) != q;
    }
  }

  /** It turns the parity of the inversions, and that of the blank's place as well; only the tile's distance changes. */
  lemma SlidRegular(n: nat, z: Puzzle, tiles: seq<int>, i: int, j: int)
    requires Shows(n, z, tiles) && 0 <= i < n && 0 <= j < n && Neighbours(i, j, z.zeroI, z.zeroJ)
    ensures var now := Slid(n, z, tiles, i, j);
            Even(Inverted(Entries(now)), n, i, j) <==> Regular(n, z, tiles)
  {
    CellFits(n, i, j);
    CellFits(n, z.zeroI, z.zeroJ);
    var p, q := Cell(n, z.zeroI, z.zeroJ), Cell(n, i, j);
    ExchangeEntries(tiles, p, q);
    EvenKept(Inverted(Entries(tiles)), Inverted(Entries(Exchanged(tiles, p, q))), n, z.zeroI, z.zeroJ, i, j);
  }

  lemma SlidDistance(n: nat, z: Puzzle, tiles: seq<int>, i: int, j: int, v: int)
    requires Shows(n, z, tiles) && 0 <= i < n && 0 <= j < n && Neighbours(i, j, z.zeroI, z.zeroJ)
    requires 0 <= Cell(n, i, j) < |tiles| && v == tiles[Cell(n, i, j)]
    ensures v > 0 && Distances(n, Slid(n, z, tiles, i, j))
                     == Distances(n, tiles) + Distance(n, v, z.zeroI, z.zeroJ) - Distance(n, v, i, j)
  {
    CellFits(n, i, j);
    CellFits(n, z.zeroI, z.zeroJ);
    ExchangeTotal(n, tiles, Cell(n, z.zeroI, z.zeroJ), Cell(n, i, j));
  }

  lemma EvenKept(x: int, y: int, n: nat, i: int, j: int, k: int, l: int)
    requires x % 2 != y % 2 && Neighbours(i, j, k, l)
    ensures Even(x, n, i, j) <==> Even(y, n, k, l)
  {
  }

  lemma WrapSum(x: int, d: int)
    ensures Wrap8(Wrap8(x) + d) == Wrap8(x + d)
  {
  }

  // ----- any move, and any number of moves

  /** Which tile moves. */
  function Source(z: Puzzle, d: Direction): (int, int) {
    match d
    case Up => (z.zeroI + 1, z.zeroJ)
    case Down => (z.zeroI - 1, z.zeroJ)
    case Left => (z.zeroI, z.zeroJ + 1)
    case Right => (z.zeroI, z.zeroJ - 1)
  }

  /** By how much the blank's cell is further from the place of the number at i and j. */
  ghost predicate Nearer(n: nat, z: Puzzle, i: int, j: int, x: int)
    requires Shaped(n, z) && 0 <= i < n && 0 <= j < n
  {
    var v := TileAt(n, z, i, j); v != 0 ==> x == Distance(n, v, z.zeroI, z.zeroJ) - Distance(n, v, i, j)
  }

  lemma UpSlides(n: nat, z: Puzzle) returns (x: int)
    requires Shaped(n, z) && TileUpPossible(n, z)
    ensures TileUp(n, z) == Moved(n, z, z.zeroI + 1, z.zeroJ, x) && Nearer(n, z, z.zeroI + 1, z.zeroJ, x)
  {
    var row := Row(n, TileAt(n, z, z.zeroI + 1, z.zeroJ));
    x := Abs(row - z.zeroI) - Abs(row - (z.zeroI + 1));
  }

  lemma DownSlides(n: nat, z: Puzzle) returns (x: int)
    requires Shaped(n, z) && TileDownPossible(n, z)
    ensures TileDown(n, z) == Moved(n, z, z.zeroI - 1, z.zeroJ, x) && Nearer(n, z, z.zeroI - 1, z.zeroJ, x)
  {
    var row := Row(n, TileAt(n, z, z.zeroI - 1, z.zeroJ));
    x := Abs(row - z.zeroI) - Abs(row - (z.zeroI - 1));
  }

  lemma LeftSlides(n: nat, z: Puzzle) returns (x: int)
    requires Shaped(n, z) && TileLeftPossible(n, z)
    ensures TileLeft(n, z) == Moved(n, z, z.zeroI, z.zeroJ + 1, x) && Nearer(n, z, z.zeroI, z.zeroJ + 1, x)
  {
    var column := Column(n, TileAt(n, z, z.zeroI, z.zeroJ + 1));
    x := Abs(column - z.zeroJ) - Abs(column - (z.zeroJ + 1));
  }

  lemma RightSlides(n: nat, z: Puzzle) returns (x: int)
    requires Shaped(n, z) && TileRightPossible(n, z)
    ensures TileRight(n, z) == Moved(n, z, z.zeroI, z.zeroJ - 1, x) && Nearer(n, z, z.zeroI, z.zeroJ - 1, x)
  {
    var column := Column(n, TileAt(n, z, z.zeroI, z.zeroJ - 1));
    x := Abs(column - z.zeroJ) - Abs(column - (z.zeroJ - 1));
  }

  /** A move slides a neighbour of the blank, and counts how much closer its cell's number is to its place. */
  lemma MoveSlides(n: nat, z: Puzzle, d: Direction) returns (x: int)
    requires Shaped(n, z) && Possible(n, z, d)
    ensures var (i, j) := Source(z, d);
            && 0 <= i < n && 0 <= j < n && Neighbours(i, j, z.zeroI, z.zeroJ)
            && Move(n, z, d) == Moved(n, z, i, j, x) && Nearer(n, z, i, j, x)
  {
    match d
    case Up => x := UpSlides(n, z);
    case Down => x := DownSlides(n, z);
    case Left => x := LeftSlides(n, z);
    case Right => x := RightSlides(n, z);
  }

  /** Small tiles are kept as they are. */
  lemma TilesKept(n: nat, tiles: seq<int>)
    requires n <= 11 && |tiles| == n * n && Permutation(tiles)
    ensures Stored(tiles) == tiles
  {
    assert n * n <= 121;
  }

  lemma OneStep(n: nat, v: int, i: int, j: int, k: int, l: int)
    requires n > 0 && v > 0 && Neighbours(i, j, k, l)
    ensures Abs(Distance(n, v, i, j) - Distance(n, v, k, l)) == 1
  {
  }

  lemma MovedMeasured(n: nat, z: Puzzle, tiles: seq<int>, i: int, j: int, d: int, now: seq<int>)
    requires Shaped(n, z) && 0 <= i < n && 0 <= j < n && Measured(n, z, tiles)
    requires Distances(n, now) == Distances(n, tiles) + d
    ensures Measured(n, Moved(n, z, i, j, d), now)
  {
    WrapSum(Distances(n, tiles), d);
  }

  /** What a move keeps, and by how much it changes the true distance. */
  ghost predicate GoodMove(n: nat, z: Puzzle, tiles: seq<int>, y: Puzzle, now: seq<int>)
    requires n > 0
  {
    && Shows(n, y, now) && (Regular(n, y, now) <==> Regular(n, z, tiles))
    && Abs(Distances(n, now) - Distances(n, tiles)) == 1
    && (n <= 11 && Measured(n, z, tiles) ==> Measured(n, y, now))
  }

  /** The blank's next place fits its bytes, as all do up to 256 by 256. */
  predicate InReach(z: Puzzle, d: Direction) { Source(z, d).0 < 256 && Source(z, d).1 < 256 }

  /** The tiles after a move. */
  ghost function AfterMove(n: nat, z: Puzzle, tiles: seq<int>, d: Direction): (now: seq<int>)
    requires Shaped(n, z) && |tiles| == n * n && Possible(n, z, d)
    ensures |now| == |tiles|
  {
    Slid(n, z, tiles, Source(z, d).0, Source(z, d).1)
  }

  /** A legal move within reach moves one tile; up to 11 by 11 the stored distance follows. */
  lemma TileMoves(n: nat, z: Puzzle, tiles: seq<int>, d: Direction)
    requires Shows(n, z, tiles) && Possible(n, z, d)
    ensures Shows(n, Move(n, z, d), AfterMove(n, z, tiles, d)) <==> InReach(z, d)
    ensures InReach(z, d) ==> GoodMove(n, z, tiles, Move(n, z, d), AfterMove(n, z, tiles, d))
    ensures InReach(z, d) ==> (Move(n, z, d).zeroI, Move(n, z, d).zeroJ) == Source(z, d)
  {
    var x := MoveSlides(n, z, d);
    var (i, j) := Source(z, d);
    SlidShows(n, z, tiles, i, j, x);
    SlidRegular(n, z, tiles, i, j);
    NeighbourMoves(n, z, tiles, i, j, x);
  }

  /** The true distance changes by one; the stored one with it, if the cells hold the tiles as they are. */
  lemma NeighbourMoves(n: nat, z: Puzzle, tiles: seq<int>, i: int, j: int, x: int)
    requires Shows(n, z, tiles) && 0 <= i < n && 0 <= j < n && Neighbours(i, j, z.zeroI, z.zeroJ)
    requires Nearer(n, z, i, j, x)
    ensures var now := Slid(n, z, tiles, i, j);
            && Abs(Distances(n, now) - Distances(n, tiles)) == 1
            && (n <= 11 && Measured(n, z, tiles) ==> Measured(n, Moved(n, z, i, j, x), now))
  {
    CellFits(n, i, j);
    var v := tiles[Cell(n, i, j)];
    SlidDistance(n, z, tiles, i, j, v);
    OneStep(n, v, i, j, z.zeroI, z.zeroJ);
    if n <= 11 && Measured(n, z, tiles) {
      TilesKept(n, tiles);
      MovedMeasured(n, z, tiles, i, j, x, Slid(n, z, tiles, i, j));
    }
  }

  /** A sequence of moves, legal or not. */
  function Play(n: nat, z: Puzzle, moves: seq<Direction>): (y: Puzzle)
    requires z.valid ==> Shaped(n, z)
    ensures y.valid ==> Shaped(n, y)
  {
    if moves == [] then z else Move(n, Play(n, z, moves[..|moves| - 1]), moves[|moves| - 1])
  }

  /** Every move was possible when it was made. */
  predicate Legal(n: nat, z: Puzzle, moves: seq<Direction>)
    requires z.valid ==> Shaped(n, z)
  {
    moves == [] ||
    (Legal(n, z, moves[..|moves| - 1]) && Possible(n, Play(n, z, moves[..|moves| - 1]), moves[|moves| - 1]))
  }

  /** One impossible move makes the puzzle invalid for good, and nothing else does. */
  lemma {:induction false} ValidWhileLegal(n: nat, z: Puzzle, moves: seq<Direction>)
    requires Shaped(n, z) && z.valid
    ensures Play(n, z, moves).valid <==> Legal(n, z, moves)
  {
    if moves != [] { ValidWhileLegal(n, z, moves[..|moves| - 1]); }
  }

  /** Every move was possible and within reach when it was made. */
  predicate Inside(n: nat, z: Puzzle, moves: seq<Direction>)
    requires z.valid ==> Shaped(n, z)
  {
    moves == [] ||
    var before, d := moves[..|moves| - 1], moves[|moves| - 1];
    Inside(n, z, before) && Possible(n, Play(n, z, before), d) && InReach(Play(n, z, before), d)
  }

  /** Up to 256 by 256 all legal moves are. */
  lemma {:induction false} LegalIsInside(n: nat, z: Puzzle, moves: seq<Direction>)
    requires n <= 256 && (z.valid ==> Shaped(n, z))
    ensures Inside(n, z, moves) <==> Legal(n, z, moves)
  {
    if moves != [] { LegalIsInside(n, z, moves[..|moves| - 1]); }
  }

  /** The tiles after a sequence of moves. */
  ghost function TilesAfter(n: nat, z: Puzzle, tiles: seq<int>, moves: seq<Direction>): (now: seq<int>)
    requires (z.valid ==> Shaped(n, z)) && |tiles| == n * n && Inside(n, z, moves)
    ensures |now| == |tiles|
  {
    if moves == [] then tiles
    else
      var before := moves[..|moves| - 1];
      AfterMove(n, Play(n, z, before), TilesAfter(n, z, tiles, before), moves[|moves| - 1])
  }

  /** Any number of moves keeps the tiles and their regularity; each brings the distance down by at most one. */
  lemma {:induction false} PlayKeeps(n: nat, z: Puzzle, tiles: seq<int>, moves: seq<Direction>)
    requires Shows(n, z, tiles) && Inside(n, z, moves)
    ensures var y, now := Play(n, z, moves), TilesAfter(n, z, tiles, moves);
            && Shows(n, y, now) && (Regular(n, y, now) <==> Regular(n, z, tiles))
            && Distances(n, tiles) <= Distances(n, now) + |moves|
            && (n <= 11 && Measured(n, z, tiles) ==> Measured(n, y, now))
  {
    if moves != [] {
      var before := moves[..|moves| - 1];
      PlayKeeps(n, z, tiles, before);
      TileMoves(n, Play(n, z, before), TilesAfter(n, z, tiles, before), moves[|moves| - 1]);
    }
  }

  // ----- the solution

  ghost function SolvedTiles(n: nat): seq<int> {
    seq(n * n, k requires 0 <= k < n * n => if k == n * n - 1 then 0 else k + 1)
  }

  lemma TileInPlace(n: nat, k: nat)
    requires 0 < n
    ensures Distance(n, k + 1, k / n, k % n) == 0
  {
  }

  lemma {:induction false} NothingToGo(n: nat, k: nat)
    requires 0 < n && k <= |SolvedTiles(n)|
    ensures Total(n, SolvedTiles(n), k) == 0
  {
    if k > 0 {
      NothingToGo(n, k - 1);
      TileInPlace(n, k - 1);
    }
  }

  lemma LastCell(n: nat, i: int, j: int)
    requires n > 0 && 0 <= i < n && 0 <= j < n && Cell(n, i, j) == n * n - 1
    ensures i == n - 1 && j == n - 1
  {
    MulSum(n, n, -1);
    CellFits(n, n - 1, n - 1);
    CellFits(n, i, j);
  }

  /** The solution has nothing to go and is regular. */
  lemma SolutionIsRegular(n: nat, z: Puzzle)
    requires Shows(n, z, SolvedTiles(n))
    ensures Regular(n, z, SolvedTiles(n)) && Distances(n, SolvedTiles(n)) == 0
  {
    NothingToGo(n, n * n);
    AscendingHasNone(Entries(SolvedTiles(n)));
    LastCell(n, z.zeroI, z.zeroJ);
  }

  // ----- how far the stored distance can be trusted

  /** The stored distance is the true one exactly while that fits an int8_t, and never more. */
  lemma StoredDistance(n: nat, z: Puzzle, tiles: seq<int>)
    requires n > 0 && Measured(n, z, tiles)
    ensures z.manhattan == Distances(n, tiles) <==> Distances(n, tiles) <= 127
    ensures z.manhattan <= Distances(n, tiles)
  {
  }
}
