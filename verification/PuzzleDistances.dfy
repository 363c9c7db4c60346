/** How large the sum of the distances can be, and where the stored one goes wrong. */
module PuzzleDistances {
  import opened Arithmetic
  import opened Inversions
  import opened Pigeonhole
  import opened Puzzle
  import opened PuzzleCells

  // ----- boards up to 5 by 5

  lemma {:induction false} TotalBound(n: nat, tiles: seq<int>, k: nat, far: nat)
    requires 0 < n && k <= |tiles| && far == 2 * (n - 1)
    requires forall p :: 0 <= p < |tiles| ==> Distance(n, tiles[p], p / n, p % n) <= far
    ensures Total(n, tiles, k) <= far * k
  {
    if k > 0 {
      TotalBound(n, tiles, k - 1, far);
      MulSum(far, k - 1, 1);
    }
  }

  lemma DistanceBound(n: nat, v: int, p: nat)
    requires 0 < n && 0 <= v < n * n && p < n * n
    ensures Distance(n, v, p / n, p % n) <= 2 * (n - 1)
  {
    RowFits(n, p);
    if v > 0 { RowFits(n, v - 1); }
  }

  lemma SmallProduct(n: nat, far: nat, area: nat)
    requires 1 <= n <= 4 && far == 2 * (n - 1) && area == n * n
    ensures far * area <= 127
  {
  }

  /** How far a cell of a 5 by 5 board is from the one in the middle. */
  function FromCentre(p: nat): nat { Abs(p / 5 - 2) + Abs(p % 5 - 2) }

  function Weight(v: nat): nat { if v == 0 then 0 else FromCentre(v - 1) }

  /** The sum of w over a sequence. */
  ghost function Weights(w: nat -> nat, s: seq<nat>): nat {
    if s == [] then 0 else Weights(w, s[..|s| - 1]) + w(s[|s| - 1])
  }

  ghost function Without(s: seq<nat>, x: nat): seq<nat>
    requires x < |s|
  {
    s[..x] + s[x + 1..]
  }

  lemma {:induction false} WeightRemoved(w: nat -> nat, s: seq<nat>, x: nat)
    requires x < |s|
    ensures Weights(w, s) == Weights(w, Without(s, x)) + w(s[x])
  {
    var m := |s| - 1;
    if x < m {
      WeightRemoved(w, s[..m], x);
      assert Without(s, x)[..m - 1] == Without(s[..m], x);
    } else {
      assert Without(s, x) == s[..m];
    }
  }

  lemma OthersBelow(s: seq<nat>, x: nat, k: nat)
    requires |s| == k && Distinct(s) && x < k && s[x] == k - 1 && forall p :: 0 <= p < k ==> s[p] < k
    ensures var rest := Without(s, x); Distinct(rest) && forall p :: 0 <= p < k - 1 ==> rest[p] < k - 1
  {
    var rest := Without(s, x);
    forall p | 0 <= p < k - 1 ensures rest[p] < k - 1 {
      assert rest[p] == s[if p < x then p else p + 1];
    }
  }

  /** The sum of w over the numbers below k. */
  function AllWeights(w: nat -> nat, k: nat): nat { if k == 0 then 0 else AllWeights(w, k - 1) + w(k - 1) }

  lemma LargestAt(s: seq<nat>, k: nat) returns (x: nat)
    requires |s| == k > 0 && Distinct(s) && forall p :: 0 <= p < k ==> s[p] < k
    ensures x < k && s[x] == k - 1
  {
    Surjective(s, k);
    assert k - 1 in s;
    x :| x < k && s[x] == k - 1;
  }

  /** Different numbers below k weigh what all the numbers below k do. */
  lemma {:induction false} PermutedWeights(w: nat -> nat, s: seq<nat>, k: nat)
    requires |s| == k && Distinct(s) && forall p :: 0 <= p < k ==> s[p] < k
    ensures Weights(w, s) == AllWeights(w, k)
  {
    if k > 0 {
      var x := LargestAt(s, k);
      WeightRemoved(w, s, x);
      OthersBelow(s, x, k);
      PermutedWeights(w, Without(s, x), k - 1);
    }
  }

  /** Weights moved up by one. */
  lemma {:induction false} ShiftedWeights(w: nat -> nat, v: nat -> nat, k: nat)
    requires w(0) == 0 && forall i: nat {:trigger v(i)} :: w(i + 1) == v(i)
    ensures AllWeights(w, k + 1) == AllWeights(v, k)
  {
    if k > 0 {
      ShiftedWeights(w, v, k - 1);
      assert v(k - 1) == w(k);
    }
  }

  lemma ViaCentre(v: nat, p: nat)
    ensures Distance(5, v, p / 5, p % 5) <= Weight(v) + FromCentre(p)
  {
  }

  /** No way is longer than the one through the middle. */
  lemma {:induction false} ThroughCentre(tiles: seq<nat>, k: nat)
    requires k <= |tiles|
    ensures Total(5, tiles, k) <= Weights(Weight, tiles[..k]) + AllWeights(FromCentre, k)
  {
    if k > 0 {
      ThroughCentre(tiles, k - 1);
      assert tiles[..k][..k - 1] == tiles[..k - 1];
      ViaCentre(tiles[k - 1], k - 1);
    }
  }

  lemma OneFurther(i: nat, j: nat, k: nat)
    requires j < 5 && k == 5 * i + j
    ensures AllWeights(FromCentre, k + 1) == AllWeights(FromCentre, k) + Abs(i - 2) + Abs(j - 2)
  {
    Digits(i, j, 5);
  }

  lemma CentreRow(i: nat, k: nat)
    requires k == 5 * i
    ensures AllWeights(FromCentre, k + 5) == AllWeights(FromCentre, k) + 5 * Abs(i - 2) + 6
  {
    OneFurther(i, 0, k);
    OneFurther(i, 1, k + 1);
    OneFurther(i, 2, k + 2);
    OneFurther(i, 3, k + 3);
    OneFurther(i, 4, k + 4);
  }

  /** The sums of one row more, up to all five. */
  lemma {:induction false} CentreRows(i: nat)
    requires i <= 5
    ensures AllWeights(FromCentre, 5 * i)
            == 16 * i - if i <= 1 then 0 else if i == 2 then 5 else if i == 3 then 15 else 20
  {
    if i > 0 {
      CentreRows(i - 1);
      CentreRow(i - 1, 5 * (i - 1));
    }
  }

  lemma FiveByFive(tiles: seq<nat>, i: nat)
    requires |tiles| == 5 * i && 4 < i < 6 && Permutation(tiles)
    ensures Distances(5, tiles) <= 120
  {
    PermutedWeights(Weight, tiles, |tiles|);
    ShiftedWeights(Weight, FromCentre, |tiles| - 1);
    ThroughCentre(tiles, |tiles|);
    assert tiles[..|tiles|] == tiles;
    CentreRows(i);
  }

  /** On boards up to 5 by 5 every distance fits an int8_t. */
  lemma FitsUpTo5(n: nat, tiles: seq<int>)
    requires 1 <= n <= 5 && |tiles| == n * n && Permutation(tiles)
    ensures Distances(n, tiles) <= 127
  {
    if n == 5 {
      FiveByFive(tiles, 5);
    } else {
      forall p | 0 <= p < |tiles| ensures Distance(n, tiles[p], p / n, p % n) <= 2 * (n - 1) {
        DistanceBound(n, tiles[p], p);
      }
      TotalBound(n, tiles, |tiles|, 2 * (n - 1));
      SmallProduct(n, 2 * (n - 1), |tiles|);
    }
  }

  // ----- larger boards

  /** Half the board further, around the edge. */
  function Across(n: nat, i: int): (k: int)
    requires n >= 6
    ensures 0 <= i < n ==> 0 <= k < n && Abs(k - i) >= 3
  {
    if i + n / 2 < n then i + n / 2 else i + n / 2 - n
  }

  function FarCell(n: nat, p: nat): int
    requires n >= 6
  {
    Cell(n, Across(n, p / n), Across(n, p % n))
  }

  lemma FarCellPlace(n: nat, p: nat)
    requires n >= 6 && p < n * n
    ensures var c := FarCell(n, p); 0 <= c < n * n && c / n == Across(n, p / n) && c % n == Across(n, p % n)
  {
    RowFits(n, p);
    CellFits(n, Across(n, p / n), Across(n, p % n));
  }

  /** Every tile half the board from its place, in rows and in columns. */
  ghost function FarTiles(n: nat): seq<int>
    requires n >= 6
  {
    seq(n * n, p requires 0 <= p < n * n => if FarCell(n, p) == n * n - 1 then 0 else FarCell(n, p) + 1)
  }

  lemma FarCellsDiffer(n: nat, p: nat, q: nat)
    requires n >= 6 && p < q < n * n
    ensures FarCell(n, p) != FarCell(n, q) && 0 <= FarCell(n, p) < n * n && 0 <= FarCell(n, q) < n * n
  {
    FarCellPlace(n, p);
    FarCellPlace(n, q);
    RowFits(n, p);
    RowFits(n, q);
  }

  lemma FarPermutes(n: nat)
    requires n >= 6
    ensures Permutation(FarTiles(n))
  {
    forall p | 0 <= p < n * n ensures 0 <= FarTiles(n)[p] < n * n { FarCellPlace(n, p); }
    forall p, q | 0 <= p < q < n * n ensures FarTiles(n)[p] != FarTiles(n)[q] {
      FarCellsDiffer(n, p, q);
    }
  }

  lemma FarTile(n: nat, p: nat)
    requires n >= 6 && p < n * n && FarTiles(n)[p] != 0
    ensures Distance(n, FarTiles(n)[p], p / n, p % n) >= 6
  {
    FarCellPlace(n, p);
    RowFits(n, p);
  }

  lemma OneMoreTile(tiles: seq<int>, k: nat)
    requires 0 < k <= |tiles| && Distinct(tiles)
    ensures 0 in tiles[..k] <==> 0 in tiles[..k - 1] || tiles[k - 1] == 0
    ensures tiles[k - 1] == 0 ==> 0 !in tiles[..k - 1]
  {
    assert tiles[..k] == tiles[..k - 1] + [tiles[k - 1]];
  }

  lemma {:induction false} FarTotal(n: nat, k: nat)
    requires n >= 6 && k <= n * n && Distinct(FarTiles(n))
    ensures Total(n, FarTiles(n), k) >= 6 * k - if 0 in FarTiles(n)[..k] then 6 else 0
  {
    var tiles := FarTiles(n);
    if k > 0 {
      FarTotal(n, k - 1);
      OneMoreTile(tiles, k);
      if tiles[k - 1] != 0 { FarTile(n, k - 1); }
    }
  }

  /** On every larger board there are tiles whose distance does not fit: it is at least 210. */
  lemma OverflowsFrom6(n: nat) returns (tiles: seq<int>)
    requires n >= 6
    ensures |tiles| == n * n && Permutation(tiles) && Distances(n, tiles) >= 210
  {
    tiles := FarTiles(n);
    FarPermutes(n);
    FarTotal(n, n * n);
    AreaAtLeast(n, 6);
  }

  // ----- the stored distance after moves on large boards

  /** A tile that slides from its place into the blank beside it is one step away. */
  lemma TileLeavesHome(n: nat, tiles: seq<int>, i: nat, j: nat, k: nat, l: nat)
    requires n > 0 && i < n && j < n && k < n && l < n && Neighbours(i, j, k, l) && |tiles| == n * n
    requires Permutation(tiles)
    requires 0 <= Cell(n, i, j) < n * n && 0 <= Cell(n, k, l) < n * n
    requires tiles[Cell(n, i, j)] == 0 && tiles[Cell(n, k, l)] == Cell(n, k, l) + 1
    ensures var now := Exchanged(tiles, Cell(n, i, j), Cell(n, k, l));
            Permutation(now) && Distances(n, now) == Distances(n, tiles) + 1
  {
    CellFits(n, i, j);
    CellFits(n, k, l);
    ExchangeTotal(n, tiles, Cell(n, i, j), Cell(n, k, l));
    ExchangePermutes(tiles, Cell(n, i, j), Cell(n, k, l));
  }

  /** From 12 on, no cell holds a number whose place is in the last row. */
  lemma RowOfCell(n: nat, v: int)
    requires n >= 12 && -128 <= v <= 127
    ensures Row(n, v) <= n - 2
  {
    if v > 0 {
      var q := (v - 1) / n;
      MulSum(q, 12, n - 12);
      if q > 0 && n > 12 { MulPositive(q, n - 12); }
      assert q * 12 <= q * n <= 126;
    }
  }

  lemma DownInLastRow(n: nat, z: Puzzle)
    requires n >= 12 && Shaped(n, z) && z.valid && z.zeroI == n - 1 && -128 <= TileAt(n, z, n - 2, z.zeroJ) <= 127
    ensures TileDown(n, z).manhattan == Wrap8(z.manhattan + 1)
  {
    RowOfCell(n, TileAt(n, z, n - 2, z.zeroJ));
  }

  lemma UpToLastRow(n: nat, z: Puzzle)
    requires n >= 12 && Shaped(n, z) && z.valid && z.zeroI == n - 2 && -128 <= TileAt(n, z, n - 1, z.zeroJ) <= 127
    ensures TileUp(n, z).manhattan == Wrap8(z.manhattan - 1)
  {
    RowOfCell(n, TileAt(n, z, n - 1, z.zeroJ));
  }

  lemma LeftToLastColumn(n: nat, z: Puzzle)
    requires n >= 12 && Shaped(n, z) && z.valid && z.zeroJ == n - 2
    ensures TileLeft(n, z).manhattan == Wrap8(z.manhattan + 1) || TileLeft(n, z).manhattan == Wrap8(z.manhattan - 1)
  {
  }

  lemma CellsFit(n: nat, z: Puzzle, tiles: seq<int>, i: int, j: int)
    requires Shows(n, z, tiles) && 0 <= i < n && 0 <= j < n
    ensures -128 <= TileAt(n, z, i, j) <= 127
  {
    CellFits(n, i, j);
  }

  /** Three moves from the solution: up, left and down for the blank. */
  ghost predicate ThreeAway(n: nat, one: seq<int>, two: seq<int>, three: seq<int>)
    requires n >= 12
  {
    && Permutation(three) && |one| == |two| == |three| == n * n
    && Distances(n, two) == 2 && Distances(n, three) == 3
    && Swapped(n, SolvedTiles(n), one, n - 1, n - 1, n - 2, n - 1)
    && Swapped(n, one, two, n - 2, n - 1, n - 2, n - 2)
    && Swapped(n, two, three, n - 2, n - 2, n - 1, n - 2)
  }

  /** The blank of before at row i and column j has changed places with the tile at k and l. */
  ghost predicate Swapped(n: nat, before: seq<int>, after: seq<int>, i: nat, j: nat, k: nat, l: nat)
    requires n > 0
  {
    && |before| == |after| == n * n && 0 <= Cell(n, i, j) < n * n && 0 <= Cell(n, k, l) < n * n
    && before[Cell(n, i, j)] == 0 && after == Exchanged(before, Cell(n, i, j), Cell(n, k, l))
  }

  lemma SolvedSteps(n: nat) returns (one: seq<int>, two: seq<int>, three: seq<int>)
    requires n >= 12
    ensures ThreeAway(n, one, two, three)
  {
    var tiles := SolvedTiles(n);
    var i, j := n - 2, n - 1;
    CellFits(n, j, j);
    CellFits(n, i, j);
    CellFits(n, i, i);
    CellFits(n, j, i);
    NothingToGo(n, n * n);
    MulSum(n, n, -1);
    one := Exchanged(tiles, Cell(n, j, j), Cell(n, i, j));
    TileLeavesHome(n, tiles, j, j, i, j);
    two := Exchanged(one, Cell(n, i, j), Cell(n, i, i));
    TileLeavesHome(n, one, i, j, i, i);
    three := Exchanged(two, Cell(n, i, i), Cell(n, j, i));
    TileLeavesHome(n, two, i, i, j, i);
  }

  lemma SwappedBack(n: nat, before: seq<int>, after: seq<int>, i: nat, j: nat, k: nat, l: nat)
    requires n > 0 && Swapped(n, before, after, i, j, k, l)
    ensures Exchanged(after, Cell(n, k, l), Cell(n, i, j)) == before
  {
  }

  /** A move that undoes the exchange. */
  lemma BackStep(n: nat, z: Puzzle, before: seq<int>, after: seq<int>, d: Direction)
    requires 12 <= n <= 256 && Shows(n, z, after) && Possible(n, z, d)
    requires var (i, j) := Source(z, d); 0 <= i < n && 0 <= j < n && Swapped(n, before, after, i, j, z.zeroI, z.zeroJ)
    ensures AfterMove(n, z, after, d) == before && InReach(z, d)
    ensures var y := Move(n, z, d); Shows(n, y, before) && (y.zeroI, y.zeroJ) == Source(z, d)
  {
    var (i, j) := Source(z, d);
    SwappedBack(n, before, after, i, j, z.zeroI, z.zeroJ);
    TileMoves(n, z, after, d);
  }

  lemma FirstBack(n: nat, z: Puzzle, two: seq<int>, three: seq<int>)
    requires 12 <= n <= 256 && Swapped(n, two, three, n - 2, n - 2, n - 1, n - 2)
    requires Shows(n, z, three) && z.zeroI == n - 1 && z.zeroJ == n - 2 && z.manhattan == 3
    ensures Possible(n, z, Down) && AfterMove(n, z, three, Down) == two && InReach(z, Down)
    ensures var y := Move(n, z, Down); Shows(n, y, two) && y.zeroI == n - 2 && y.zeroJ == n - 2 && y.manhattan == 4
  {
    CellsFit(n, z, three, n - 2, n - 2);
    DownInLastRow(n, z);
    BackStep(n, z, two, three, Down);
  }

  lemma SecondBack(n: nat, z: Puzzle, one: seq<int>, two: seq<int>)
    requires 12 <= n <= 256 && Swapped(n, one, two, n - 2, n - 1, n - 2, n - 2)
    requires Shows(n, z, two) && z.zeroI == n - 2 && z.zeroJ == n - 2 && z.manhattan == 4
    ensures var y := Move(n, z, Left);
            Shows(n, y, one) && y.zeroI == n - 2 && y.zeroJ == n - 1 && (y.manhattan == 3 || y.manhattan == 5)
  {
    LeftToLastColumn(n, z);
    BackStep(n, z, one, two, Left);
  }

  lemma UpFits(n: nat, z: Puzzle, tiles: seq<int>)
    requires n >= 12 && Shows(n, z, tiles) && z.zeroI == n - 2 && 0 <= z.zeroJ < n
    ensures TileUp(n, z).manhattan == Wrap8(z.manhattan - 1)
  {
    CellsFit(n, z, tiles, n - 1, z.zeroJ);
    UpToLastRow(n, z);
  }

  lemma ThirdBack(n: nat, z: Puzzle, one: seq<int>)
    requires 12 <= n <= 256 && Swapped(n, SolvedTiles(n), one, n - 1, n - 1, n - 2, n - 1)
    requires Shows(n, z, one) && z.zeroI == n - 2 && z.zeroJ == n - 1 && (z.manhattan == 3 || z.manhattan == 5)
    ensures var y := Move(n, z, Up); Shows(n, y, SolvedTiles(n)) && y.manhattan >= 2
  {
    UpFits(n, z, one);
    BackStep(n, z, SolvedTiles(n), one, Up);
  }

  /**
   * From 12 by 12 to 256 by 256 there is a puzzle, three moves from the solution and measured so, whose lower bound is
   * not 0 once it is solved.
   */
  lemma SolvedButFar(n: nat) returns (z: Puzzle, tiles: seq<int>)
    requires 12 <= n <= 256
    ensures Shows(n, z, tiles) && Measured(n, z, tiles)
    ensures var y := Move(n, Move(n, Move(n, z, Down), Left), Up); Shows(n, y, SolvedTiles(n)) && LowerBound(n, y) >= 2
  {
    var one, two, three := SolvedSteps(n);
    tiles := three;
    CellFits(n, n - 1, n - 2);
    z := Puzzle(true, n - 1, n - 2, 3, Stored(three), HashOf(Stored(three)));
    FirstBack(n, z, two, three);
    SecondBack(n, Move(n, z, Down), one, two);
    ThirdBack(n, Move(n, Move(n, z, Down), Left), one);
  }

  /** A move after which the stored distance is no longer right, though it was before. */
  ghost predicate Misses(n: nat, z: Puzzle, tiles: seq<int>, d: Direction) {
    && Shows(n, z, tiles) && Measured(n, z, tiles) && Possible(n, z, d) && InReach(z, d)
    && !Measured(n, Move(n, z, d), AfterMove(n, z, tiles, d))
  }

  /** The first of the three moves is one. */
  lemma MissesFrom12(n: nat) returns (z: Puzzle, tiles: seq<int>)
    requires 12 <= n <= 256
    ensures Misses(n, z, tiles, Down)
  {
    var one, two, three := SolvedSteps(n);
    tiles := three;
    CellFits(n, n - 1, n - 2);
    z := Puzzle(true, n - 1, n - 2, 3, Stored(three), HashOf(Stored(three)));
    FirstBack(n, z, two, three);
  }

  lemma WrapDiffers(x: int)
    ensures Wrap8(Wrap8(x) - 1) != Wrap8(x + 1)
  {
  }

  /** On larger boards the cell of tile 256 reads 0: the code counts one step less where there is one more. */
  lemma MissesFrom257(n: nat) returns (z: Puzzle, tiles: seq<int>)
    requires n > 256
    ensures Misses(n, z, tiles, Left)
  {
    tiles := BlankBeside256(n);
    var board := Stored(tiles);
    z := Puzzle(true, 0, 0, Wrap8(Distances(n, tiles)), board, HashOf(board));
    assert Cell(n, 0, 0) == 0 && Cell(n, 0, 1) == 1;
    LeftMisses(n, z, tiles);
  }

  lemma LeftMisses(n: nat, z: Puzzle, tiles: seq<int>)
    requires n > 256 && Shows(n, z, tiles) && Measured(n, z, tiles) && z.zeroI == 0 && z.zeroJ == 0
    requires 0 <= Cell(n, 0, 1) < |tiles| && tiles[Cell(n, 0, 1)] == 256 && TileAt(n, z, 0, 1) == 0
    ensures !Measured(n, Move(n, z, Left), AfterMove(n, z, tiles, Left))
  {
    SlidDistance(n, z, tiles, 0, 1, 256);
    PlaceOf256(n);
    LeftOfZero(n, z);
    WrapDiffers(Distances(n, tiles));
  }

  lemma PlaceOf256(n: nat)
    requires n > 256
    ensures Distance(n, 256, 0, 0) == Distance(n, 256, 0, 1) + 1
  {
    assert Row(n, 256) == 0 && Column(n, 256) == 255;
  }

  lemma LeftOfZero(n: nat, z: Puzzle)
    requires n > 256 && Shaped(n, z) && z.valid && z.zeroI == 0 && z.zeroJ == 0 && TileAt(n, z, 0, 1) == 0
    ensures TileLeft(n, z).manhattan == Wrap8(z.manhattan - 1)
  {
    assert Column(n, 0) == -1;
  }

  /** The stored distance follows every move exactly on boards up to 11 by 11. */
  lemma DistanceFollowsExactly(n: nat)
    requires n >= 1
    ensures (forall z, tiles, d {:trigger Misses(n, z, tiles, d)} :: !Misses(n, z, tiles, d)) <==> n <= 11
  {
    if n <= 11 {
      forall z, tiles, d ensures !Misses(n, z, tiles, d) {
        if Misses(n, z, tiles, d) { TileMoves(n, z, tiles, d); }
      }
    } else if n <= 256 {
      var z, tiles := MissesFrom12(n);
    } else {
      var z, tiles := MissesFrom257(n);
    }
  }
}
