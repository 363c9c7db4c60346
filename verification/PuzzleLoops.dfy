/** The loops of puzzle.h that fill a puzzle, compare two of them and test solvability. */
module PuzzleLoops {
  import opened Arithmetic
  import opened Inversions
  import opened Pigeonhole
  import opened Puzzle
  import opened PuzzleCells

  method DetermineHash(n: nat, board: seq<int>) returns (hash: nat)
    requires |board| == n * n
    ensures hash == HashOf(board) && hash == HashSum(board, |board|) % TWO32
  {
    hash := 0;
    ghost var k := 0;
    for i := 0 to n
      invariant k == n * i <= |board| && hash == HashOf(board[..k])
    {
      for j := 0 to n
        invariant k == n * i + j <= |board| && hash == HashOf(board[..k])
      {
        CellFits(n, i, j);
        assert board[..k + 1][..k] == board[..k];
        hash := Mix(hash, board[Cell(n, i, j)]);
        k := k + 1;
      }
      NextRow(n, i);
    }
    assert board[..k] == board;
    HashIsSum(board);
  }

  ghost predicate Hashed(n: nat, z: Puzzle) { z.valid ==> Shaped(n, z) && z.hash == HashOf(z.board) }

  /** operator==: valid puzzles are equal exactly when their boards are. */
  method Equal(n: nat, a: Puzzle, b: Puzzle) returns (same: bool)
    requires Hashed(n, a) && Hashed(n, b)
    ensures same <==> a.valid && b.valid && a.board == b.board
  {
    if !a.valid || !b.valid || a.hash != b.hash {
      return false;
    }
    ghost var k := 0;
    for i := 0 to n
      invariant k == n * i <= |a.board| && a.board[..k] == b.board[..k]
    {
      for j := 0 to n
        invariant k == n * i + j <= |a.board| && a.board[..k] == b.board[..k]
      {
        CellFits(n, i, j);
        if a.board[Cell(n, i, j)] != b.board[Cell(n, i, j)] {
          return false;
        }
        k := k + 1;
      }
      NextRow(n, i);
    }
    assert a.board == a.board[..k] && b.board == b.board[..k];
    same := true;
  }

  // ----- solvable()

  method CountInversions(entries: array<int>) returns (parity: nat)
    ensures parity == Inverted(entries[..])
  {
    parity := 0;
    for i := 0 to entries.Length
      invariant parity + Inverted(entries[i..]) == Inverted(entries[..])
    {
      ghost var start := parity;
      assert entries[i..][1..] == entries[i + 1..];
      for j := i + 1 to entries.Length
        invariant parity + Smaller(entries[j..], entries[i]) == start + Smaller(entries[i + 1..], entries[i])
      {
        assert entries[j..][1..] == entries[j + 1..];
        if entries[i] > entries[j] {
          parity := parity + 1;
        }
      }
    }
  }

  method FillEntries(n: nat, z: Puzzle) returns (entries: array<int>)
    requires Shaped(n, z)
    ensures fresh(entries) && entries[..] == Entries(z.board)
  {
    entries := new int[n * n];
    ghost var k := 0;
    for i := 0 to n
      invariant k == n * i <= entries.Length && entries[..k] == Entries(z.board)[..k]
    {
      for j := 0 to n
        invariant k == n * i + j <= entries.Length && entries[..k] == Entries(z.board)[..k]
      {
        CellFits(n, i, j);
        var v := z.board[Cell(n, i, j)];
        entries[Cell(n, i, j)] := if v == 0 then n * n else v;
        k := k + 1;
      }
      NextRow(n, i);
    }
  }

  method SolvableTest(n: nat, z: Puzzle) returns (solvable: bool)
    requires z.valid ==> Shaped(n, z)
    ensures solvable <==> Solvable(n, z)
  {
    if !z.valid {
      return false;
    }
    var entries := FillEntries(n, z);
    var parity := CountInversions(entries);
    solvable := (parity + 2 * n - 2 - z.zeroI - z.zeroJ) % 2 == 0;
  }

  // ----- the constructor

  /** The blank is among the first k tiles. */
  ghost predicate BlankSeen(n: nat, given: seq<int>, k: nat, i: nat, j: nat) {
    BlankAt(n, given, i, j) && Cell(n, i, j) < k
  }

  /** What is filled in after k cells. */
  ghost predicate Filled(n: nat, given: seq<int>, k: nat, puzzle: seq<int>, check: seq<bool>, zi: int, zj: int, m: int)
    requires n > 0
  {
    && k <= |given| == |puzzle| == |check| && puzzle[..k] == Stored(given)[..k] && m == Wrap8(Total(n, given, k))
    && (forall v :: 0 <= v < |check| ==> (check[v] <==> v in given[..k]))
    && (0 in given[..k] ==> exists i: nat, j: nat :: BlankSeen(n, given, k, i, j) && zi == Byte(i) && zj == Byte(j))
  }

  method FillCell(n: nat, given: seq<int>, i: nat, j: nat, k: nat, puzzle: array<int>, check: array<bool>,
                  zi: int, zj: int, m: int)
    returns (zi': int, zj': int, m': int)
    requires i < n && j < n && k == n * i + j < |given| && 0 <= given[k] < |given|
    requires puzzle.Length == |given| == check.Length
    requires Filled(n, given, k, puzzle[..], check[..], zi, zj, m)
    modifies puzzle, check
    ensures Filled(n, given, k + 1, puzzle[..], check[..], zi', zj', m')
  {
    zi', zj', m' := zi, zj, m;
    assert given[..k + 1] == given[..k] + [given[k]];
    puzzle[k] := Wrap8(given[k]);
    check[given[k]] := true;
    if given[k] == 0 {
      zi', zj' := Byte(i), Byte(j);
      assert BlankSeen(n, given, k + 1, i, j);
      DivModUnique(k, n, i, j);
    } else {
      m' := Wrap8(m' + Abs(Row(n, given[k]) - i));
      m' := Wrap8(m' + Abs(Column(n, given[k]) - j));
      DistanceAdded(n, given, i, j, k);
      forall i: nat, j: nat | BlankSeen(n, given, k, i, j) ensures BlankSeen(n, given, k + 1, i, j) {}
    }
  }

  lemma DistanceAdded(n: nat, given: seq<int>, i: nat, j: nat, k: nat)
    requires j < n && k == n * i + j < |given| && given[k] != 0
    ensures Wrap8(Wrap8(Wrap8(Total(n, given, k)) + Abs(Row(n, given[k]) - i)) + Abs(Column(n, given[k]) - j))
            == Wrap8(Total(n, given, k + 1))
  {
    var t, a, b := Total(n, given, k), Abs(Row(n, given[k]) - i), Abs(Column(n, given[k]) - j);
    DivModUnique(k, n, i, j);
    WrapSum(t, a);
    WrapSum(t + a, b);
  }

  method FillAll(n: nat, given: seq<int>, puzzle: array<int>, check: array<bool>) returns (zi: int, zj: int, m: int)
    requires 1 <= n && |given| == n * n && forall k :: 0 <= k < |given| ==> 0 <= given[k] < |given|
    requires puzzle.Length == check.Length == n * n && forall v :: 0 <= v < check.Length ==> !check[v]
    modifies puzzle, check
    ensures Filled(n, given, |given|, puzzle[..], check[..], zi, zj, m)
  {
    zi, zj, m := 0, 0, 0;
    var k := 0;
    for i := 0 to n
      invariant k == n * i <= |given| && Filled(n, given, k, puzzle[..], check[..], zi, zj, m)
    {
      for j := 0 to n
        invariant k == n * i + j <= |given| && Filled(n, given, k, puzzle[..], check[..], zi, zj, m)
      {
        CellFits(n, i, j);
        zi, zj, m := FillCell(n, given, i, j, k, puzzle, check, zi, zj, m);
        k := k + 1;
      }
      NextRow(n, i);
    }
  }

  /** The constructor: valid exactly when every number up to the last appears, and then made of them. */
  method Create(n: nat, given: seq<int>) returns (z: Puzzle)
    requires 1 <= n && |given| == n * n && forall k :: 0 <= k < |given| ==> 0 <= given[k] < |given|
    ensures z.valid <==> Permutation(given)
    ensures z.valid ==> Made(n, z, given)
  {
    var puzzle := new int[n * n];
    var check := new bool[n * n](_ => false);
    var zi, zj, m := FillAll(n, given, puzzle, check);
    assert given[..|given|] == given;
    var all := AllTrue(check);
    CheckedIsPermutation(given, check[..]);
    if !all {
      return Puzzle(false, zi, zj, m, puzzle[..], 0);
    }
    assert puzzle[..] == Stored(given)[..|given|] == Stored(given);
    var hash := DetermineHash(n, puzzle[..]);
    z := Puzzle(true, zi, zj, m, puzzle[..], hash);
    FilledIsMade(n, given, z);
  }

  lemma FilledIsMade(n: nat, given: seq<int>, z: Puzzle)
    requires 1 <= n && |given| == n * n && Permutation(given)
    requires z.valid && z.board == Stored(given) && Measured(n, z, given)
    requires 0 in given ==>
               exists i: nat, j: nat :: BlankSeen(n, given, |given|, i, j) && z.zeroI == Byte(i) && z.zeroJ == Byte(j)
    ensures Made(n, z, given)
  {
    MulPositive(n, n);
    Surjective(given, n * n);
    assert 0 in given;
    var i: nat, j: nat :| BlankSeen(n, given, |given|, i, j) && z.zeroI == Byte(i) && z.zeroJ == Byte(j);
    assert BlankAt(n, given, i, j);
    ByteFits(n, i);
    ByteFits(n, j);
  }

  method AllTrue(check: array<bool>) returns (all: bool)
    ensures all <==> forall v :: 0 <= v < check.Length ==> check[v]
  {
    for i := 0 to check.Length
      invariant forall v :: 0 <= v < i ==> check[v]
    {
      if !check[i] {
        return false;
      }
    }
    all := true;
  }

  lemma CheckedIsPermutation(given: seq<int>, check: seq<bool>)
    requires |check| == |given| && forall k :: 0 <= k < |given| ==> 0 <= given[k] < |given|
    requires forall v :: 0 <= v < |check| ==> (check[v] <==> v in given)
    ensures (forall v :: 0 <= v < |check| ==> check[v]) <==> Permutation(given)
  {
    if Permutation(given) {
      Surjective(given, |given|);
    }
    if forall v :: 0 <= v < |check| ==> check[v] {
      OntoIsDistinct(given, |given|);
    }
  }

  /** solution(): the solution, with its blank where the bytes say up to 256 by 256. */
  method Solution(n: nat) returns (z: Puzzle)
    requires 1 <= n
    ensures Made(n, z, SolvedTiles(n)) && (Shows(n, z, SolvedTiles(n)) <==> n <= 256)
  {
    var given := seq(n * n, k requires 0 <= k < n * n => if k == n * n - 1 then 0 else k + 1);
    assert given == SolvedTiles(n);
    assert Distinct(given);
    z := Create(n, given);
    CellFits(n, n - 1, n - 1);
    MulSum(n, n, -1);
    MadeShows(n, z, given, n - 1, n - 1);
  }
}
