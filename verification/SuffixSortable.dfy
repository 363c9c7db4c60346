/** Which texts the skew algorithm sorts: what its ranks and its merge come to, zeros among the letters included. */
module SuffixSortable {
  import opened Pigeonhole
  import opened RadixPass
  import opened SuffixOrder
  import opened SuffixNames
  import opened SuffixMerge

  // ----- the order of the positions that are not multiples of three

  /** rank is the inverse of order, and order sorts the entries as the text sorts their positions. */
  ghost predicate Ranked(text: seq<int>, order: seq<int>, rank: seq<int>) {
    && |order| == |rank| == N02(|text|)
    && (forall z :: 0 <= z < |order| ==> 0 <= order[z] < |rank| && rank[order[z]] == z + 1)
    && forall y, z :: 0 <= y < z < |order| ==> Less(text, Pos(|text|, order[y]), Pos(|text|, order[z]))
  }

  lemma RankedDistinct(text: seq<int>, order: seq<int>, rank: seq<int>)
    requires Ranked(text, order, rank)
    ensures Distinct(order) && (forall x :: 0 <= x < |order| ==> x in order)
    ensures RanksPositions(text, rank)
  {
    Surjective(order, |order|);
    forall x | 0 <= x < |rank| ensures rank[x] >= 1 {
      assert x in order;
    }
    forall x, y | 0 <= x < |rank| && 0 <= y < |rank| && x != y
      ensures rank[x] != rank[y] && (rank[x] < rank[y] <==> Less(text, Pos(|text|, x), Pos(|text|, y)))
    {
      RankedPair(text, order, rank, IndexIn(order, x), IndexIn(order, y));
    }
  }

  lemma RankedPair(text: seq<int>, order: seq<int>, rank: seq<int>, u: nat, v: nat)
    requires Ranked(text, order, rank) && u < |order| && v < |order| && u != v
    ensures u < v <==> Less(text, Pos(|text|, order[u]), Pos(|text|, order[v]))
  {
    if u > v {
      var i, j := Pos(|text|, order[u]), Pos(|text|, order[v]);
      assert Less(text, j, i);
      if Less(text, i, j) {
        LessTransitive(text, i, j, i);
        LessIrreflexive(text, i);
      }
    }
  }

  /** order sorts the suffixes of names, and rank is its inverse, counting from one. */
  ghost predicate OrdersNames(names: seq<int>, order: seq<int>, rank: seq<int>) {
    && |order| == |rank| == |names|
    && (forall z :: 0 <= z < |order| ==> 0 <= order[z] < |rank| && rank[order[z]] == z + 1)
    && forall y, z :: 0 <= y < z < |order| ==> Less(names, order[y], order[z])
  }

  lemma OrderedPair(names: seq<int>, order: seq<int>, rank: seq<int>, x: nat, y: nat)
    requires OrdersNames(names, order, rank) && x < |names| && y < |names| && x != y
    ensures 1 <= rank[x] <= |order| && order[rank[x] - 1] == x
    ensures Less(names, x, y) <==> rank[x] < rank[y]
  {
    Surjective(order, |order|);
    assert x in order && y in order;
    var u, v := IndexIn(order, x), IndexIn(order, y);
    assert rank[x] == u + 1 && rank[y] == v + 1;
    LessTotal(names, x, y);
  }

  /** The order of the names is that of the positions exactly on the texts whose names are in order. */
  lemma RankedExactly(text: seq<int>, names: seq<int>, order: seq<int>, rank: seq<int>)
    requires NonNegative(text) && |text| >= 2 && NamesTriples(text, names) && OrdersNames(names, order, rank)
    ensures Ranked(text, order, rank) <==> NamesInOrder(text)
  {
    NamesReflectExactly(text, names);
    if NamesInOrder(text) {
      forall y, z | 0 <= y < z < |order| ensures Less(text, Pos(|text|, order[y]), Pos(|text|, order[z])) {
        assert Less(names, order[y], order[z]) && order[y] != order[z];
        assert Reflects(text, names, order[y], order[z]);
      }
    }
    if Ranked(text, order, rank) {
      forall x: nat, y: nat | x < |names| && y < |names| && x != y ensures Reflects(text, names, x, y) {
        OrderedPair(names, order, rank, x, y);
        OrderedPair(names, order, rank, y, x);
        RankedPair(text, order, rank, rank[x] - 1, rank[y] - 1);
      }
    }
  }

  // ----- the inputs of the merge

  lemma Mod0InText(text: seq<int>, a: seq<int>, keys: seq<int>, order: seq<int>, b: seq<int>)
    requires KeysAt(text, a, 0, keys) && Rearranged(a, keys, order, b)
    requires forall z :: 0 <= z < |a| ==> 0 <= a[z] < |text| && a[z] % 3 == 0
    ensures forall z :: 0 <= z < |b| ==> 0 <= b[z] < |text| && b[z] % 3 == 0
  {
  }

  /** The multiples of three sorted as suffixes: a stable pass by first character over their order one further on. */
  lemma Mod0Sorted(text: seq<int>, a: seq<int>, keys: seq<int>, order: seq<int>, b: seq<int>)
    requires KeysAt(text, a, 0, keys) && Rearranged(a, keys, order, b)
    requires forall y, z :: 0 <= y < z < |a| ==> 0 <= a[y] && 0 <= a[z] && Less(text, a[y] + 1, a[z] + 1)
    requires forall z :: 0 <= z < |a| ==> 0 <= a[z] < |text|
    ensures Positions(b) && Ascending(text, b)
  {
  }

  /** The merge starts at entry n0 - n1: before it there is only the dummy, from it on only real suffixes. */
  lemma DummyFirst(text: seq<int>, order: seq<int>, rank: seq<int>, t: nat)
    requires Ranked(text, order, rank) && t < |order|
    ensures Pos(|text|, order[t]) < |text| <==> t >= N0(|text|) - N1(|text|)
  {
    var n := |text|;
    if t >= N0(n) - N1(n) {
      if t > 0 { assert Less(text, Pos(n, order[0]), Pos(n, order[t])); }
    } else {
      RankedDistinct(text, order, rank);
      var z := IndexIn(order, N0(n) - 1);
      assert Pos(n, order[z]) == n;
    }
  }

  /** The positions of the entries of order from t on. */
  ghost function PositionsFrom(n: nat, order: seq<int>, t: nat): (b: seq<int>)
    requires t <= |order| && forall z :: 0 <= z < |order| ==> order[z] >= 0
    ensures |b| == |order| - t && Positions(b)
    ensures forall z {:trigger b[z]} :: 0 <= z < |b| ==> b[z] == Pos(n, order[t + z])
  {
    var b: seq<int> := seq(|order| - t, z requires 0 <= z < |order| - t => Pos(n, order[t + z]));
    assert forall z :: 0 <= z < |b| ==> b[z] == Pos(n, order[t + z]);
    b
  }

  /** Where the merge starts: behind the dummy, if there is one. */
  function Start(n: nat): nat { N0(n) - N1(n) }

  /** a lists the multiples of three and b the other positions, in some order. */
  ghost predicate MergeInputs(text: seq<int>, a: seq<int>, order: seq<int>, rank: seq<int>) {
    var n := |text|;
    && n >= 2 && NonNegative(text) && |a| == N0(n)
    && (forall z :: 0 <= z < |a| ==> 0 <= a[z] < n && a[z] % 3 == 0)
    && |order| == |rank| == N02(n)
    && (forall z :: 0 <= z < |order| ==> 0 <= order[z] < |rank| && rank[order[z]] == z + 1)
    && (Ranked(text, order, rank) ==> Ascending(text, a))
  }

  ghost function Result(text: seq<int>, a: seq<int>, order: seq<int>, rank: seq<int>): seq<int>
    requires MergeInputs(text, a, order, rank)
  {
    Merged(text, rank, a, PositionsFrom(|text|, order, Start(|text|)))
  }

  /** From a sorted merge result the ranks are right. */
  lemma RankedIfSorted(text: seq<int>, a: seq<int>, order: seq<int>, rank: seq<int>)
    requires MergeInputs(text, a, order, rank) && IsSuffixArray(text, Result(text, a, order, rank))
    ensures Ranked(text, order, rank)
  {
    var n := |text|;
    var b, m := PositionsFrom(n, order, Start(n)), Result(text, a, order, rank);
    InputsAscend(text, rank, a, b);
    MergedHolds(text, rank, a, b);
    forall z | Start(n) <= z < |order| ensures Pos(n, order[z]) < n {
      assert b[z - Start(n)] in m;
    }
    if Start(n) == 1 { DummyInFront(n, order, rank); }
    forall y, z | 0 <= y < z < |order| ensures Less(text, Pos(n, order[y]), Pos(n, order[z])) {
      if y >= Start(n) { assert Less(text, b[y - Start(n)], b[z - Start(n)]); }
    }
  }

  /** If no dummy comes later, the first entry is it. */
  lemma DummyInFront(n: nat, order: seq<int>, rank: seq<int>)
    requires n >= 2 && Start(n) == 1 && |order| == |rank| == N02(n)
    requires forall z :: 0 <= z < |order| ==> 0 <= order[z] < |rank| && rank[order[z]] == z + 1
    requires forall z :: 1 <= z < |order| ==> Pos(n, order[z]) < n
    ensures Pos(n, order[0]) == n
  {
    Surjective(order, |order|);
    assert N0(n) - 1 in order;
    var z :| 0 <= z < |order| && order[z] == N0(n) - 1;
    assert Pos(n, order[z]) == n;
  }

  // ----- the decisions of the merge

  /** A suffix from which the merge compares suffix 2 with a smaller one, as if it stood behind the end. */
  ghost predicate BadEnd(text: seq<int>, j: nat) {
    j % 3 == 0 && j + 1 < |text| && AtEnd(text, |text| - 1, j) && Less(text, j + 2, 2)
  }

  ghost predicate EndInOrder(text: seq<int>) {
    forall j: nat {:trigger BadEnd(text, j)} :: !BadEnd(text, j)
  }

  /** The test of the merge, with the ranks right. */
  lemma FirstIsLess(text: seq<int>, rank: seq<int>, i: nat, j: nat)
    requires NonNegative(text) && |text| >= 2 && RanksPositions(text, rank)
    requires i < |text| && i % 3 != 0 && j < |text| && j % 3 == 0
    ensures First(text, rank, i, j) <==> if AtEnd(text, i, j) then !Less(text, j + 2, 2) else Less(text, i, j)
  {
    if i % 3 == 1 {
      FirstMod1(text, rank, i / 3, j / 3, i, j);
    } else {
      FirstMod2(text, rank, i / 3, j / 3, i, j);
    }
  }

  lemma FirstMod1(text: seq<int>, rank: seq<int>, x: nat, y: nat, i: nat, j: nat)
    requires |text| >= 2 && RanksPositions(text, rank) && i == 3 * x + 1 < |text| && j == 3 * y < |text|
    ensures !AtEnd(text, i, j) && (First(text, rank, i, j) <==> Less(text, i, j))
  {
    assert i % 3 == 1 && i / 3 == x && j / 3 == y;
    MergeMod1(text, rank, x, y);
  }

  lemma FirstMod2(text: seq<int>, rank: seq<int>, x: nat, y: nat, i: nat, j: nat)
    requires NonNegative(text) && |text| >= 2 && RanksPositions(text, rank)
    requires i == 3 * x + 2 < |text| && j == 3 * y < |text|
    ensures First(text, rank, i, j) <==> if AtEnd(text, i, j) then !Less(text, j + 2, 2) else Less(text, i, j)
  {
    assert i % 3 == 2 && i / 3 == x && j / 3 == y;
    MergeMod2(text, rank, x, y);
  }

  lemma AtEndLess(text: seq<int>, i: nat, j: nat)
    requires AtEnd(text, i, j) && j < |text| && i != j
    ensures Less(text, i, j)
  {
  }

  lemma DecidedUnlessBad(text: seq<int>, rank: seq<int>, i: nat, j: nat)
    requires NonNegative(text) && |text| >= 2 && RanksPositions(text, rank) && EndInOrder(text)
    requires i < |text| && i % 3 != 0 && j < |text| && j % 3 == 0
    ensures Decides(text, rank, i, j)
  {
    FirstIsLess(text, rank, i, j);
    LessTotal(text, i, j);
    if AtEnd(text, i, j) {
      AtEndLess(text, i, j);
      assert !BadEnd(text, j);
    }
  }

  /** Between the last suffix and a bad one there are only bad ones. */
  lemma BadIsMisjudged(text: seq<int>, a: seq<int>, rank: seq<int>, j: nat)
    requires NonNegative(text) && |text| >= 2 && RanksPositions(text, rank) && BadEnd(text, j)
    requires forall z :: 0 <= z < |a| ==> 0 <= a[z] < |text| && a[z] % 3 == 0
    ensures Misjudged(text, rank, a, |text| - 1, j)
  {
    var i := |text| - 1;
    AtEndLess(text, i, j);
    forall p | 0 <= p < |a| && Less(text, i, a[p]) && !Less(text, j, a[p]) ensures !First(text, rank, i, a[p]) {
      var l := a[p];
      FirstIsLess(text, rank, i, l);
      BadBetween(text, j, l);
    }
  }

  lemma BadBetween(text: seq<int>, j: nat, l: nat)
    requires NonNegative(text) && |text| >= 2 && BadEnd(text, j) && l < |text| && l % 3 == 0
    requires Less(text, |text| - 1, l) && !Less(text, j, l)
    ensures AtEnd(text, |text| - 1, l) && Less(text, l + 2, 2)
  {
    LessTotal(text, j, l);
    if l != j {
      assert Less(text, l, j);
      assert text[l] == text[j];
      assert Less(text, l + 1, j + 1);
      LessTransitive(text, l + 2, j + 2, 2);
    }
  }

  // ----- what is sorted

  /** The texts on which the skew algorithm leaves a suffix array. */
  ghost predicate Sortable(text: seq<int>) { NamesInOrder(text) && EndInOrder(text) }

  /** With right ranks the positions to be merged are real and in order. */
  lemma RankedPositions(text: seq<int>, order: seq<int>, rank: seq<int>)
    requires Ranked(text, order, rank)
    ensures var b := PositionsFrom(|text|, order, Start(|text|));
            Ascending(text, b) && forall t :: 0 <= t < |b| ==> b[t] < |text| && b[t] % 3 != 0
  {
    var n := |text|;
    var b := PositionsFrom(n, order, Start(n));
    forall t | 0 <= t < |b| ensures b[t] < n && b[t] % 3 != 0 {
      DummyFirst(text, order, rank, Start(n) + t);
    }
    forall k, l | 0 <= k < l < |b| ensures Less(text, b[k], b[l]) {
      assert Less(text, Pos(n, order[Start(n) + k]), Pos(n, order[Start(n) + l]));
    }
  }

  lemma AllAreDecided(text: seq<int>, rank: seq<int>, a: seq<int>, b: seq<int>)
    requires NonNegative(text) && |text| >= 2 && RanksPositions(text, rank) && EndInOrder(text)
    requires forall p :: 0 <= p < |a| ==> 0 <= a[p] < |text| && a[p] % 3 == 0
    requires forall t :: 0 <= t < |b| ==> 0 <= b[t] < |text| && b[t] % 3 != 0
    ensures AllDecided(text, rank, a, b)
  {
    forall p, t | 0 <= p < |a| && 0 <= t < |b| ensures Decides(text, rank, b[t], a[p]) {
      DecidedUnlessBad(text, rank, b[t], a[p]);
    }
  }

  lemma SortedIfSortable(text: seq<int>, a: seq<int>, order: seq<int>, rank: seq<int>)
    requires MergeInputs(text, a, order, rank) && Ranked(text, order, rank) && EndInOrder(text)
    ensures IsSuffixArray(text, Result(text, a, order, rank))
  {
    var b := PositionsFrom(|text|, order, Start(|text|));
    RankedDistinct(text, order, rank);
    RankedPositions(text, order, rank);
    MergedIsSuffixArray(text, rank, a, b);
  }

  lemma MergedIsSuffixArray(text: seq<int>, rank: seq<int>, a: seq<int>, b: seq<int>)
    requires NonNegative(text) && |text| >= 2 && RanksPositions(text, rank) && EndInOrder(text)
    requires forall p :: 0 <= p < |a| ==> 0 <= a[p] < |text| && a[p] % 3 == 0
    requires forall t :: 0 <= t < |b| ==> 0 <= b[t] < |text| && b[t] % 3 != 0
    requires Ascending(text, a) && Ascending(text, b) && |a| + |b| == |text|
    ensures IsSuffixArray(text, Merged(text, rank, a, b))
  {
    AllAreDecided(text, rank, a, b);
    MergedAscends(text, rank, a, b);
    MergedHolds(text, rank, a, b);
    AscendingIsSuffixArray(text, Merged(text, rank, a, b));
  }

  /** n suffixes in increasing order are all of them. */
  lemma AscendingIsSuffixArray(text: seq<int>, sa: seq<int>)
    requires Positions(sa) && Ascending(text, sa) && |sa| == |text| && forall v :: v in sa ==> v < |text|
    ensures IsSuffixArray(text, sa)
  {
    forall k | 0 <= k < |sa| ensures sa[k] < |text| { assert sa[k] in sa; }
    forall k, l | 0 <= k < l < |sa| ensures sa[k] != sa[l] { LessIrreflexive(text, sa[k]); }
    Surjective(sa, |text|);
  }

  /** All suffixes are in the result, so every position is in the input of its kind. */
  lemma InInputs(text: seq<int>, a: seq<int>, order: seq<int>, rank: seq<int>, v: nat)
    requires MergeInputs(text, a, order, rank) && IsSuffixArray(text, Result(text, a, order, rank)) && v < |text|
    ensures if v % 3 == 0 then v in a else v in PositionsFrom(|text|, order, Start(|text|))
  {
    var b := PositionsFrom(|text|, order, Start(|text|));
    MergedHolds(text, rank, a, b);
    assert v in Result(text, a, order, rank);
    forall t | 0 <= t < |b| ensures b[t] % 3 != 0 { SeamIsPast(|text|, order[Start(|text|) + t]); }
  }

  lemma EndInInputs(text: seq<int>, a: seq<int>, order: seq<int>, rank: seq<int>, j: nat)
    requires MergeInputs(text, a, order, rank) && IsSuffixArray(text, Result(text, a, order, rank))
    requires |text| % 3 == 0 && j < |text| && j % 3 == 0
    ensures j in a && |text| - 1 in PositionsFrom(|text|, order, Start(|text|))
  {
    InInputs(text, a, order, rank, j);
    InInputs(text, a, order, rank, |text| - 1);
  }

  lemma NoBadEnd(text: seq<int>, a: seq<int>, order: seq<int>, rank: seq<int>, j: nat)
    requires MergeInputs(text, a, order, rank) && RanksPositions(text, rank)
    requires IsSuffixArray(text, Result(text, a, order, rank))
    ensures !BadEnd(text, j)
  {
    if BadEnd(text, j) {
      EndInInputs(text, a, order, rank, j);
      BadEndShows(text, a, PositionsFrom(|text|, order, Start(|text|)), rank, j);
    }
  }

  lemma SortableIfSorted(text: seq<int>, a: seq<int>, order: seq<int>, rank: seq<int>)
    requires MergeInputs(text, a, order, rank) && IsSuffixArray(text, Result(text, a, order, rank))
    ensures Ranked(text, order, rank) && EndInOrder(text)
  {
    RankedIfSorted(text, a, order, rank);
    RankedDistinct(text, order, rank);
    forall j: nat ensures !BadEnd(text, j) { NoBadEnd(text, a, order, rank, j); }
  }

  lemma BadEndShows(text: seq<int>, a: seq<int>, b: seq<int>, rank: seq<int>, j: nat)
    requires NonNegative(text) && |text| >= 2 && RanksPositions(text, rank) && BadEnd(text, j)
    requires Positions(b) && forall z :: 0 <= z < |a| ==> 0 <= a[z] < |text| && a[z] % 3 == 0
    requires j in a && |text| - 1 in b
    ensures !Ascending(text, Merged(text, rank, a, b))
  {
    BadIsMisjudged(text, a, rank, j);
    MisjudgedShows(text, rank, a, b, |text| - 1, j);
  }

  /** The merge of what the names give is the suffix array exactly on the sortable texts. */
  lemma SortedExactly(text: seq<int>, names: seq<int>, a: seq<int>, order: seq<int>, rank: seq<int>)
    requires MergeInputs(text, a, order, rank) && NamesTriples(text, names) && OrdersNames(names, order, rank)
    ensures IsSuffixArray(text, Result(text, a, order, rank)) <==> Sortable(text)
  {
    RankedExactly(text, names, order, rank);
    if Sortable(text) { SortedIfSortable(text, a, order, rank); }
    if IsSuffixArray(text, Result(text, a, order, rank)) { SortableIfSorted(text, a, order, rank); }
  }

  /** Letters from 1 on are always sortable. */
  lemma PositiveIsSortable(text: seq<int>)
    requires Positive(text)
    ensures Sortable(text)
  {
  }

  /** With zeros the names may be in order and the merge still goes wrong. */
  lemma ZerosMisleadMerge()
    ensures var text := [0, 0, 1, 0, 0, 0]; NonNegative(text) && NamesInOrder(text) && !Sortable(text)
  {
    var text := [0, 0, 1, 0, 0, 0];
    assert Seam(6) == 4 && !TripleEq(text, 4, 1) && !TripleEq(text, 4, 2);
    assert BadEnd(text, 3);
  }
}
