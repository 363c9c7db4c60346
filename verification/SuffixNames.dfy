/**
 * The reasoning behind the skew algorithm of ssort.cc: the string of triple names orders its
 * suffixes as the text orders the positions not divisible by three, and the ranks so obtained
 * decide every comparison of the final merge.
 */
module SuffixNames {
  import opened Pigeonhole
  import opened SuffixOrder
  import opened RadixPass

  /** n0, n1, n2 of the source: how many positions are 0, 1, 2 modulo 3. */
  function N0(n: nat): nat { (n + 2) / 3 }
  function N1(n: nat): nat { (n + 1) / 3 }
  function N2(n: nat): nat { n / 3 }
  function N02(n: nat): nat { N0(n) + N2(n) }

  /** The text position named by entry x of the name string. */
  function Pos(n: nat, x: nat): nat {
    if x < N0(n) then 3 * x + 1 else 3 * (x - N0(n)) + 2
  }

  /** The entry of the name string that names position i. */
  function Idx(n: nat, i: nat): nat {
    if i % 3 == 1 then i / 3 else i / 3 + N0(n)
  }

  /** The q-th position that is not a multiple of three. */
  function Nth(q: nat): nat { 3 * (q / 2) + 1 + q % 2 }

  lemma PosIdx(n: nat, q: nat)
    requires q < N02(n)
    ensures Idx(n, Nth(q)) < N02(n) && Pos(n, Idx(n, Nth(q))) == Nth(q) && Nth(q) <= n
  {
  }

  lemma IdxPos(n: nat, x: nat)
    requires x < N02(n)
    ensures Idx(n, Pos(n, x)) == x
    ensures exists q :: 0 <= q < N02(n) && Nth(q) == Pos(n, x)
  {
    var q := if x < N0(n) then 2 * x else 2 * (x - N0(n)) + 1;
    assert Nth(q) == Pos(n, x);
  }

  ghost predicate SortedByTriples(text: seq<int>, sa: seq<int>) {
    && (forall z :: 0 <= z < |sa| ==> 0 <= sa[z])
    && forall y, z :: 0 <= y < z < |sa| ==> TripleLess(text, sa[y], sa[z]) || TripleEq(text, sa[y], sa[z])
  }

  /** A stable pass rearranges its input. */
  lemma PassRearranges(a: seq<int>, b: seq<int>, keys: seq<int>, order: seq<int>)
    requires Rearranged(a, keys, order, b) && Distinct(a)
    ensures Distinct(b)
    ensures forall v :: v in a <==> v in b
  {
    StableOrderReachesAll(keys, order);
    forall v | v in a ensures v in b {
      var q :| 0 <= q < |a| && a[q] == v;
      assert q in order;
      var z :| 0 <= z < |order| && order[z] == q;
      assert b[z] == v;
    }
  }

  /** keys lists, for the elements of a, the character that lies off places to the right. */
  ghost predicate KeysAt(text: seq<int>, a: seq<int>, off: nat, keys: seq<int>) {
    && |keys| == |a|
    && forall q :: 0 <= q < |a| ==> a[q] >= 0 && keys[q] == At(text, a[q] + off)
  }

  /** b is a rearranged stably by keys. */
  ghost predicate Rearranged(a: seq<int>, keys: seq<int>, order: seq<int>, b: seq<int>) {
    && |a| == |b| == |keys| && IsStableOrder(keys, order)
    && forall z {:trigger b[z]} :: 0 <= z < |b| ==> b[z] == a[order[z]]
  }

  /** Three stable passes, by the third, second and first character, sort by triples. */
  lemma ThreePasses(text: seq<int>, p: seq<int>, a: seq<int>, b: seq<int>, c: seq<int>,
                    k1: seq<int>, k2: seq<int>, k3: seq<int>, o1: seq<int>, o2: seq<int>, o3: seq<int>)
    requires KeysAt(text, p, 2, k1) && Rearranged(p, k1, o1, a)
    requires KeysAt(text, a, 1, k2) && Rearranged(a, k2, o2, b)
    requires KeysAt(text, b, 0, k3) && Rearranged(b, k3, o3, c)
    ensures SortedByTriples(text, c)
  {
  }

  /** Entries x and y have names that compare as their triples do. */
  ghost predicate NamePair(text: seq<int>, names: seq<int>, x: int, y: int) {
    0 <= x < |names| && 0 <= y < |names| ==>
      && (names[x] < names[y] <==> TripleLess(text, Pos(|text|, x), Pos(|text|, y)))
      && (names[x] == names[y] <==> TripleEq(text, Pos(|text|, x), Pos(|text|, y)))
  }

  /** names gives every entry the rank of its triple: smaller names for smaller triples, equal for equal. */
  ghost predicate NamesTriples(text: seq<int>, names: seq<int>) {
    |names| == N02(|text|) && forall x, y {:trigger NamePair(text, names, x, y)} :: NamePair(text, names, x, y)
  }

  /**
   * The next entry names the position three further on; the last of the left half has none, nor has the last of all.
   */
  lemma NextNamed(n: nat, x: nat)
    requires x < N02(n) && x != N0(n) - 1
    ensures if x + 1 < N02(n) then Pos(n, x + 1) == Pos(n, x) + 3 else Pos(n, x) + 3 >= n
  {
  }

  /** The last position of the left half, at which the name string goes on with position 2. */
  function Seam(n: nat): nat
    requires n > 0
  {
    3 * (N0(n) - 1) + 1
  }

  /** Position i has the padded triple of the seam, but what follows it is not greater than suffix 2. */
  ghost predicate BadSeam(text: seq<int>, i: nat) {
    0 < |text| && i < Seam(|text|) && i % 3 != 0 && TripleEq(text, Seam(|text|), i) && !Less(text, 2, i + 3)
  }

  /** What a text must satisfy for its names to be in order. */
  ghost predicate NamesInOrder(text: seq<int>) {
    forall i: nat {:trigger BadSeam(text, i)} :: !BadSeam(text, i)
  }

  /** Entries x and y go in the order of the suffixes they stand for. */
  ghost predicate Reflects(text: seq<int>, names: seq<int>, x: nat, y: nat) {
    Less(names, x, y) <==> Less(text, Pos(|text|, x), Pos(|text|, y))
  }

  /** All entries of the name string do. */
  ghost predicate NamesReflect(text: seq<int>, names: seq<int>) {
    forall x: nat, y: nat {:trigger Reflects(text, names, x, y)} ::
      x < |names| && y < |names| && x != y ==> Reflects(text, names, x, y)
  }

  lemma SeamIsPast(n: nat, x: nat)
    requires n >= 2 && x < N02(n)
    ensures Pos(n, N0(n) - 1) == Seam(n) && n - 2 <= Seam(n) <= n
    ensures Pos(n, x) + 2 >= n ==> x == N0(n) - 1 || x == N02(n) - 1
    ensures x < N0(n) - 1 ==> Pos(n, x) < Seam(n)
    ensures x == N0(n) - 1 ==> n == 2 || (x + 1 < N02(n) && Pos(n, x + 1) == 2)
    ensures Pos(n, x) <= n && Pos(n, x) % 3 != 0
  {
  }

  /** Equal full triples leave it to the next entries, as they leave it to what follows them in the text. */
  lemma FullTriples(text: seq<int>, names: seq<int>, x: nat, y: nat)
    requires NonNegative(text) && |text| >= 2 && |names| == N02(|text|) && x < |names| && y < |names| && x != y
    requires var i, j := Pos(|text|, x), Pos(|text|, y); TripleEq(text, i, j) && i + 2 < |text| && j + 2 < |text|
    requires x + 1 < |names| && y + 1 < |names| ==> Reflects(text, names, x + 1, y + 1)
    ensures Less(names, x + 1, y + 1) <==> Less(text, Pos(|text|, x), Pos(|text|, y))
  {
    var n := |text|;
    SeamIsPast(n, x);
    SeamIsPast(n, y);
    NextNamed(n, x);
    NextNamed(n, y);
    LessByTriples(text, Pos(n, x), Pos(n, y));
    IdxPos(n, x);
    IdxPos(n, y);
  }

  /** The entry x with an equal triple goes behind the seam: of two such suffixes the later one is smaller. */
  lemma BehindSeam(text: seq<int>, names: seq<int>, x: nat)
    requires NonNegative(text) && |text| >= 2 && |names| == N02(|text|) && x < |names| && NamesInOrder(text)
    requires Pos(|text|, x) < Seam(|text|) && TripleEq(text, Seam(|text|), Pos(|text|, x))
    ensures x + 1 < |names| && N0(|text|) < |names|
    ensures Reflects(text, names, N0(|text|), x + 1) ==> Less(names, N0(|text|), x + 1)
    ensures Reflects(text, names, x + 1, N0(|text|)) ==> !Less(names, x + 1, N0(|text|))
  {
    var n := |text|;
    SeamIsPast(n, x);
    SeamIsPast(n, N0(n) - 1);
    NextNamed(n, x);
    assert !BadSeam(text, Pos(n, x));
    LessTotal(text, 2, Pos(n, x) + 3);
  }

  /** Of equal triples one of which runs past the end, the later one goes first in both orders. */
  lemma EndingTriples(text: seq<int>, names: seq<int>, x: nat, y: nat)
    requires NonNegative(text) && |text| >= 2 && |names| == N02(|text|) && x < |names| && y < |names|
    requires NamesInOrder(text)
    requires var i, j := Pos(|text|, x), Pos(|text|, y);
             TripleEq(text, i, j) && i != j && !(i + 2 < |text| && j + 2 < |text|)
    requires x + 1 < |names| && y + 1 < |names| ==> Reflects(text, names, x + 1, y + 1)
    ensures Less(names, x + 1, y + 1) <==> Pos(|text|, x) > Pos(|text|, y)
  {
    var n := |text|;
    var i, j := Pos(n, x), Pos(n, y);
    SeamIsPast(n, x);
    SeamIsPast(n, y);
    if i > j {
      if x == N0(n) - 1 { BehindSeam(text, names, y); }
    } else {
      if y == N0(n) - 1 { BehindSeam(text, names, x); }
    }
  }

  /** The suffixes of the name string are ordered as the suffixes of the text they stand for. */
  lemma {:induction false} NamesReflectOrder(text: seq<int>, names: seq<int>, x: nat, y: nat)
    requires NonNegative(text) && |text| >= 2 && NamesTriples(text, names) && NamesInOrder(text)
    requires x < |names| && y < |names| && x != y
    ensures Reflects(text, names, x, y)
    decreases |names| - x
  {
    var n := |text|;
    var i, j := Pos(n, x), Pos(n, y);
    assert NamePair(text, names, x, y);
    SeamIsPast(n, x);
    SeamIsPast(n, y);
    LessByTriples(text, i, j);
    if names[x] == names[y] {
      IdxPos(n, x);
      IdxPos(n, y);
      if x + 1 < |names| && y + 1 < |names| { NamesReflectOrder(text, names, x + 1, y + 1); }
      if i + 2 < n && j + 2 < n {
        FullTriples(text, names, x, y);
      } else {
        EndingTriples(text, names, x, y);
      }
    }
  }

  lemma PosOfIdx(n: nat, i: nat)
    requires i % 3 != 0 && i < n
    ensures Idx(n, i) < N02(n) && Pos(n, Idx(n, i)) == i
  {
  }

  /** If they are, no triple of the seam stands before it with something smaller behind. */
  lemma ReflectingNeedsOrder(text: seq<int>, names: seq<int>, i: nat)
    requires NonNegative(text) && |text| >= 2 && NamesTriples(text, names) && NamesReflect(text, names)
    ensures !BadSeam(text, i)
  {
    var n := |text|;
    if i < Seam(n) && i % 3 != 0 && TripleEq(text, Seam(n), i) {
      var x, y := N0(n) - 1, Idx(n, i);
      SeamIsPast(n, x);
      PosOfIdx(n, i);
      NextNamed(n, y);
      LessByTriples(text, Seam(n), i);
      assert NamePair(text, names, x, y) && Reflects(text, names, x, y);
      assert Less(names, x + 1, y + 1);
      if y + 1 < |names| { assert Reflects(text, names, x + 1, y + 1); }
    }
  }

  /** So the names are in order exactly on the texts that have no such triple. */
  lemma NamesReflectExactly(text: seq<int>, names: seq<int>)
    requires NonNegative(text) && |text| >= 2 && NamesTriples(text, names)
    ensures NamesReflect(text, names) <==> NamesInOrder(text)
  {
    if NamesInOrder(text) {
      forall x: nat, y: nat | x < |names| && y < |names| && x != y ensures Reflects(text, names, x, y) {
        NamesReflectOrder(text, names, x, y);
      }
    }
    if NamesReflect(text, names) {
      forall i: nat ensures !BadSeam(text, i) { ReflectingNeedsOrder(text, names, i); }
    }
  }

  /** rank orders the entries of the name string as the text orders the positions they name. */
  ghost predicate RanksPositions(text: seq<int>, rank: seq<int>) {
    && |rank| == N02(|text|)
    && (forall x :: 0 <= x < |rank| ==> rank[x] >= 1)
    && forall x, y :: 0 <= x < |rank| && 0 <= y < |rank| && x != y ==>
         rank[x] != rank[y] && (rank[x] < rank[y] <==> Less(text, Pos(|text|, x), Pos(|text|, y)))
  }

  /** A text with zeros, and names for its triples. */
  function ZeroText(): seq<int> { [1, 1, 5, 1, 2, 0, 0, 2] }
  function ZeroNames(): seq<int> { [2, 3, 3, 4, 1] }

  /** The names of a text with zeros can mislead: by their order suffix 4 goes before suffix 7, a prefix of it. */
  lemma ZerosMislead()
    ensures NamesTriples(ZeroText(), ZeroNames())
    ensures Pos(|ZeroText()|, 1) == 4 && Pos(|ZeroText()|, 2) == 7
    ensures Less(ZeroNames(), 1, 2) && !Less(ZeroText(), 4, 7) && Less(ZeroText(), 7, 4)
  {
    var text, names := ZeroText(), ZeroNames();
    forall x, y ensures NamePair(text, names, x, y) {}
  }

  /** Ranks with a zero behind them decide between a position, or the end of the text, and another. */
  lemma RankDecides(text: seq<int>, rank: seq<int>, x: nat, y: nat, i: nat, j: nat)
    requires RanksPositions(text, rank) && x <= |rank| && y <= |rank| && i <= |text| && j <= |text| && i != j
    requires if x < |rank| then i == Pos(|text|, x) else i == |text|
    requires if y < |rank| then j == Pos(|text|, y) else j == |text|
    ensures At(rank, x) <= At(rank, y) <==> Less(text, i, j)
  {
  }

  /** The merge decides a position 1 modulo 3 against a multiple of 3 correctly. */
  lemma MergeMod1(text: seq<int>, rank: seq<int>, x: nat, y: nat)
    requires RanksPositions(text, rank) && |text| >= 2
    requires x < N0(|text|) && 3 * x + 1 < |text| && 3 * y < |text|
    ensures Less(text, 3 * x + 1, 3 * y) <==>
            || At(text, 3 * x + 1) < At(text, 3 * y)
            || (At(text, 3 * x + 1) == At(text, 3 * y) && At(rank, x + N0(|text|)) <= At(rank, y))
  {
    RankDecides(text, rank, x + N0(|text|), y, 3 * x + 2, 3 * y + 1);
  }

  /** The last position against one with the same letter and a zero after it, when there is nothing behind the last. */
  ghost predicate AtEnd(text: seq<int>, i: nat, j: nat) {
    |text| % 3 == 0 && i + 1 == |text| && At(text, i) == At(text, j) && At(text, j + 1) == 0
  }

  /**
   * The merge decides a position 2 modulo 3 against a multiple of 3 correctly, except that it compares suffix 2 where
   * the text has ended.
   */
  lemma MergeMod2(text: seq<int>, rank: seq<int>, x: nat, y: nat)
    requires NonNegative(text) && RanksPositions(text, rank) && |text| >= 2
    requires x < N2(|text|) && 3 * y < |text|
    ensures (if AtEnd(text, 3 * x + 2, 3 * y) then !Less(text, 3 * y + 2, 2) else Less(text, 3 * x + 2, 3 * y)) <==>
            || At(text, 3 * x + 2) < At(text, 3 * y)
            || (At(text, 3 * x + 2) == At(text, 3 * y)
                && (|| At(text, 3 * x + 3) < At(text, 3 * y + 1)
                    || (At(text, 3 * x + 3) == At(text, 3 * y + 1) && At(rank, x + 1) <= At(rank, y + N0(|text|)))))
  {
    var n, i, j := |text|, 3 * x + 2, 3 * y;
    if At(text, i) == At(text, j) && At(text, i + 1) == At(text, j + 1) {
      if i + 1 == n {
        LessTotal(text, 2, j + 2);
        if y > 0 { RankDecides(text, rank, x + 1, y + N0(n), 2, j + 2); }
      } else if j + 1 < n {
        RankDecides(text, rank, x + 1, y + N0(n), i + 2, j + 2);
      }
    }
  }
}
