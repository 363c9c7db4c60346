/** The merge of the skew algorithm as a function, and what its result says of its inputs and tests. */
module SuffixMerge {
  import opened SuffixOrder
  import opened SuffixNames

  /** The leq tests of the source. */
  predicate Leq2(a1: int, a2: int, b1: int, b2: int) {
    a1 < b1 || (a1 == b1 && a2 <= b2)
  }

  predicate Leq3(a1: int, a2: int, a3: int, b1: int, b2: int, b3: int) {
    a1 < b1 || (a1 == b1 && Leq2(a2, a3, b2, b3))
  }

  /** Whether the merge takes suffix i, no multiple of three, before suffix j, a multiple of three. */
  predicate First(text: seq<int>, rank: seq<int>, i: nat, j: nat) {
    var n0, x := N0(|text|), Idx(|text|, i);
    if i % 3 == 1 then Leq2(At(text, i), At(rank, x + n0), At(text, j), At(rank, j / 3))
    else Leq3(At(text, i), At(text, i + 1), At(rank, i / 3 + 1), At(text, j), At(text, j + 1), At(rank, j / 3 + n0))
  }

  /** All numbers of s are positions. */
  predicate Positions(s: seq<int>) { forall k :: 0 <= k < |s| ==> s[k] >= 0 }

  /** The merge of a, the multiples of three, with b, the other positions. */
  ghost function Merged(text: seq<int>, rank: seq<int>, a: seq<int>, b: seq<int>): (m: seq<int>)
    requires Positions(a) && Positions(b)
    ensures Positions(m)
    decreases |a| + |b|
  {
    if b == [] then a
    else if a == [] || First(text, rank, b[0], a[0]) then [b[0]] + Merged(text, rank, a, b[1..])
    else [a[0]] + Merged(text, rank, a[1..], b)
  }

  /** Neither input loses or gains anything. */
  lemma {:induction false} MergedHolds(text: seq<int>, rank: seq<int>, a: seq<int>, b: seq<int>)
    requires Positions(a) && Positions(b)
    ensures var m := Merged(text, rank, a, b); |m| == |a| + |b| && forall v :: v in m <==> v in a || v in b
    decreases |a| + |b|
  {
    if b != [] {
      assert b == [b[0]] + b[1..];
      if a == [] || First(text, rank, b[0], a[0]) {
        MergedHolds(text, rank, a, b[1..]);
      } else {
        assert a == [a[0]] + a[1..];
        MergedHolds(text, rank, a[1..], b);
      }
    }
  }

  ghost predicate Ascending(text: seq<int>, s: seq<int>)
    requires Positions(s)
  {
    forall k, l :: 0 <= k < l < |s| ==> Less(text, s[k], s[l])
  }

  /** Suffix i is less than all of s. */
  ghost predicate LessThanAll(text: seq<int>, i: nat, s: seq<int>)
    requires Positions(s)
  {
    forall k :: 0 <= k < |s| ==> Less(text, i, s[k])
  }

  lemma AscendingCons(text: seq<int>, i: nat, s: seq<int>)
    requires Positions(s)
    ensures Ascending(text, [i] + s) <==> LessThanAll(text, i, s) && Ascending(text, s)
  {
    var t := [i] + s;
    if Ascending(text, t) {
      forall k | 0 <= k < |s| ensures Less(text, i, s[k]) { assert t[0] == i && t[k + 1] == s[k]; }
      forall k, l | 0 <= k < l < |s| ensures Less(text, s[k], s[l]) { assert t[k + 1] == s[k] && t[l + 1] == s[l]; }
    }
  }

  lemma LessThanAllMerged(text: seq<int>, rank: seq<int>, a: seq<int>, b: seq<int>, i: nat)
    requires Positions(a) && Positions(b)
    ensures LessThanAll(text, i, Merged(text, rank, a, b)) <==> LessThanAll(text, i, a) && LessThanAll(text, i, b)
  {
    var m := Merged(text, rank, a, b);
    MergedHolds(text, rank, a, b);
    forall k | 0 <= k < |a| ensures a[k] in m { }
    forall k | 0 <= k < |b| ensures b[k] in m { }
    if LessThanAll(text, i, a) && LessThanAll(text, i, b) {
      forall k | 0 <= k < |m| ensures Less(text, i, m[k]) { assert m[k] in m; }
    }
  }

  lemma LessThanHead(text: seq<int>, i: nat, s: seq<int>)
    requires Positions(s) && Ascending(text, s) && s != [] && Less(text, i, s[0])
    ensures LessThanAll(text, i, s)
  {
    forall k | 0 <= k < |s| ensures Less(text, i, s[k]) {
      if k > 0 { LessTransitive(text, i, s[0], s[k]); }
    }
  }

  /** The test decides i against j as their suffixes compare. */
  ghost predicate Decides(text: seq<int>, rank: seq<int>, i: nat, j: nat) {
    (First(text, rank, i, j) <==> Less(text, i, j)) && (Less(text, i, j) || Less(text, j, i))
  }

  ghost predicate AllDecided(text: seq<int>, rank: seq<int>, a: seq<int>, b: seq<int>)
    requires Positions(a) && Positions(b)
  {
    forall p, t {:trigger Decides(text, rank, b[t], a[p])} :: 0 <= p < |a| && 0 <= t < |b| ==>
      Decides(text, rank, b[t], a[p])
  }

  /** Sorted inputs and right decisions give a sorted result. */
  lemma {:induction false} MergedAscends(text: seq<int>, rank: seq<int>, a: seq<int>, b: seq<int>)
    requires Positions(a) && Positions(b) && Ascending(text, a) && Ascending(text, b) && AllDecided(text, rank, a, b)
    ensures Ascending(text, Merged(text, rank, a, b))
    decreases |a| + |b|
  {
    if b != [] {
      if a != [] { assert Decides(text, rank, b[0], a[0]); }
      if a == [] || First(text, rank, b[0], a[0]) {
        assert b == [b[0]] + b[1..];
        AscendingCons(text, b[0], b[1..]);
        MergedAscends(text, rank, a, b[1..]);
        if a != [] { LessThanHead(text, b[0], a); }
        LessThanAllMerged(text, rank, a, b[1..], b[0]);
        AscendingCons(text, b[0], Merged(text, rank, a, b[1..]));
      } else {
        assert a == [a[0]] + a[1..];
        AscendingCons(text, a[0], a[1..]);
        MergedAscends(text, rank, a[1..], b);
        LessThanHead(text, a[0], b);
        LessThanAllMerged(text, rank, a[1..], b, a[0]);
        AscendingCons(text, a[0], Merged(text, rank, a[1..], b));
      }
    }
  }

  /** A sorted result has sorted inputs. */
  lemma {:induction false} InputsAscend(text: seq<int>, rank: seq<int>, a: seq<int>, b: seq<int>)
    requires Positions(a) && Positions(b) && Ascending(text, Merged(text, rank, a, b))
    ensures Ascending(text, a) && Ascending(text, b)
    decreases |a| + |b|
  {
    if b != [] {
      if a == [] || First(text, rank, b[0], a[0]) {
        LessThanAllMerged(text, rank, a, b[1..], b[0]);
        AscendingCons(text, b[0], Merged(text, rank, a, b[1..]));
        InputsAscend(text, rank, a, b[1..]);
        AscendingCons(text, b[0], b[1..]);
        assert b == [b[0]] + b[1..];
      } else {
        LessThanAllMerged(text, rank, a[1..], b, a[0]);
        AscendingCons(text, a[0], Merged(text, rank, a[1..], b));
        InputsAscend(text, rank, a[1..], b);
        AscendingCons(text, a[0], a[1..]);
        assert a == [a[0]] + a[1..];
      }
    }
  }

  /** j is greater than i, but the test does not take i first, for j or anything between. */
  ghost predicate Misjudged(text: seq<int>, rank: seq<int>, a: seq<int>, i: nat, j: nat)
    requires Positions(a)
  {
    && Less(text, i, j)
    && forall p :: 0 <= p < |a| && Less(text, i, a[p]) && !Less(text, j, a[p]) ==> !First(text, rank, i, a[p])
  }

  /** Then the result is not sorted: before i is taken, something greater is. */
  lemma {:induction false} MisjudgedShows(text: seq<int>, rank: seq<int>, a: seq<int>, b: seq<int>, i: nat, j: nat)
    requires Positions(a) && Positions(b) && i in b && j in a && Misjudged(text, rank, a, i, j)
    ensures !Ascending(text, Merged(text, rank, a, b))
    decreases |a| + |b|
  {
    if Ascending(text, Merged(text, rank, a, b)) {
      InputsAscend(text, rank, a, b);
      if First(text, rank, b[0], a[0]) {
        AscendingCons(text, b[0], Merged(text, rank, a, b[1..]));
        LessThanAllMerged(text, rank, a, b[1..], b[0]);
        HeadNotBehind(text, a, j);
        assert b[0] != i;
        MisjudgedShows(text, rank, a, b[1..], i, j);
      } else {
        AscendingCons(text, a[0], Merged(text, rank, a[1..], b));
        LessThanAllMerged(text, rank, a[1..], b, a[0]);
        LessTotal(text, i, j);
        assert a[0] != j;
        MisjudgedShows(text, rank, a[1..], b, i, j);
      }
    }
  }

  lemma HeadNotBehind(text: seq<int>, a: seq<int>, j: nat)
    requires Positions(a) && Ascending(text, a) && j in a
    ensures !Less(text, j, a[0])
  {
    var p :| 0 <= p < |a| && a[p] == j;
    if p > 0 {
      if Less(text, j, a[0]) {
        LessTransitive(text, j, a[0], j);
        LessIrreflexive(text, j);
      }
    } else {
      LessIrreflexive(text, j);
    }
  }
}
