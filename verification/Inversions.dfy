/** Inversions of a sequence, and what exchanging two entries does to their number. */
module Inversions {
  import opened Pigeonhole

  /** How many entries are smaller than x. */
  ghost function Smaller(s: seq<int>, x: int): nat {
    if s == [] then 0 else (if x > s[0] then 1 else 0) + Smaller(s[1..], x)
  }

  /** How many pairs stand in descending order. */
  ghost function Inverted(s: seq<int>): nat {
    if s == [] then 0 else Smaller(s[1..], s[0]) + Inverted(s[1..])
  }

  ghost function Exchanged(s: seq<int>, i: int, j: int): seq<int>
    requires 0 <= i < |s| && 0 <= j < |s|
  {
    s[i := s[j]][j := s[i]]
  }

  lemma {:induction false} SmallerExchanged(s: seq<int>, k: nat, x: int)
    requires k + 1 < |s|
    ensures Smaller(Exchanged(s, k, k + 1), x) == Smaller(s, x)
  {
    var t := Exchanged(s, k, k + 1);
    if k == 0 {
      assert t[1..][1..] == s[1..][1..];
    } else {
      assert t[1..] == Exchanged(s[1..], k - 1, k);
      SmallerExchanged(s[1..], k - 1, x);
    }
  }

  /** Exchanging neighbours adds or removes exactly one inversion. */
  lemma {:induction false} NeighboursExchanged(s: seq<int>, k: nat)
    requires k + 1 < |s| && s[k] != s[k + 1]
    ensures Inverted(Exchanged(s, k, k + 1)) == if s[k] < s[k + 1] then Inverted(s) + 1 else Inverted(s) - 1
  {
    var t := Exchanged(s, k, k + 1);
    if k == 0 {
      var rest := s[2..];
      assert s[1..][1..] == rest && t[1..][1..] == rest;
    } else {
      assert t[1..] == Exchanged(s[1..], k - 1, k);
      SmallerExchanged(s[1..], k - 1, s[0]);
      NeighboursExchanged(s[1..], k - 1);
    }
  }

  lemma StillDifferent(s: seq<int>, i: nat, j: nat)
    requires i < |s| && j < |s| && i != j && Distinct(s)
    ensures Distinct(Exchanged(s, i, j))
  {
  }

  lemma ThreeExchanges(s: seq<int>, i: nat, j: nat)
    requires i < j - 1 && j < |s|
    ensures Exchanged(Exchanged(Exchanged(s, j - 1, j), i, j - 1), j - 1, j) == Exchanged(s, i, j)
  {
  }

  ghost predicate Flips(s: seq<int>, t: seq<int>) { Inverted(s) % 2 != Inverted(t) % 2 }

  lemma NeighboursFlip(s: seq<int>, k: nat)
    requires k + 1 < |s| && Distinct(s)
    ensures Flips(s, Exchanged(s, k, k + 1)) && Distinct(Exchanged(s, k, k + 1))
  {
    NeighboursExchanged(s, k);
    StillDifferent(s, k, k + 1);
  }

  /** Exchanging any two entries of different ones changes the parity of the number of inversions. */
  lemma {:induction false} ExchangeFlips(s: seq<int>, i: nat, j: nat)
    requires i < j < |s| && Distinct(s)
    ensures Flips(s, Exchanged(s, i, j))
    decreases j - i
  {
    if j == i + 1 {
      NeighboursFlip(s, i);
    } else {
      var a := Exchanged(s, j - 1, j);
      var b := Exchanged(a, i, j - 1);
      NeighboursFlip(s, j - 1);
      ExchangeFlips(a, i, j - 1);
      StillDifferent(a, i, j - 1);
      NeighboursFlip(b, j - 1);
      ThreeExchanges(s, i, j);
    }
  }

  lemma {:induction false} NoneSmaller(s: seq<int>, x: int)
    requires forall i :: 0 <= i < |s| ==> x <= s[i]
    ensures Smaller(s, x) == 0
  {
    if s != [] { NoneSmaller(s[1..], x); }
  }

  lemma {:induction false} AscendingHasNone(s: seq<int>)
    requires forall i, j :: 0 <= i < j < |s| ==> s[i] <= s[j]
    ensures Inverted(s) == 0
  {
    if s != [] {
      NoneSmaller(s[1..], s[0]);
      AscendingHasNone(s[1..]);
    }
  }
}
