/** The skew suffix sort of ssort.cc, on the arrays it fills in place. */
module SuffixArray {
  import opened Pigeonhole
  import opened SuffixOrder
  import opened RadixPass
  import opened SuffixNames
  import opened SuffixMerge
  import opened SuffixSortable

  /** s holds the text, padded with three zeros; every character of the text is in 0..K. */
  ghost predicate Padded(s: seq<int>, n: nat, K: nat) {
    && |s| >= n + 3
    && (forall i :: 0 <= i < n ==> 0 <= s[i] <= K)
    && s[n] == s[n + 1] == s[n + 2] == 0
  }

  /** The array s holds the text and three zeros after it. */
  ghost predicate Stores(s: array<int>, text: seq<int>)
    reads s
  {
    s.Length >= |text| + 3 && forall i {:trigger s[i]} :: 0 <= i < |text| + 3 ==> s[i] == At(text, i)
  }

  ghost predicate Letters(text: seq<int>, K: nat) {
    forall i {:trigger text[i]} :: 0 <= i < |text| ==> 0 <= text[i] <= K
  }

  /** The positions that are not multiples of three, with a dummy one at n when n % 3 == 1. */
  method FillPositions(s12: array<int>, n: nat)
    requires s12.Length >= N02(n)
    modifies s12
    ensures forall q :: 0 <= q < N02(n) ==> s12[q] == Nth(q)
    ensures forall q :: N02(n) <= q < s12.Length ==> s12[q] == old(s12[q])
  {
    var i, j := 0, 0;
    while i < n + (N0(n) - N1(n))
      invariant 0 <= i <= n + (N0(n) - N1(n))
      invariant j == 2 * (i / 3) + (if i % 3 == 2 then 1 else 0)
      invariant forall q :: 0 <= q < j ==> s12[q] == Nth(q)
      invariant forall q :: N02(n) <= q < s12.Length ==> s12[q] == old(s12[q])
    {
      if i % 3 != 0 {
        s12[j] := i;
        j := j + 1;
      }
      i := i + 1;
    }
  }

  /** One radix pass over positions, off characters into the text. */
  method PassAt(a: array<int>, b: array<int>, s: array<int>, off: nat, m: nat, K: nat, ghost text: seq<int>)
    returns (ghost keys: seq<int>, ghost order: seq<int>)
    requires a != b && b != s && m <= a.Length && m <= b.Length
    requires Stores(s, text) && Letters(text, K)
    requires forall q :: 0 <= q < m ==> 0 <= a[q] <= |text| && a[q] + off < |text| + 3
    modifies b
    ensures KeysAt(text, a[..m], off, keys) && Rearranged(a[..m], keys, order, b[..m])
    ensures forall z :: m <= z < b.Length ==> b[z] == old(b[z])
  {
    keys := Keys(a[..m], s[..], off);
    order := Pass(a, b, s, off, m, K);
  }

  /** a is a rearrangement of the positions p. */
  ghost predicate SamePositions(n: nat, p: seq<int>, a: seq<int>) {
    |a| == |p| && Distinct(a) && (forall v :: v in p <==> v in a) && forall z :: 0 <= z < |a| ==> 0 <= a[z] <= n
  }

  lemma FilledPositions(n: nat, p: seq<int>)
    requires |p| == N02(n) && forall q :: 0 <= q < |p| ==> p[q] == Nth(q)
    ensures SamePositions(n, p, p)
  {
    forall q | 0 <= q < |p| ensures 0 <= p[q] <= n { PosIdx(n, q); }
  }

  /** One of the three passes. */
  method TriplePass(a: array<int>, b: array<int>, s: array<int>, off: nat, n: nat, K: nat, ghost text: seq<int>,
                    ghost p: seq<int>)
    returns (ghost keys: seq<int>, ghost order: seq<int>)
    requires a != b && b != s && N02(n) <= a.Length && N02(n) <= b.Length && off <= 2
    requires |text| == n && Stores(s, text) && Letters(text, K)
    requires SamePositions(n, p, a[..N02(n)])
    modifies b
    ensures KeysAt(text, a[..N02(n)], off, keys) && Rearranged(a[..N02(n)], keys, order, b[..N02(n)])
    ensures SamePositions(n, p, b[..N02(n)])
    ensures forall z :: N02(n) <= z < b.Length ==> b[z] == old(b[z])
  {
    ghost var before := a[..N02(n)];
    forall q | 0 <= q < N02(n) ensures 0 <= a[q] <= n { assert before[q] == a[q]; }
    keys, order := PassAt(a, b, s, off, N02(n), K, text);
    ghost var after := b[..N02(n)];
    PassRearranges(before, after, keys, order);
    forall z | 0 <= z < |after| ensures 0 <= after[z] <= n { assert after[z] in after; }
  }

  /** The three least-significant-first passes over the positions not divisible by three. */
  method SortTriples(s: array<int>, s12: array<int>, SA12: array<int>, n: nat, K: nat, ghost text: seq<int>)
    requires s != s12 && s != SA12 && s12 != SA12
    requires s12.Length >= N02(n) && SA12.Length >= N02(n)
    requires |text| == n && Stores(s, text) && Letters(text, K)
    requires forall q :: 0 <= q < N02(n) ==> s12[q] == Nth(q)
    modifies s12, SA12
    ensures SortedByTriples(text, SA12[..N02(n)]) && ListsPositions(n, SA12[..N02(n)])
    ensures forall z :: N02(n) <= z < s12.Length ==> s12[z] == old(s12[z])
    ensures forall z :: N02(n) <= z < SA12.Length ==> SA12[z] == old(SA12[z])
  {
    var m := N02(n);
    ghost var p := s12[..m];
    FilledPositions(n, p);
    ghost var k1, o1 := TriplePass(s12, SA12, s, 2, n, K, text, p);
    ghost var a := SA12[..m];
    ghost var k2, o2 := TriplePass(SA12, s12, s, 1, n, K, text, p);
    ghost var b := s12[..m];
    ghost var k3, o3 := TriplePass(s12, SA12, s, 0, n, K, text, p);
    ghost var c := SA12[..m];
    ThreePasses(text, p, a, b, c, k1, k2, k3, o1, o2, o3);
    PositionsInRange(p, c, n);
    PositionsCovered(p, c, n);
  }

  /** A rearrangement of the positions still holds positions. */
  lemma PositionsInRange(p: seq<int>, c: seq<int>, n: nat)
    requires |p| == |c| == N02(n) && forall q :: 0 <= q < |p| ==> p[q] == Nth(q)
    requires forall v :: v in p <==> v in c
    ensures forall z :: 0 <= z < |c| ==>
              0 <= c[z] <= n && Idx(n, c[z]) < N02(n) && c[z] == Pos(n, Idx(n, c[z]))
  {
    forall z | 0 <= z < |c| ensures 0 <= c[z] <= n && Idx(n, c[z]) < N02(n) && c[z] == Pos(n, Idx(n, c[z])) {
      assert c[z] in c;
      var q :| 0 <= q < |p| && p[q] == c[z];
      PosIdx(n, q);
    }
  }

  lemma PositionsCovered(p: seq<int>, c: seq<int>, n: nat)
    requires |p| == N02(n) && forall q :: 0 <= q < |p| ==> p[q] == Nth(q)
    requires forall v :: v in p <==> v in c
    ensures forall x :: 0 <= x < N02(n) ==> Pos(n, x) in c
  {
    forall x | 0 <= x < N02(n) ensures Pos(n, x) in c {
      IdxPos(n, x);
      var q :| 0 <= q < N02(n) && Nth(q) == Pos(n, x);
      assert p[q] in p;
    }
  }

  /** sorted lists the positions not divisible by three, each once. */
  ghost predicate ListsPositions(n: nat, sorted: seq<int>) {
    && |sorted| == N02(n) && Distinct(sorted)
    && (forall z :: 0 <= z < |sorted| ==>
          0 <= sorted[z] <= n && Idx(n, sorted[z]) < N02(n) && sorted[z] == Pos(n, Idx(n, sorted[z])))
    && forall x :: 0 <= x < N02(n) ==> Pos(n, x) in sorted
  }

  /** From one triple to the next in sorted order the name grows by one exactly where the triple changes. */
  ghost predicate NameStep(text: seq<int>, sorted: seq<int>, nm: seq<int>, z: nat)
    requires 0 < z < |nm| <= |sorted| && sorted[z - 1] >= 0 && sorted[z] >= 0
  {
    nm[z] == nm[z - 1] + if TripleEq(text, sorted[z - 1], sorted[z]) then 0 else 1
  }

  /** nm lists the names of the first |nm| triples in sorted order. */
  ghost predicate NamesClimb(text: seq<int>, sorted: seq<int>, nm: seq<int>)
    requires forall z :: 0 <= z < |sorted| ==> sorted[z] >= 0
  {
    && |nm| <= |sorted|
    && (|nm| > 0 ==> nm[0] == 1)
    && forall z :: 0 < z < |nm| ==> NameStep(text, sorted, nm, z)
  }

  lemma TriplesDecide(text: seq<int>, i: nat, j: nat, k: nat)
    ensures !(TripleLess(text, i, j) && TripleEq(text, i, j)) && !(TripleLess(text, i, j) && TripleLess(text, j, i))
    ensures TripleLess(text, i, j) && (TripleLess(text, j, k) || TripleEq(text, j, k)) ==> TripleLess(text, i, k)
    ensures TripleEq(text, i, j) && TripleLess(text, j, k) ==> TripleLess(text, i, k)
    ensures TripleEq(text, i, j) && TripleEq(text, j, k) ==> TripleEq(text, i, k)
    ensures TripleEq(text, i, j) ==> TripleEq(text, j, i)
  {
  }

  /** Names grow with the triples, at most one at a time. */
  lemma {:induction false} NamesMonotone(text: seq<int>, sorted: seq<int>, nm: seq<int>, y: nat, z: nat)
    requires SortedByTriples(text, sorted) && NamesClimb(text, sorted, nm) && y <= z < |nm|
    ensures 0 <= nm[z] - nm[y] <= z - y
    ensures nm[y] == nm[z] <==> TripleEq(text, sorted[y], sorted[z])
    ensures nm[y] < nm[z] <==> TripleLess(text, sorted[y], sorted[z])
  {
    TriplesDecide(text, sorted[y], sorted[z], sorted[z]);
    if y < z {
      NamesMonotone(text, sorted, nm, y, z - 1);
      assert NameStep(text, sorted, nm, z);
      TriplesDecide(text, sorted[y], sorted[z - 1], sorted[z]);
      TriplesDecide(text, sorted[z - 1], sorted[z], sorted[z]);
    }
  }

  /** Two triples compare as their names do; when as many names as triples are used, all names differ. */
  lemma NamesCompare(text: seq<int>, sorted: seq<int>, nm: seq<int>, y: nat, z: nat)
    requires SortedByTriples(text, sorted) && NamesClimb(text, sorted, nm)
    requires y < |nm| && z < |nm| == |sorted|
    ensures 1 <= nm[y] <= nm[|nm| - 1] <= |nm|
    ensures nm[y] == nm[z] <==> TripleEq(text, sorted[y], sorted[z])
    ensures nm[y] < nm[z] <==> TripleLess(text, sorted[y], sorted[z])
    ensures nm[|nm| - 1] == |nm| ==> nm[y] == y + 1
  {
    NamesMonotone(text, sorted, nm, 0, y);
    NamesMonotone(text, sorted, nm, y, |nm| - 1);
    if y <= z {
      NamesMonotone(text, sorted, nm, y, z);
      TriplesDecide(text, sorted[y], sorted[z], sorted[y]);
    } else {
      NamesMonotone(text, sorted, nm, z, y);
      TriplesDecide(text, sorted[z], sorted[y], sorted[z]);
      TriplesDecide(text, sorted[y], sorted[z], sorted[y]);
    }
  }

  /** The entries of the name string at which the names of the sorted triples go. */
  ghost function Entries(n: nat, sorted: seq<int>): (entries: seq<int>)
    requires ListsPositions(n, sorted)
    ensures |entries| == |sorted| && Distinct(entries)
    ensures forall z {:trigger entries[z]} :: 0 <= z < |entries| ==>
              0 <= entries[z] < N02(n) && entries[z] == Idx(n, sorted[z]) && sorted[z] == Pos(n, entries[z])
  {
    seq(|sorted|, z requires 0 <= z < |sorted| => Idx(n, sorted[z]))
  }

  /** names holds the names nm at the first |nm| entries. */
  ghost predicate NamesStored(entries: seq<int>, nm: seq<int>, names: seq<int>)
    requires |nm| <= |entries|
  {
    forall z :: 0 <= z < |nm| ==> 0 <= entries[z] < |names| && names[entries[z]] == nm[z]
  }

  /** The finished names are ranks of triples, in 1..name; name == n02 only when all triples differ. */
  lemma NamesFinished(text: seq<int>, sorted: seq<int>, nm: seq<int>, names: seq<int>)
    requires ListsPositions(|text|, sorted) && |nm| == |sorted| == |names| > 0
    requires SortedByTriples(text, sorted) && NamesClimb(text, sorted, nm)
    requires NamesStored(Entries(|text|, sorted), nm, names)
    ensures NamesTriples(text, names)
    ensures forall x :: 0 <= x < |names| ==> 1 <= names[x] <= nm[|nm| - 1] <= |names|
    ensures nm[|nm| - 1] == |names| ==> Distinct(names)
  {
    var n := |text|;
    forall x | 0 <= x < |names| ensures 1 <= names[x] <= nm[|nm| - 1] <= |names| {
      var y := SpotOf(n, sorted, nm, names, x);
      NamesCompare(text, sorted, nm, y, y);
    }
    forall x, y | 0 <= x < |names| && 0 <= y < |names|
      ensures names[x] < names[y] <==> TripleLess(text, Pos(n, x), Pos(n, y))
      ensures names[x] == names[y] <==> TripleEq(text, Pos(n, x), Pos(n, y))
      ensures nm[|nm| - 1] == |names| && x != y ==> names[x] != names[y]
    {
      var p := SpotOf(n, sorted, nm, names, x);
      var q := SpotOf(n, sorted, nm, names, y);
      NamesCompare(text, sorted, nm, p, q);
      NamesCompare(text, sorted, nm, q, p);
      IdxPos(n, x);
      IdxPos(n, y);
    }
  }

  lemma SpotOf(n: nat, sorted: seq<int>, nm: seq<int>, names: seq<int>, x: nat) returns (z: nat)
    requires ListsPositions(n, sorted) && |nm| == |sorted| == |names| && x < |names|
    requires NamesStored(Entries(n, sorted), nm, names)
    ensures z < |sorted| && sorted[z] == Pos(n, x) && names[x] == nm[z]
  {
    assert Pos(n, x) in sorted;
    z :| 0 <= z < |sorted| && sorted[z] == Pos(n, x);
    IdxPos(n, x);
    assert Entries(n, sorted)[z] == x;
  }

  /** One more name: the climb goes on, and the entries written before keep their names. */
  lemma NamesExtend(text: seq<int>, sorted: seq<int>, entries: seq<int>, nm: seq<int>,
                    before: seq<int>, after: seq<int>, name: int) returns (more: seq<int>)
    requires |nm| < |sorted| == |entries| && Distinct(entries) && 0 <= entries[|nm|] < |before|
    requires forall z :: 0 <= z < |sorted| ==> sorted[z] >= 0
    requires NamesClimb(text, sorted, nm) && NamesStored(entries, nm, before)
    requires if |nm| == 0 then name == 1
             else name == nm[|nm| - 1] + if TripleEq(text, sorted[|nm| - 1], sorted[|nm|]) then 0 else 1
    requires after == before[entries[|nm|] := name]
    ensures |more| == |nm| + 1 && more[|nm|] == name
    ensures NamesClimb(text, sorted, more) && NamesStored(entries, more, after)
  {
    more := nm + [name];
    forall z | 0 < z < |more| ensures NameStep(text, sorted, more, z) {
      if z < |nm| { assert NameStep(text, sorted, nm, z); }
    }
    forall z | 0 <= z < |nm| ensures after[entries[z]] == nm[z] {
      assert entries[z] != entries[|nm|];
    }
  }

  /** name and c0, c1, c2 are those of the triple named last; none was named before the first. */
  ghost predicate LastTriple(text: seq<int>, sorted: seq<int>, nm: seq<int>, name: int, c0: int, c1: int, c2: int)
    requires |nm| <= |sorted| && forall z :: 0 <= z < |sorted| ==> sorted[z] >= 0
  {
    if |nm| == 0 then name == 0 && c0 == c1 == c2 == -1
    else
      var p := sorted[|nm| - 1];
      name == nm[|nm| - 1] && c0 == At(text, p) && c1 == At(text, p + 1) && c2 == At(text, p + 2)
  }

  /** The characters differ from those of the triple named last exactly where the triple changes. */
  lemma TripleChanges(text: seq<int>, sorted: seq<int>, nm: seq<int>, name: int, c0: int, c1: int, c2: int)
    requires NonNegative(text) && |nm| < |sorted| && forall z :: 0 <= z < |sorted| ==> sorted[z] >= 0
    requires LastTriple(text, sorted, nm, name, c0, c1, c2)
    ensures var p := sorted[|nm|];
            At(text, p) == c0 && At(text, p + 1) == c1 && At(text, p + 2) == c2
            <==> |nm| > 0 && TripleEq(text, sorted[|nm| - 1], p)
  {
  }

  /** What the naming loop knows of its inputs. */
  ghost predicate NameInputs(s: array<int>, SA12: array<int>, s12: array<int>, n: nat,
                             text: seq<int>, sorted: seq<int>, entries: seq<int>)
    reads s, SA12
  {
    && s != s12 && SA12 != s12 && s12.Length >= N02(n) && SA12.Length >= N02(n) == |entries|
    && |text| == n && Stores(s, text) && NonNegative(text)
    && sorted == SA12[..N02(n)] && (forall z :: 0 <= z < N02(n) ==> 0 <= sorted[z] <= n)
    && Distinct(entries)
    && forall z {:trigger entries[z]} :: 0 <= z < N02(n) ==> entries[z] == Idx(n, sorted[z]) < N02(n)
  }

  /** The triple at p, and a new name if it differs from the one given. */
  method CompareTriple(s: array<int>, p: nat, name0: nat, a0: int, a1: int, a2: int, ghost text: seq<int>)
    returns (name: nat, c0: int, c1: int, c2: int)
    requires Stores(s, text) && p <= |text|
    ensures c0 == At(text, p) && c1 == At(text, p + 1) && c2 == At(text, p + 2)
    ensures name == if c0 == a0 && c1 == a1 && c2 == a2 then name0 else name0 + 1
  {
    name, c0, c1, c2 := name0, a0, a1, a2;
    if s[p] != c0 || s[p + 1] != c1 || s[p + 2] != c2 {
      name, c0, c1, c2 := name + 1, s[p], s[p + 1], s[p + 2];
    }
  }

  /** One round of the naming loop: name grows where the triple differs from the one before. */
  method NameNext(s: array<int>, SA12: array<int>, s12: array<int>, n: nat, i: nat,
                  name0: nat, a0: int, a1: int, a2: int,
                  ghost text: seq<int>, ghost sorted: seq<int>, ghost entries: seq<int>, ghost nm0: seq<int>)
    returns (name: nat, c0: int, c1: int, c2: int, ghost nm: seq<int>)
    requires NameInputs(s, SA12, s12, n, text, sorted, entries)
    requires i == |nm0| < N02(n) && name0 <= i
    requires NamesClimb(text, sorted, nm0) && NamesStored(entries, nm0, s12[..N02(n)])
    requires LastTriple(text, sorted, nm0, name0, a0, a1, a2)
    modifies s12
    ensures |nm| == i + 1 && name <= i + 1
    ensures NamesClimb(text, sorted, nm) && NamesStored(entries, nm, s12[..N02(n)])
    ensures LastTriple(text, sorted, nm, name, c0, c1, c2)
    ensures s12[N02(n)..] == old(s12[N02(n)..])
  {
    var p := SA12[i];
    assert p == sorted[i];
    name, c0, c1, c2 := CompareTriple(s, p, name0, a0, a1, a2, text);
    TripleChanges(text, sorted, nm0, name0, a0, a1, a2);
    ghost var before := s12[..N02(n)];
    var entry := if p % 3 == 1 then p / 3 else p / 3 + N0(n);
    assert entry == entries[i];
    s12[entry] := name;
    ghost var after := s12[..N02(n)];
    assert after == before[entry := name];
    nm := NamesExtend(text, sorted, entries, nm0, before, after, name);
  }

  /** The naming loop. */
  method NameTriples(s: array<int>, SA12: array<int>, s12: array<int>, n: nat,
                     ghost text: seq<int>, ghost sorted: seq<int>, ghost entries: seq<int>)
    returns (name: nat, ghost nm: seq<int>)
    requires NameInputs(s, SA12, s12, n, text, sorted, entries)
    modifies s12
    ensures |nm| == N02(n) && name <= N02(n) && (N02(n) > 0 ==> name == nm[N02(n) - 1])
    ensures NamesClimb(text, sorted, nm) && NamesStored(entries, nm, s12[..N02(n)])
    ensures s12[N02(n)..] == old(s12[N02(n)..])
  {
    var c0, c1, c2 := -1, -1, -1;
    name, nm := 0, [];
    var i := 0;
    while i < N02(n)
      invariant 0 <= i == |nm| <= N02(n) && name <= i
      invariant NamesClimb(text, sorted, nm) && NamesStored(entries, nm, s12[..N02(n)])
      invariant LastTriple(text, sorted, nm, name, c0, c1, c2)
      invariant s12[N02(n)..] == old(s12[N02(n)..])
    {
      name, c0, c1, c2, nm := NameNext(s, SA12, s12, n, i, name, c0, c1, c2, text, sorted, entries, nm);
      i := i + 1;
    }
  }

  /** Writes into s12 the name of every triple, in text order. */
  method AssignNames(s: array<int>, SA12: array<int>, s12: array<int>, n: nat, K: nat, ghost text: seq<int>)
    returns (name: nat)
    requires s != s12 && SA12 != s12 && n >= 2
    requires |text| == n && Stores(s, text) && Letters(text, K) && s12.Length >= N02(n) && SA12.Length >= N02(n)
    requires ListsPositions(n, SA12[..N02(n)]) && SortedByTriples(text, SA12[..N02(n)])
    modifies s12
    ensures NamesTriples(text, s12[..N02(n)])
    ensures forall x :: 0 <= x < N02(n) ==> 1 <= s12[x] <= name
    ensures 1 <= name <= N02(n)
    ensures name == N02(n) ==> Distinct(s12[..N02(n)])
    ensures s12[N02(n)..] == old(s12[N02(n)..])
  {
    ghost var sorted := SA12[..N02(n)];
    ghost var nm: seq<int>;
    ghost var entries := Entries(n, sorted);
    assert NameInputs(s, SA12, s12, n, text, sorted, entries);
    name, nm := NameTriples(s, SA12, s12, n, text, sorted, entries);
    NamesFinished(text, sorted, nm, s12[..N02(n)]);
  }

  /** Renumbers the entries of s12 by their place in SA12. */
  method StoreRanks(s12: array<int>, SA12: array<int>, n02: nat)
    requires s12 != SA12 && s12.Length >= n02 && SA12.Length >= n02
    requires Distinct(SA12[..n02]) && forall z :: 0 <= z < n02 ==> 0 <= SA12[z] < n02
    modifies s12
    ensures forall z :: 0 <= z < n02 ==> s12[SA12[z]] == z + 1
    ensures s12[n02..] == old(s12[n02..])
  {
    ghost var entries := SA12[..n02];
    var i := 0;
    while i < n02
      invariant 0 <= i <= n02
      invariant forall z :: 0 <= z < i ==> s12[entries[z]] == z + 1
      invariant s12[n02..] == old(s12[n02..])
    {
      assert SA12[i] == entries[i];
      s12[SA12[i]] := i + 1;
      i := i + 1;
    }
  }

  /** With unique names the suffix array of s12 is the inverse of s12. */
  method InvertNames(s12: array<int>, SA12: array<int>, n02: nat)
    requires s12 != SA12 && s12.Length >= n02 && SA12.Length >= n02
    requires Distinct(s12[..n02]) && forall x :: 0 <= x < n02 ==> 1 <= s12[x] <= n02
    modifies SA12
    ensures Distinct(SA12[..n02]) && forall z :: 0 <= z < n02 ==> 0 <= SA12[z] < n02 && s12[SA12[z]] == z + 1
  {
    ghost var names := s12[..n02];
    ghost var zeroBased := seq(n02, x requires 0 <= x < n02 => names[x] - 1);
    Surjective(zeroBased, n02);
    var i := 0;
    while i < n02
      invariant 0 <= i <= n02
      invariant forall x :: 0 <= x < i ==> SA12[names[x] - 1] == x
    {
      assert s12[i] == names[i];
      SA12[s12[i] - 1] := i;
      i := i + 1;
    }
    forall z | 0 <= z < n02 ensures 0 <= SA12[z] < n02 && s12[SA12[z]] == z + 1 {
      assert z in zeroBased;
      var x :| 0 <= x < n02 && zeroBased[x] == z;
      assert names[x] == s12[x];
    }
  }

  /** The left-half entries among the first i of order, in that order. */
  ghost function LeftEntries(order: seq<int>, n0: nat, i: nat): (left: seq<int>)
    requires i <= |order| && forall z :: 0 <= z < |order| ==> order[z] >= 0
    ensures forall z :: 0 <= z < |left| ==> 0 <= left[z] < n0
  {
    if i == 0 then []
    else LeftEntries(order, n0, i - 1) + if order[i - 1] < n0 then [order[i - 1]] else []
  }

  lemma {:induction false} LeftEntriesAre(order: seq<int>, n0: nat, i: nat, x: int)
    requires i <= |order| && forall z :: 0 <= z < |order| ==> order[z] >= 0
    ensures x in LeftEntries(order, n0, i) <==> x in order[..i] && x < n0
  {
    if i > 0 {
      LeftEntriesAre(order, n0, i - 1, x);
      assert order[..i] == order[..i - 1] + [order[i - 1]];
    }
  }

  lemma {:induction false} LeftEntriesDistinct(order: seq<int>, n0: nat, i: nat)
    requires i <= |order| && Distinct(order) && forall z :: 0 <= z < |order| ==> order[z] >= 0
    ensures Distinct(LeftEntries(order, n0, i)) && |LeftEntries(order, n0, i)| <= n0
  {
    var left := LeftEntries(order, n0, i);
    if i > 0 {
      LeftEntriesDistinct(order, n0, i - 1);
      LeftEntriesAre(order, n0, i - 1, order[i - 1]);
    }
    AtMost(left, n0);
  }

  lemma LeftEntriesAll(order: seq<int>, n0: nat)
    requires Distinct(order) && forall z :: 0 <= z < |order| ==> order[z] >= 0
    requires forall x :: 0 <= x < n0 ==> x in order
    ensures |LeftEntries(order, n0, |order|)| == n0
  {
    LeftEntriesDistinct(order, n0, |order|);
    assert order[..|order|] == order;
    forall x | 0 <= x < n0 ensures x in LeftEntries(order, n0, |order|) { LeftEntriesAre(order, n0, |order|, x); }
    AtLeast(LeftEntries(order, n0, |order|), n0);
  }

  lemma LeftEntryBefore(text: seq<int>, order: seq<int>, rank: seq<int>, i: nat, x: int)
    requires Ranked(text, order, rank) && i < |order| && x in LeftEntries(order, N0(|text|), i) && order[i] < N0(|text|)
    ensures LessOneOn(text, x, order[i])
  {
    LeftEntriesAre(order, N0(|text|), i, x);
    var u :| 0 <= u < i && order[u] == x;
    RankedPair(text, order, rank, u, i);
  }

  /** The suffix one place to the right of 3x is less than the one to the right of 3y. */
  ghost predicate LessOneOn(text: seq<int>, x: int, y: int) {
    x >= 0 && y >= 0 && Less(text, 3 * x + 1, 3 * y + 1)
  }

  ghost predicate SortedOneOn(text: seq<int>, left: seq<int>) {
    forall y, z {:trigger LessOneOn(text, left[y], left[z])} :: 0 <= y < z < |left| ==>
      LessOneOn(text, left[y], left[z])
  }

  lemma LeftEntriesBefore(text: seq<int>, order: seq<int>, rank: seq<int>, i: nat, left: seq<int>)
    requires Ranked(text, order, rank) && i < |order| && order[i] < N0(|text|)
    requires left == LeftEntries(order, N0(|text|), i) && SortedOneOn(text, left)
    ensures SortedOneOn(text, left + [order[i]])
  {
    var more := left + [order[i]];
    forall y, z | 0 <= y < z < |more| ensures LessOneOn(text, more[y], more[z]) {
      if z < |left| {
        assert LessOneOn(text, left[y], left[z]);
      } else {
        LeftEntryBefore(text, order, rank, i, left[y]);
      }
    }
  }

  /** The collected positions are sorted by the suffixes one place to the right. */
  lemma {:induction false} LeftEntriesSorted(text: seq<int>, order: seq<int>, rank: seq<int>, i: nat)
    requires Ranked(text, order, rank) && i <= |order|
    ensures SortedOneOn(text, LeftEntries(order, N0(|text|), i))
  {
    if i > 0 {
      LeftEntriesSorted(text, order, rank, i - 1);
      if order[i - 1] < N0(|text|) {
        LeftEntriesBefore(text, order, rank, i - 1, LeftEntries(order, N0(|text|), i - 1));
      }
    }
  }

  /** Collects the multiples of three, in the order of the suffixes that follow them. */
  method CollectMod0(SA12: array<int>, s0: array<int>, n0: nat, n02: nat, ghost order: seq<int>)
    requires SA12 != s0 && n0 <= n02 <= SA12.Length && s0.Length >= n0
    requires order == SA12[..n02] && Distinct(order) && forall z :: 0 <= z < n02 ==> order[z] >= 0
    modifies s0
    ensures var left := LeftEntries(order, n0, n02);
            |left| <= n0 && forall z {:trigger s0[z]} :: 0 <= z < |left| ==> s0[z] == 3 * left[z]
  {
    var i, j := 0, 0;
    while i < n02
      invariant 0 <= i <= n02 && j == |LeftEntries(order, n0, i)| <= n0
      invariant forall z {:trigger s0[z]} :: 0 <= z < j ==> s0[z] == 3 * LeftEntries(order, n0, i)[z]
    {
      LeftEntriesDistinct(order, n0, i + 1);
      if SA12[i] < n0 {
        s0[j] := 3 * SA12[i];
        j := j + 1;
      }
      i := i + 1;
    }
  }

  /** The suffix position of entry SA12[t]: the GetI macro. */
  function GetI(n0: nat, x: nat): nat {
    if x < n0 then x * 3 + 1 else (x - n0) * 3 + 2
  }

  /** The condition under which the merge takes the suffix of entry x before the suffix at j. */
  predicate EntryFirst(s: array<int>, s12: array<int>, n0: nat, x: nat, j: nat)
    requires x < 2 * n0 && j / 3 < n0 && 2 * n0 <= s12.Length && 3 * n0 < s.Length && j + 1 < s.Length
    reads s, s12
  {
    var i := GetI(n0, x);
    if x < n0 then Leq2(s[i], s12[x + n0], s[j], s12[j / 3])
    else Leq3(s[i], s[i + 1], s12[x - n0 + 1], s[j], s[j + 1], s12[j / 3 + n0])
  }

  /** s12 holds the ranks, and one zero after them. */
  ghost predicate StoresRanks(s12: array<int>, rank: seq<int>)
    reads s12
  {
    s12.Length == |rank| + 3 && forall z {:trigger s12[z]} :: 0 <= z <= |rank| ==> s12[z] == At(rank, z)
  }

  /** On the arrays the test is that of the merge. */
  lemma EntryFirstIsFirst(s: array<int>, s12: array<int>, x: nat, j: nat, text: seq<int>, rank: seq<int>)
    requires |text| >= 2 && |rank| == N02(|text|) && Stores(s, text) && StoresRanks(s12, rank)
    requires x < |rank| && j < |text| && j % 3 == 0
    ensures var n0 := N0(|text|);
            && x < 2 * n0 && j / 3 < n0 && 2 * n0 <= s12.Length && 3 * n0 < s.Length && j + 1 < s.Length
            && (EntryFirst(s, s12, n0, x, j) <==> First(text, rank, Pos(|text|, x), j))
  {
    IdxPos(|text|, x);
  }

  /** The arrays hold what the merge compares: a in SA0, and the entries of b in SA12 from start on. */
  ghost predicate MergeArrays(s: array<int>, s12: array<int>, SA12: array<int>, SA0: array<int>, n0: nat, start: nat,
                              text: seq<int>, rank: seq<int>, a: seq<int>, b: seq<int>)
    reads s, s12, SA12, SA0
  {
    && |text| >= 2 && n0 == N0(|text|) == |a| && |rank| == N02(|text|) && Stores(s, text) && StoresRanks(s12, rank)
    && a == SA0[..] && (forall p {:trigger a[p]} :: 0 <= p < |a| ==> 0 <= a[p] < |text| && a[p] % 3 == 0)
    && Positions(a) && Positions(b) && EntriesOf(SA12, |text|, start, |rank|, b)
  }

  /** SA12 holds the entries of the positions b, from start on. */
  ghost predicate EntriesOf(SA12: array<int>, n: nat, start: nat, n02: nat, b: seq<int>)
    reads SA12
  {
    && start + |b| == n02 <= SA12.Length
    && forall u {:trigger b[u]} :: 0 <= u < |b| ==> 0 <= SA12[start + u] < n02 && b[u] == Pos(n, SA12[start + u])
  }

  /** SA holds the first k entries of the merge; p of a and u of b are used up. */
  ghost predicate Progress(SA: array<int>, text: seq<int>, rank: seq<int>, a: seq<int>, b: seq<int>, p: nat, u: nat,
                           k: nat)
    requires Positions(a) && Positions(b)
    reads SA
  {
    && p <= |a| && u <= |b| && k == p + u <= SA.Length
    && SA[..k] + Merged(text, rank, a[p..], b[u..]) == Merged(text, rank, a, b)
  }

  lemma TakeA(text: seq<int>, rank: seq<int>, a: seq<int>, b: seq<int>, p: nat, u: nat)
    requires Positions(a) && Positions(b) && p < |a| && u <= |b| && (u < |b| ==> !First(text, rank, b[u], a[p]))
    ensures Merged(text, rank, a[p..], b[u..]) == [a[p]] + Merged(text, rank, a[p + 1..], b[u..])
  {
    assert a[p..] == [a[p]] + a[p + 1..];
  }

  lemma TakeB(text: seq<int>, rank: seq<int>, a: seq<int>, b: seq<int>, p: nat, u: nat)
    requires Positions(a) && Positions(b) && p <= |a| && u < |b| && (p < |a| ==> First(text, rank, b[u], a[p]))
    ensures Merged(text, rank, a[p..], b[u..]) == [b[u]] + Merged(text, rank, a[p..], b[u + 1..])
  {
    assert b[u..] == [b[u]] + b[u + 1..];
  }

  lemma OnePut(before: seq<int>, after: seq<int>, v: int, rest: seq<int>, more: seq<int>)
    requires after == before + [v] && rest == [v] + more
    ensures before + rest == after + more
  {
  }

  /** SA[k] = v, where v is the head of a and comes next in the merge. */
  method PutA(SA: array<int>, k: nat, v: int,
              ghost text: seq<int>, ghost rank: seq<int>, ghost a: seq<int>, ghost b: seq<int>,
              ghost p: nat, ghost u: nat)
    requires Positions(a) && Positions(b) && k < SA.Length && Progress(SA, text, rank, a, b, p, u, k)
    requires p < |a| && v == a[p] && (u < |b| ==> !First(text, rank, b[u], a[p]))
    modifies SA
    ensures Progress(SA, text, rank, a, b, p + 1, u, k + 1)
    ensures forall z :: k < z < SA.Length ==> SA[z] == old(SA[z])
  {
    ghost var before := SA[..k];
    TakeA(text, rank, a, b, p, u);
    SA[k] := v;
    OnePut(before, SA[..k + 1], v, Merged(text, rank, a[p..], b[u..]), Merged(text, rank, a[p + 1..], b[u..]));
  }

  /** SA[k] = v, where v is the head of b and comes next in the merge. */
  method PutB(SA: array<int>, k: nat, v: int,
              ghost text: seq<int>, ghost rank: seq<int>, ghost a: seq<int>, ghost b: seq<int>,
              ghost p: nat, ghost u: nat)
    requires Positions(a) && Positions(b) && k < SA.Length && Progress(SA, text, rank, a, b, p, u, k)
    requires u < |b| && v == b[u] && (p < |a| ==> First(text, rank, b[u], a[p]))
    modifies SA
    ensures Progress(SA, text, rank, a, b, p, u + 1, k + 1)
    ensures forall z :: k < z < SA.Length ==> SA[z] == old(SA[z])
  {
    ghost var before := SA[..k];
    TakeB(text, rank, a, b, p, u);
    SA[k] := v;
    OnePut(before, SA[..k + 1], v, Merged(text, rank, a[p..], b[u..]), Merged(text, rank, a[p..], b[u + 1..]));
  }

  /** Only multiples of three are left: copies the rest of SA0. */
  method DrainMod0(SA0: array<int>, SA: array<int>, n0: nat, p0: nat, k0: nat,
                   ghost text: seq<int>, ghost rank: seq<int>, ghost a: seq<int>, ghost b: seq<int>)
    returns (p: nat, k: nat)
    requires SA != SA0 && a == SA0[..] && |a| == n0 && n0 + |b| <= SA.Length && Positions(a) && Positions(b)
    requires Progress(SA, text, rank, a, b, p0, |b|, k0)
    modifies SA
    ensures p == n0 && Progress(SA, text, rank, a, b, p, |b|, k)
    ensures forall z :: n0 + |b| <= z < SA.Length ==> SA[z] == old(SA[z])
  {
    p, k := p0, k0;
    while p < n0
      invariant Progress(SA, text, rank, a, b, p, |b|, k)
      invariant forall z :: n0 + |b| <= z < SA.Length ==> SA[z] == old(SA[z])
    {
      PutA(SA, k, SA0[p], text, rank, a, b, p, |b|);
      p, k := p + 1, k + 1;
    }
  }

  /** No multiples of three are left: copies the rest of SA12 as positions. */
  method DrainMod12(SA12: array<int>, SA: array<int>, n: nat, n02: nat, t0: nat, k0: nat, ghost start: nat,
                    ghost u0: nat, ghost text: seq<int>, ghost rank: seq<int>, ghost a: seq<int>, ghost b: seq<int>)
    returns (k: nat)
    requires SA != SA12 && |a| + |b| <= SA.Length && Positions(a) && Positions(b) && EntriesOf(SA12, n, start, n02, b)
    requires t0 == start + u0 && Progress(SA, text, rank, a, b, |a|, u0, k0)
    modifies SA
    ensures Progress(SA, text, rank, a, b, |a|, |b|, k)
    ensures forall z :: |a| + |b| <= z < SA.Length ==> SA[z] == old(SA[z])
  {
    var t := t0;
    ghost var u := u0;
    k := k0;
    while t < n02
      invariant t == start + u <= n02 && Progress(SA, text, rank, a, b, |a|, u, k)
      invariant forall z :: |a| + |b| <= z < SA.Length ==> SA[z] == old(SA[z])
    {
      assert b[u] == Pos(n, SA12[t]);
      PutB(SA, k, GetI(N0(n), SA12[t]), text, rank, a, b, |a|, u);
      t, k, u := t + 1, k + 1, u + 1;
    }
  }

  /** The two heads, and the test of the merge on them. */
  method TestHeads(s: array<int>, s12: array<int>, SA12: array<int>, SA0: array<int>, n0: nat, p: nat, t: nat,
                   ghost start: nat, ghost u: nat,
                   ghost text: seq<int>, ghost rank: seq<int>, ghost a: seq<int>, ghost b: seq<int>)
    returns (i: nat, j: nat, fromMod12: bool)
    requires MergeArrays(s, s12, SA12, SA0, n0, start, text, rank, a, b) && p < |a| && u < |b| && t == start + u
    ensures i == b[u] && j == a[p] && (fromMod12 <==> First(text, rank, i, j))
  {
    assert 0 <= SA12[t] && b[u] == Pos(|text|, SA12[t]) && a[p] == SA0[p];
    i, j := GetI(n0, SA12[t]), SA0[p];
    EntryFirstIsFirst(s, s12, SA12[t], j, text, rank);
    fromMod12 := EntryFirst(s, s12, n0, SA12[t], j);
  }

  /** The head that the test takes first is written to SA[k]. */
  method PutHead(SA: array<int>, i: nat, j: nat, fromMod12: bool, p0: nat, t0: nat, k0: nat, ghost u0: nat,
                 ghost text: seq<int>, ghost rank: seq<int>, ghost a: seq<int>, ghost b: seq<int>)
    returns (p: nat, t: nat, k: nat, ghost u: nat)
    requires Positions(a) && Positions(b) && k0 < SA.Length && Progress(SA, text, rank, a, b, p0, u0, k0)
    requires p0 < |a| && u0 < |b| && i == b[u0] && j == a[p0] && (fromMod12 <==> First(text, rank, i, j))
    modifies SA
    ensures t - u == t0 - u0 && k == k0 + 1 && Progress(SA, text, rank, a, b, p, u, k)
    ensures (p == p0 && u == u0 + 1) || (p == p0 + 1 && u == u0)
    ensures forall z :: k <= z < SA.Length ==> SA[z] == old(SA[z])
  {
    p, t, k, u := p0, t0, k0, u0;
    if fromMod12 {
      PutB(SA, k, i, text, rank, a, b, p, u);
      t, u := t + 1, u + 1;
    } else {
      PutA(SA, k, j, text, rank, a, b, p, u);
      p := p + 1;
    }
    k := k + 1;
  }

  /** One comparison of the two heads: the one that the test takes first is written to SA[k]. */
  method MergeStep(s: array<int>, s12: array<int>, SA12: array<int>, SA0: array<int>, SA: array<int>,
                   n0: nat, p0: nat, t0: nat, k0: nat, ghost start: nat, ghost u0: nat,
                   ghost text: seq<int>, ghost rank: seq<int>, ghost a: seq<int>, ghost b: seq<int>)
    returns (p: nat, t: nat, k: nat, ghost u: nat)
    requires SA != s && SA != s12 && SA != SA12 && SA != SA0 && SA.Length >= |a| + |b|
    requires MergeArrays(s, s12, SA12, SA0, n0, start, text, rank, a, b)
    requires p0 < |a| && u0 < |b| && t0 == start + u0 && Progress(SA, text, rank, a, b, p0, u0, k0)
    modifies SA
    ensures t == start + u && k == k0 + 1 && Progress(SA, text, rank, a, b, p, u, k)
    ensures (p == p0 && u == u0 + 1) || (p == p0 + 1 && u == u0)
    ensures forall z :: k <= z < SA.Length ==> SA[z] == old(SA[z])
  {
    var i, j, fromMod12 := TestHeads(s, s12, SA12, SA0, n0, p0, t0, start, u0, text, rank, a, b);
    p, t, k, u := PutHead(SA, i, j, fromMod12, p0, t0, k0, u0, text, rank, a, b);
  }

  /** One round of the merge loop; when one input runs out, the other one is copied. */
  method MergeRound(s: array<int>, s12: array<int>, SA12: array<int>, SA0: array<int>, SA: array<int>,
                    n: nat, n0: nat, n02: nat, p0: nat, t0: nat, k0: nat, ghost start: nat, ghost u0: nat,
                    ghost text: seq<int>, ghost rank: seq<int>, ghost a: seq<int>, ghost b: seq<int>)
    returns (p: nat, t: nat, k: nat, ghost u: nat)
    requires SA != s && SA != s12 && SA != SA12 && SA != SA0 && SA.Length >= |a| + |b| && |text| == n && |rank| == n02
    requires MergeArrays(s, s12, SA12, SA0, n0, start, text, rank, a, b)
    requires p0 < n0 && t0 == start + u0 < n02 && Progress(SA, text, rank, a, b, p0, u0, k0)
    modifies SA
    ensures t == start + u && k0 < k && Progress(SA, text, rank, a, b, p, u, k)
    ensures p == n0 <==> t == n02
    ensures forall z :: |a| + |b| <= z < SA.Length ==> SA[z] == old(SA[z])
  {
    p, t, k, u := MergeStep(s, s12, SA12, SA0, SA, n0, p0, t0, k0, start, u0, text, rank, a, b);
    if t == n02 {
      p, k := DrainMod0(SA0, SA, n0, p, k, text, rank, a, b);
    } else if p == n0 {
      k := DrainMod12(SA12, SA, n, n02, t, k, start, u, text, rank, a, b);
      t, u := n02, |b|;
    }
  }

  /** The merge loop. */
  method MergeAll(s: array<int>, s12: array<int>, SA12: array<int>, SA0: array<int>, SA: array<int>,
                  n: nat, n0: nat, n02: nat, start: nat,
                  ghost text: seq<int>, ghost rank: seq<int>, ghost a: seq<int>, ghost b: seq<int>)
    requires SA != s && SA != s12 && SA != SA12 && SA != SA0 && SA.Length >= |a| + |b| == n == |text| && |rank| == n02
    requires MergeArrays(s, s12, SA12, SA0, n0, start, text, rank, a, b) && a != [] && b != []
    modifies SA
    ensures SA[..n] == Merged(text, rank, a, b)
    ensures forall z :: n <= z < SA.Length ==> SA[z] == old(SA[z])
  {
    var p: nat, t: nat, k: nat := 0, start, 0;
    ghost var u: nat := 0;
    assert a[0..] == a && b[0..] == b;
    while k < n
      invariant t == start + u && Progress(SA, text, rank, a, b, p, u, k)
      invariant p == n0 <==> t == n02
      invariant forall z :: n <= z < SA.Length ==> SA[z] == old(SA[z])
    {
      p, t, k, u := MergeRound(s, s12, SA12, SA0, SA, n, n0, n02, p, t, k, start, u, text, rank, a, b);
    }
    NothingLeft(text, rank, a, b, SA[..n]);
  }

  lemma NothingLeft(text: seq<int>, rank: seq<int>, a: seq<int>, b: seq<int>, sa: seq<int>)
    requires Positions(a) && Positions(b)
    ensures sa + Merged(text, rank, a[|a|..], b[|b|..]) == sa
  {
  }

  /** Merges the multiples of three and the other positions into SA. */
  method Merge(s: array<int>, s12: array<int>, SA12: array<int>, SA0: array<int>, SA: array<int>, n: nat,
               ghost text: seq<int>, ghost a: seq<int>, ghost order: seq<int>, ghost rank: seq<int>)
    requires SA != s && SA != s12 && SA != SA12 && SA != SA0 && SA.Length >= |text| == n
    requires MergeInputs(text, a, order, rank) && a == SA0[..] && SA12.Length >= |order| && order == SA12[..|order|]
    requires Stores(s, text) && StoresRanks(s12, rank)
    modifies SA
    ensures SA[..n] == Result(text, a, order, rank)
    ensures forall z :: n <= z < SA.Length ==> SA[z] == old(SA[z])
  {
    ghost var b := PositionsFrom(n, order, Start(n));
    StoredEntries(SA12, n, order, b);
    MergeAll(s, s12, SA12, SA0, SA, n, N0(n), N02(n), N0(n) - N1(n), text, rank, a, b);
  }

  lemma StoredEntries(SA12: array<int>, n: nat, order: seq<int>, b: seq<int>)
    requires n >= 2 && |order| == N02(n) <= SA12.Length && order == SA12[..N02(n)]
    requires (forall z :: 0 <= z < |order| ==> 0 <= order[z] < |order|) && b == PositionsFrom(n, order, Start(n))
    ensures EntriesOf(SA12, n, Start(n), N02(n), b) && N0(n) + |b| == n && N0(n) > 0 && |b| > 0
  {
    forall u | 0 <= u < |b| ensures 0 <= SA12[Start(n) + u] < N02(n) && b[u] == Pos(n, SA12[Start(n) + u]) {
      assert SA12[Start(n) + u] == order[Start(n) + u];
    }
  }

  /** Orders the name string: by recursion where names repeat, by inversion where they do not. */
  method OrderNames(s12: array<int>, SA12: array<int>, n02: nat, name: nat, ghost names: seq<int>)
    requires s12 != SA12 && s12.Length == SA12.Length == n02 + 3 && 1 <= name <= n02
    requires names == s12[..n02] && forall x :: 0 <= x < n02 ==> 1 <= names[x] <= name
    requires name == n02 ==> Distinct(names)
    requires forall z :: n02 <= z < n02 + 3 ==> s12[z] == 0
    modifies s12, SA12
    ensures OrdersNames(names, SA12[..n02], s12[..n02])
    ensures forall z :: n02 <= z < n02 + 3 ==> s12[z] == 0
    decreases n02, 2
  {
    if name < n02 {
      Sort(s12, SA12, n02, name);
      PositiveIsSortable(names);
      ghost var order := SA12[..n02];
      forall y, z | 0 <= y < z < n02 ensures order[y] != order[z] { LessIrreflexive(names, order[y]); }
      StoreRanks(s12, SA12, n02);
      assert SA12[..n02] == order;
      forall z | n02 <= z < n02 + 3 ensures s12[z] == 0 { assert s12[n02..][z - n02] == 0; }
    } else {
      InvertNames(s12, SA12, n02);
      ghost var order := SA12[..n02];
      forall y, z | 0 <= y < z < n02
        ensures Less(names, order[y], order[z])
      {
        assert names[order[y]] == y + 1 && names[order[z]] == z + 1;
      }
    }
  }

  /** Ranks the positions that are not multiples of three: names, then recursion where names repeat. */
  method RankMod12(s: array<int>, s12: array<int>, SA12: array<int>, n: nat, K: nat, ghost text: seq<int>)
    returns (ghost names: seq<int>)
    requires s != s12 && s != SA12 && s12 != SA12 && n >= 2
    requires |text| == n && Stores(s, text) && Letters(text, K) && s12.Length == SA12.Length == N02(n) + 3
    requires forall z :: N02(n) <= z < N02(n) + 3 ==> s12[z] == 0
    modifies s12, SA12
    ensures NamesTriples(text, names) && OrdersNames(names, SA12[..N02(n)], s12[..N02(n)])
    ensures forall z :: N02(n) <= z < N02(n) + 3 ==> s12[z] == 0
    decreases n, 0
  {
    var n02 := N02(n);
    FillPositions(s12, n);
    SortTriples(s, s12, SA12, n, K, text);
    var name := AssignNames(s, SA12, s12, n, K, text);
    names := s12[..n02];
    forall z | n02 <= z < n02 + 3 ensures s12[z] == 0 { assert s12[n02..][z - n02] == 0; }
    OrderNames(s12, SA12, n02, name, names);
  }

  /** All multiples of three are collected, if the ranks are right in the order of the suffixes behind them. */
  lemma AllCollected(text: seq<int>, names: seq<int>, order: seq<int>, rank: seq<int>)
    requires OrdersNames(names, order, rank) && |names| == N02(|text|)
    ensures Distinct(order)
    ensures var left := LeftEntries(order, N0(|text|), |order|);
            |left| == N0(|text|) && (Ranked(text, order, rank) ==> SortedOneOn(text, left))
  {
    Surjective(order, |order|);
    LeftEntriesAll(order, N0(|text|));
    if Ranked(text, order, rank) { LeftEntriesSorted(text, order, rank, |order|); }
  }

  lemma MultipleInText(n: nat, x: int)
    requires 0 <= x < N0(n)
    ensures 0 <= 3 * x < n && 3 * x % 3 == 0
  {
  }

  lemma MultiplesInText(n: nat, left: seq<int>, a: seq<int>)
    requires |a| == |left| && forall z :: 0 <= z < |left| ==> 0 <= left[z] < N0(n) && a[z] == 3 * left[z]
    ensures forall z :: 0 <= z < |a| ==> 0 <= a[z] < n && a[z] % 3 == 0
  {
    forall z | 0 <= z < |a| ensures 0 <= a[z] < n && a[z] % 3 == 0 { MultipleInText(n, left[z]); }
  }

  lemma SortedTimes3(text: seq<int>, left: seq<int>, a: seq<int>)
    requires SortedOneOn(text, left) && |a| == |left|
    requires forall z :: 0 <= z < |left| ==> 0 <= left[z] && a[z] == 3 * left[z]
    ensures forall y, z :: 0 <= y < z < |a| ==> 0 <= a[y] && 0 <= a[z] && Less(text, a[y] + 1, a[z] + 1)
  {
    forall y, z | 0 <= y < z < |a| ensures 0 <= a[y] && 0 <= a[z] && Less(text, a[y] + 1, a[z] + 1) {
      assert LessOneOn(text, left[y], left[z]);
      assert a[y] == 3 * left[y] && a[z] == 3 * left[z];
    }
  }

  /** Sorts the multiples of three: a stable pass by first character over the order of the suffixes behind them. */
  method SortMod0(s: array<int>, SA12: array<int>, SA0: array<int>, n: nat, K: nat,
                  ghost text: seq<int>, ghost names: seq<int>, ghost order: seq<int>, ghost rank: seq<int>)
    requires SA0 != s && SA0 != SA12 && n >= 2 && SA0.Length == N0(n) && SA12.Length >= N02(n)
    requires |text| == n && Stores(s, text) && Letters(text, K)
    requires order == SA12[..N02(n)] && OrdersNames(names, order, rank)
    modifies SA0
    ensures MergeInputs(text, SA0[..], order, rank)
  {
    var s0 := new int[N0(n)](_ => 0);
    AllCollected(text, names, order, rank);
    CollectMod0(SA12, s0, N0(n), N02(n), order);
    ghost var unsorted := s0[..];
    ghost var left := LeftEntries(order, N0(n), N02(n));
    MultiplesInText(n, left, unsorted);
    ghost var keys, o := PassAt(s0, SA0, s, 0, N0(n), K, text);
    assert s0[..N0(n)] == unsorted && SA0[..N0(n)] == SA0[..];
    Mod0InText(text, unsorted, keys, o, SA0[..]);
    if Ranked(text, order, rank) {
      SortedTimes3(text, left, unsorted);
      Mod0Sorted(text, unsorted, keys, o, SA0[..]);
    }
  }

  /** suffixArray(s, SA, n, K): SA[0..n) becomes the suffix array of s[0..n), exactly if that is sortable. */
  method Sort(s: array<int>, SA: array<int>, n: nat, K: nat)
    requires s != SA && n >= 2 && SA.Length >= n && Padded(s[..], n, K)
    modifies SA
    ensures IsSuffixArray(s[..n], SA[..n]) <==> Sortable(s[..n])
    ensures Positive(s[..n]) ==> IsSuffixArray(s[..n], SA[..n])
    ensures forall z :: n <= z < SA.Length ==> SA[z] == old(SA[z])
    decreases n, 1
  {
    var s12 := new int[N02(n) + 3](_ => 0);
    var SA12 := new int[N02(n) + 3](_ => 0);
    ghost var text := s[..n];
    assert forall i :: 0 <= i < n + 3 ==> s[..][i] == s[i];
    ghost var names := RankMod12(s, s12, SA12, n, K, text);
    ghost var order, rank := SA12[..N02(n)], s12[..N02(n)];
    var SA0 := new int[N0(n)](_ => 0);
    SortMod0(s, SA12, SA0, n, K, text, names, order, rank);
    Merge(s, s12, SA12, SA0, SA, n, text, SA0[..], order, rank);
    SortedExactly(text, names, SA0[..], order, rank);
    if Positive(text) { PositiveIsSortable(text); }
  }
}
