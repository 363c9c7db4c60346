/** Counting facts about injective lists of small numbers. */
module Pigeonhole {

  ghost predicate Distinct<T>(s: seq<T>) {
    forall k, l :: 0 <= k < l < |s| ==> s[k] != s[l]
  }

  ghost function Below(n: nat): (all: set<int>)
    ensures |all| == n
    ensures forall v :: v in all <==> 0 <= v < n
  {
    if n == 0 then {} else Below(n - 1) + {n - 1}
  }

  lemma {:induction false} DistinctCount<T>(s: seq<T>)
    requires Distinct(s)
    ensures |set x | x in s| == |s|
  {
    if |s| > 0 {
      var last := |s| - 1;
      DistinctCount(s[..last]);
      assert (set x | x in s) == (set x | x in s[..last]) + {s[last]};
    }
  }

  lemma SubsetCount<T>(a: set<T>, b: set<T>)
    requires a <= b
    ensures |a| <= |b|
  {
    assert b == a + (b - a);
  }

  /** An injective list of n numbers below n contains every number below n. */
  lemma {:induction false} Surjective(s: seq<int>, n: nat)
    requires |s| == n && Distinct(s)
    requires forall k :: 0 <= k < n ==> 0 <= s[k] < n
    ensures forall v :: 0 <= v < n ==> v in s
  {
    DistinctCount(s);
    forall v | 0 <= v < n ensures v in s {
      if v !in s {
        SubsetCount((set x | x in s), Below(n) - {v});
        assert false;
      }
    }
  }

  /** At most n distinct numbers lie below n. */
  lemma {:induction false} AtMost(s: seq<int>, n: nat)
    requires Distinct(s) && forall k :: 0 <= k < |s| ==> 0 <= s[k] < n
    ensures |s| <= n
  {
    DistinctCount(s);
    SubsetCount((set x | x in s), Below(n));
  }

  /** A list that contains every number below n has at least n elements. */
  lemma {:induction false} AtLeast(s: seq<int>, n: nat)
    requires Distinct(s) && forall v :: 0 <= v < n ==> v in s
    ensures |s| >= n
  {
    DistinctCount(s);
    SubsetCount(Below(n), (set x | x in s));
  }

  lemma {:induction false} CountAtMost<T>(s: seq<T>)
    ensures |set x | x in s| <= |s|
  {
    if |s| > 0 {
      var last := |s| - 1;
      CountAtMost(s[..last]);
      assert (set x | x in s) == (set x | x in s[..last]) + {s[last]};
    }
  }

  /** A list of length n that contains every number below n has no repetitions. */
  lemma {:induction false} OntoIsDistinct(s: seq<int>, n: nat)
    requires |s| == n && forall v :: 0 <= v < n ==> v in s
    ensures Distinct(s)
  {
    forall k, l | 0 <= k < l < |s| ensures s[k] != s[l] {
      if s[k] == s[l] {
        var t := s[..l] + s[l + 1..];
        forall v | 0 <= v < n ensures v in t { Kept(s, l, k, v); }
        CountAtMost(t);
        SubsetCount(Below(n), (set x | x in t));
        assert false;
      }
    }
  }

  lemma Kept(s: seq<int>, l: nat, k: nat, v: int)
    requires k < l < |s| && s[k] == s[l] && v in s
    ensures v in s[..l] + s[l + 1..]
  {
  }
}
