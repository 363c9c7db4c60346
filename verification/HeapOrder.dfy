/** Heap order on a sequence of weights, numbered from 1. */
module HeapOrder {

  ghost predicate OrderAt(w: seq<int>, i: int) { 2 <= i < |w| ==> w[i / 2] <= w[i] }

  ghost predicate Heap(w: seq<int>) { forall i {:trigger OrderAt(w, i)} :: OrderAt(w, i) }

  /** The parent of n, if it has one, is at most as heavy as the child c of n. */
  ghost predicate Bridge(w: seq<int>, n: int, c: int) { n >= 2 && c / 2 == n && c < |w| ==> w[n / 2] <= w[c] }

  /** In order but for n, which may be lighter than its parent. */
  ghost predicate Rising(w: seq<int>, n: int) {
    && 1 <= n < |w| && Bridge(w, n, 2 * n) && Bridge(w, n, 2 * n + 1)
    && forall i {:trigger OrderAt(w, i)} :: i != n ==> OrderAt(w, i)
  }

  /** In order but for n, which may be heavier than its children. */
  ghost predicate Sinking(w: seq<int>, n: int) {
    && 1 <= n < |w| && Bridge(w, n, 2 * n) && Bridge(w, n, 2 * n + 1)
    && forall i {:trigger OrderAt(w, i)} :: i / 2 != n ==> OrderAt(w, i)
  }

  ghost function Swapped(w: seq<int>, i: nat, j: nat): seq<int>
    requires i < |w| && j < |w|
  {
    w[i := w[j]][j := w[i]]
  }

  lemma RisingSwap(w: seq<int>, n: int)
    requires Rising(w, n) && n >= 2 && w[n / 2] > w[n]
    ensures Rising(Swapped(w, n / 2, n), n / 2)
  {
    var p := n / 2;
    var w' := Swapped(w, p, n);
    assert OrderAt(w, p);
    forall i | i != p ensures OrderAt(w', i) {
      assert i != n ==> OrderAt(w, i);
      if i / 2 == n { assert i == 2 * n || i == 2 * n + 1; }
    }
    forall c | c / 2 == p && c < |w| ensures Bridge(w', p, c) {
      assert c != n ==> OrderAt(w, c);
    }
  }

  lemma RisingDone(w: seq<int>, n: int)
    requires Rising(w, n) && (n >= 2 ==> w[n / 2] <= w[n])
    ensures Heap(w)
  {
  }

  /** c is the lighter child of n, and not heavier than n. */
  lemma SinkingSwap(w: seq<int>, n: int, c: int)
    requires Sinking(w, n) && c / 2 == n && c < |w| && w[c] <= w[n]
    requires forall d :: d / 2 == n && d < |w| ==> w[c] <= w[d]
    ensures Sinking(Swapped(w, n, c), c)
  {
    var w' := Swapped(w, n, c);
    assert OrderAt(w, n);
    forall i | i / 2 != c ensures OrderAt(w', i) {
      if i / 2 != n { assert OrderAt(w, i); }
      if i == n && n >= 2 { assert Bridge(w, n, c); }
    }
    forall d | d / 2 == c && d < |w| ensures Bridge(w', c, d) {
      assert OrderAt(w, d);
    }
  }

  lemma SinkingDone(w: seq<int>, n: int)
    requires Sinking(w, n)
    requires forall d :: d / 2 == n && d < |w| ==> w[n] <= w[d]
    ensures Heap(w)
  {
  }

  /** The first weight is the least. */
  lemma {:induction false} LeastFirst(w: seq<int>, i: nat)
    requires Heap(w) && 1 <= i < |w|
    ensures w[1] <= w[i]
  {
    if i > 1 {
      assert OrderAt(w, i);
      LeastFirst(w, i / 2);
    }
  }

  /** Lowering one weight leaves it the only one that may be out of order. */
  lemma Lowered(w: seq<int>, n: nat, x: int)
    requires Heap(w) && 1 <= n < |w| && x <= w[n]
    ensures Rising(w[n := x], n)
  {
    var w' := w[n := x];
    forall i | i != n ensures OrderAt(w', i) { assert OrderAt(w, i); }
    forall c | c / 2 == n && c < |w| ensures Bridge(w', n, c) { assert OrderAt(w, c) && OrderAt(w, n); }
  }

  lemma Appended(w: seq<int>, x: int)
    requires Heap(w) && |w| >= 1
    ensures Rising(w + [x], |w|)
  {
    forall i | i != |w| ensures OrderAt(w + [x], i) { assert OrderAt(w, i); }
  }

  /** Moving the last weight to the front leaves it the only one that may be out of order. */
  lemma LastToFront(w: seq<int>)
    requires Heap(w) && |w| > 2
    ensures Sinking(w[1 := w[|w| - 1]][..|w| - 1], 1)
  {
    var w' := w[1 := w[|w| - 1]][..|w| - 1];
    forall i | i / 2 != 1 ensures OrderAt(w', i) { assert OrderAt(w, i); }
  }
}
