/** The counting sort of ssort.cc, proved to be a stable sort by key. */
module RadixPass {
  import opened Pigeonhole

  /** The number of keys among the first m that are below v. */
  ghost function CountLess(keys: seq<int>, v: int, m: nat): (c: nat)
    requires m <= |keys|
    ensures c <= m
  {
    if m == 0 then 0 else CountLess(keys, v, m - 1) + if keys[m - 1] < v then 1 else 0
  }

  ghost function CountEq(keys: seq<int>, v: int, m: nat): (c: nat)
    requires m <= |keys|
    ensures c <= m
  {
    if m == 0 then 0 else CountEq(keys, v, m - 1) + if keys[m - 1] == v then 1 else 0
  }

  lemma {:induction false} CountNext(keys: seq<int>, v: int, m: nat)
    requires m <= |keys|
    ensures CountLess(keys, v + 1, m) == CountLess(keys, v, m) + CountEq(keys, v, m)
  {
    if m > 0 { CountNext(keys, v, m - 1); }
  }

  lemma {:induction false} CountLessMonotone(keys: seq<int>, v: int, w: int, m: nat)
    requires m <= |keys| && v <= w
    ensures CountLess(keys, v, m) <= CountLess(keys, w, m)
  {
    if m > 0 { CountLessMonotone(keys, v, w, m - 1); }
  }

  lemma {:induction false} CountEqMonotone(keys: seq<int>, v: int, l: nat, m: nat)
    requires l <= m <= |keys|
    ensures CountEq(keys, v, l) <= CountEq(keys, v, m)
    decreases m
  {
    if l < m { CountEqMonotone(keys, v, l, m - 1); }
  }

  lemma {:induction false} CountLessNone(keys: seq<int>, m: nat)
    requires m <= |keys| && forall q :: 0 <= q < |keys| ==> keys[q] >= 0
    ensures CountLess(keys, 0, m) == 0
  {
    if m > 0 { CountLessNone(keys, m - 1); }
  }

  /** The slot that a stable sort gives to the element at q. */
  ghost function Slot(keys: seq<int>, q: nat): nat
    requires q < |keys|
  {
    CountLess(keys, keys[q], |keys|) + CountEq(keys, keys[q], q)
  }

  /** q comes before r in a stable sort by key. */
  ghost predicate Before(keys: seq<int>, q: nat, r: nat)
    requires q < |keys| && r < |keys|
  {
    keys[q] < keys[r] || (keys[q] == keys[r] && q < r)
  }

  lemma SlotRespectsOrder(keys: seq<int>, q: nat, r: nat)
    requires q < |keys| && r < |keys| && Before(keys, q, r)
    ensures Slot(keys, q) < Slot(keys, r) < |keys|
  {
    var n := |keys|;
    CountEqMonotone(keys, keys[q], q + 1, n);
    CountNext(keys, keys[q], n);
    if keys[q] < keys[r] {
      CountLessMonotone(keys, keys[q] + 1, keys[r], n);
    } else {
      CountEqMonotone(keys, keys[q], q + 1, r);
    }
    CountEqMonotone(keys, keys[r], r + 1, n);
    CountNext(keys, keys[r], n);
  }

  lemma SlotIsFree(keys: seq<int>, i: nat)
    requires i < |keys|
    ensures Slot(keys, i) < |keys|
    ensures forall q {:trigger Slot(keys, q)} :: 0 <= q < i ==> Slot(keys, q) != Slot(keys, i)
  {
    SlotInRange(keys, i);
    SlotsDiffer(keys);
  }

  lemma SlotInRange(keys: seq<int>, q: nat)
    requires q < |keys|
    ensures Slot(keys, q) < |keys|
  {
    CountEqMonotone(keys, keys[q], q + 1, |keys|);
    CountNext(keys, keys[q], |keys|);
  }

  lemma SlotsDiffer(keys: seq<int>)
    ensures forall q, r :: 0 <= q < r < |keys| ==> Slot(keys, q) != Slot(keys, r)
  {
    forall q, r | 0 <= q < r < |keys| ensures Slot(keys, q) != Slot(keys, r) {
      if Before(keys, q, r) { SlotRespectsOrder(keys, q, r); } else { SlotRespectsOrder(keys, r, q); }
    }
  }

  /** order lists the positions 0..n-1, each once, by key and then by position. */
  ghost predicate IsStableOrder(keys: seq<int>, order: seq<int>) {
    && |order| == |keys|
    && (forall z :: 0 <= z < |order| ==> 0 <= order[z] < |keys|)
    && (forall y, z :: 0 <= y < z < |order| ==> Before(keys, order[y], order[z]))
  }

  /** A stable order reaches every position. */
  lemma StableOrderReachesAll(keys: seq<int>, order: seq<int>)
    requires IsStableOrder(keys, order)
    ensures Distinct(order) && forall q :: 0 <= q < |keys| ==> q in order
  {
    Surjective(order, |keys|);
  }

  /** Two stable orders of the same keys are equal. */
  lemma {:induction false} StableOrderIsSlot(keys: seq<int>, order: seq<int>)
    requires IsStableOrder(keys, order)
    ensures forall z :: 0 <= z < |order| ==> Slot(keys, order[z]) == z
  {
    forall z | 0 <= z < |order| ensures Slot(keys, order[z]) == z {
      SlotAtLeast(keys, order, z);
      SlotAtMost(keys, order, z);
    }
  }

  lemma {:induction false} SlotAtLeast(keys: seq<int>, order: seq<int>, z: nat)
    requires IsStableOrder(keys, order) && z < |order|
    ensures Slot(keys, order[z]) >= z
  {
    if z > 0 {
      SlotAtLeast(keys, order, z - 1);
      SlotRespectsOrder(keys, order[z - 1], order[z]);
    }
  }

  lemma {:induction false} SlotAtMost(keys: seq<int>, order: seq<int>, z: nat)
    requires IsStableOrder(keys, order) && z < |order|
    ensures Slot(keys, order[z]) <= z
    decreases |order| - z
  {
    if z + 1 < |order| {
      SlotAtMost(keys, order, z + 1);
      SlotRespectsOrder(keys, order[z], order[z + 1]);
    } else {
      SlotInRange(keys, order[z]);
    }
  }

  ghost function IndexIn(s: seq<int>, v: int): (k: nat)
    requires v in s
    ensures k < |s| && s[k] == v
  {
    var k :| 0 <= k < |s| && s[k] == v;
    k
  }

  /** The order in which the elements land, once every element q sits in Slot(keys, q). */
  lemma {:induction false} OrderFromSlots(keys: seq<int>) returns (order: seq<int>)
    ensures IsStableOrder(keys, order)
    ensures forall z :: 0 <= z < |order| ==> Slot(keys, order[z]) == z
  {
    var n := |keys|;
    forall q | 0 <= q < n ensures Slot(keys, q) < n { SlotInRange(keys, q); }
    var slots := seq(n, q requires 0 <= q < n => Slot(keys, q));
    SlotsDiffer(keys);
    Surjective(slots, n);
    assert forall z :: 0 <= z < n ==> z in slots;
    order := seq(n, z requires 0 <= z < n => IndexIn(slots, z));
    forall y, z | 0 <= y < z < n ensures Before(keys, order[y], order[z]) {
      assert slots[order[y]] == y && slots[order[z]] == z;
      if !Before(keys, order[y], order[z]) { SlotRespectsOrder(keys, order[z], order[y]); }
    }
  }

  /** The keys that the pass reads: r shifted by off, indexed by the elements of a. */
  ghost function Keys(a: seq<int>, r: seq<int>, off: nat): (keys: seq<int>)
    requires forall q :: 0 <= q < |a| ==> 0 <= a[q] && a[q] + off < |r|
    ensures |keys| == |a|
    ensures forall q :: 0 <= q < |a| ==> keys[q] == r[a[q] + off]
  {
    seq(|a|, q requires 0 <= q < |a| => r[a[q] + off])
  }

  /** The last loop of radixPass: c holds the next free slot of every key. */
  method Distribute(a: array<int>, b: array<int>, c: array<int>, r: array<int>, off: nat, n: nat, ghost keys: seq<int>)
    requires b != a && b != r && c != a && c != b && c != r
    requires n <= a.Length && n <= b.Length && |keys| == n
    requires forall q :: 0 <= q < n ==> 0 <= a[q] && a[q] + off < r.Length
    requires forall q :: 0 <= q < n ==> keys[q] == r[a[q] + off] && 0 <= keys[q] < c.Length
    requires forall v :: 0 <= v < c.Length ==> c[v] == CountLess(keys, v, n)
    modifies b, c
    ensures forall q :: 0 <= q < n ==> Slot(keys, q) < n && b[Slot(keys, q)] == a[q]
    ensures forall z :: n <= z < b.Length ==> b[z] == old(b[z])
  {
    var i := 0;
    while i < n
      invariant 0 <= i <= n
      invariant forall v {:trigger c[v]} :: 0 <= v < c.Length ==> c[v] == CountLess(keys, v, n) + CountEq(keys, v, i)
      invariant forall q {:trigger Slot(keys, q)} :: 0 <= q < i ==> Slot(keys, q) < n && b[Slot(keys, q)] == a[q]
      invariant forall z :: n <= z < b.Length ==> b[z] == old(b[z])
    {
      var key := r[a[i] + off];
      var slot := c[key];
      assert slot == Slot(keys, i);
      SlotIsFree(keys, i);
      b[slot] := a[i];
      c[key] := slot + 1;
      i := i + 1;
    }
  }

  /** The loop that counts the keys. */
  method CountKeys(a: array<int>, c: array<int>, r: array<int>, off: nat, n: nat, ghost keys: seq<int>)
    requires c != a && c != r && n <= a.Length && |keys| == n
    requires forall q :: 0 <= q < n ==> 0 <= a[q] && a[q] + off < r.Length
    requires forall q :: 0 <= q < n ==> keys[q] == r[a[q] + off] && 0 <= keys[q] < c.Length
    requires forall v :: 0 <= v < c.Length ==> c[v] == 0
    modifies c
    ensures forall v :: 0 <= v < c.Length ==> c[v] == CountEq(keys, v, n)
  {
    var i := 0;
    while i < n
      invariant 0 <= i <= n
      invariant forall v :: 0 <= v < c.Length ==> c[v] == CountEq(keys, v, i)
    {
      c[r[a[i] + off]] := c[r[a[i] + off]] + 1;
      i := i + 1;
    }
  }

  /** The loop that sums the counts up: each key's first slot. */
  method SumUp(c: array<int>, n: nat, ghost keys: seq<int>)
    requires |keys| == n && forall q :: 0 <= q < n ==> 0 <= keys[q]
    requires forall v :: 0 <= v < c.Length ==> c[v] == CountEq(keys, v, n)
    modifies c
    ensures forall v :: 0 <= v < c.Length ==> c[v] == CountLess(keys, v, n)
  {
    var sum, i := 0, 0;
    CountLessNone(keys, n);
    while i < c.Length
      invariant 0 <= i <= c.Length
      invariant sum == CountLess(keys, i, n)
      invariant forall v :: 0 <= v < i ==> c[v] == CountLess(keys, v, n)
      invariant forall v :: i <= v < c.Length ==> c[v] == CountEq(keys, v, n)
    {
      var t := c[i];
      CountNext(keys, i, n);
      c[i] := sum;
      sum := sum + t;
      i := i + 1;
    }
  }

  /** radixPass(a, b, r + off, n, K): b receives the n elements of a, stably sorted by key. */
  method Pass(a: array<int>, b: array<int>, r: array<int>, off: nat, n: nat, K: nat)
    returns (ghost order: seq<int>)
    requires b != a && b != r
    requires n <= a.Length && n <= b.Length
    requires forall q :: 0 <= q < n ==> 0 <= a[q] && a[q] + off < r.Length && 0 <= r[a[q] + off] <= K
    modifies b
    ensures IsStableOrder(Keys(a[..n], r[..], off), order)
    ensures forall z :: 0 <= z < n ==> b[z] == a[order[z]]
    ensures forall z :: n <= z < b.Length ==> b[z] == old(b[z])
  {
    ghost var keys := Keys(a[..n], r[..], off);
    assert forall q :: 0 <= q < n ==> 0 <= keys[q] <= K;
    var c := new int[K + 1](_ => 0);
    CountKeys(a, c, r, off, n, keys);
    SumUp(c, n, keys);
    Distribute(a, b, c, r, off, n, keys);
    order := OrderFromSlots(keys);
  }
}
