/** List items, how they are compared, and rows of sorted runs of them. */
module ListOrder {

  // ----- data, comparators and nodes

  datatype Data = Data(data16: bv16, idx: int)

  class ListData {
    var data16: bv16
    var idx: int

    function Value(): Data
      reads this
    {
      Data(data16, idx)
    }
  }

  class ListHead {
    var next: ListHead?
    var info: ListData
    constructor (info: ListData) { this.info := info; this.next := null; }
  }

  /** A comparison function: what it does to each item it looks at, and the order it reports. */
  datatype Comparator = Comparator(order: (Data, Data) -> int, touch: Data -> Data)

  ghost predicate AtMost(c: Comparator, x: Data, y: Data) { c.order(x, y) <= 0 }

  ghost predicate Ordered(c: Comparator, x: Data, y: Data, z: Data) {
    (AtMost(c, x, y) || AtMost(c, y, x)) && (AtMost(c, x, y) && AtMost(c, y, z) ==> AtMost(c, x, z))
  }

  ghost predicate Settled(c: Comparator, x: Data, y: Data) {
    && c.touch(c.touch(x)) == c.touch(x)
    && c.order(c.touch(x), y) == c.order(x, y) && c.order(x, c.touch(y)) == c.order(x, y)
  }

  /** The order is total and transitive, and looking at an item again changes nothing any more. */
  ghost predicate Consistent(c: Comparator) {
    && (forall x, y, z {:trigger Ordered(c, x, y, z)} :: Ordered(c, x, y, z))
    && (forall x, y {:trigger Settled(c, x, y)} :: Settled(c, x, y))
  }

  /** The upper byte, copied over the lower one. */
  function Regenerated(d: bv16): bv16 { (d & 0xff00) | (0x00ff & (d >> 8)) }

  function IdxComparator(resIsNull: bool): Comparator {
    Comparator((x: Data, y: Data) => x.idx - y.idx,
               (x: Data) => if resIsNull then x.(data16 := Regenerated(x.data16)) else x)
  }

  lemma IdxIsConsistent(resIsNull: bool)
    ensures Consistent(IdxComparator(resIsNull))
  {
  }

  lemma RegeneratedOnce(d: bv16)
    ensures Regenerated(Regenerated(d)) == Regenerated(d) && Regenerated(d) & 0x00ff == Regenerated(d) >> 8
    ensures Regenerated(d) >> 8 == d >> 8
  {
  }

  /** cmp_idx, which restores the data of both items when it is given no results record. */
  method CmpIdx(a: ListData, b: ListData, resIsNull: bool) returns (c: int)
    modifies a, b
    ensures var f := IdxComparator(resIsNull);
            && a.Value() == f.touch(old(a.Value())) && b.Value() == f.touch(old(b.Value()))
            && c == f.order(a.Value(), b.Value())
  {
    if resIsNull {
      RegeneratedOnce(a.data16);
      a.data16 := Regenerated(a.data16);
      b.data16 := Regenerated(b.data16);
    }
    c := a.idx - b.idx;
  }

  /** What any comparison function of this kind does to the items. */
  method Compare(cmp: Comparator, a: ListData, b: ListData) returns (c: int)
    requires Consistent(cmp)
    modifies a, b
    ensures a.Value() == cmp.touch(old(a.Value())) && b.Value() == cmp.touch(old(b.Value()))
    ensures c == cmp.order(old(a.Value()), old(b.Value()))
  {
    c := cmp.order(a.Value(), b.Value());
    var x, y := cmp.touch(a.Value()), cmp.touch(b.Value());
    assert Settled(cmp, a.Value(), b.Value());
    a.data16, a.idx := x.data16, x.idx;
    b.data16, b.idx := y.data16, y.idx;
  }

  // ----- the order in which a stable sort puts the original items

  /** Item i of the original list goes before item j: it is smaller, or equal and earlier. */
  ghost predicate Before(cmp: Comparator, keys: seq<Data>, i: nat, j: nat) {
    && i < |keys| && j < |keys| && AtMost(cmp, keys[i], keys[j])
    && (AtMost(cmp, keys[j], keys[i]) ==> i < j)
  }

  lemma BeforeTransitive(cmp: Comparator, keys: seq<Data>, i: nat, j: nat, k: nat)
    requires Consistent(cmp) && Before(cmp, keys, i, j) && Before(cmp, keys, j, k)
    ensures Before(cmp, keys, i, k)
  {
    assert Ordered(cmp, keys[i], keys[j], keys[k]);
    assert Ordered(cmp, keys[j], keys[k], keys[i]) && Ordered(cmp, keys[k], keys[i], keys[j]);
  }

  ghost predicate Sorted(cmp: Comparator, keys: seq<Data>, ix: seq<nat>) {
    forall a, b :: 0 <= a < b < |ix| ==> Before(cmp, keys, ix[a], ix[b])
  }

  ghost predicate Within(ix: seq<nat>, lo: nat, hi: nat) { forall k :: 0 <= k < |ix| ==> lo <= ix[k] < hi }

  /** A sorted run of the items lo up to hi; with two items or more, all have been looked at. */
  ghost predicate Run(cmp: Comparator, keys: seq<Data>, seen: set<nat>, ix: seq<nat>, lo: nat) {
    && Within(ix, lo, lo + |ix|) && Sorted(cmp, keys, ix)
    && (|ix| > 1 ==> forall k :: 0 <= k < |ix| ==> ix[k] in seen)
  }

  /** The list is a row of runs of w items, the last perhaps shorter. */
  ghost predicate Runs(cmp: Comparator, keys: seq<Data>, seen: set<nat>, ix: seq<nat>, lo: nat, w: nat)
    decreases |ix|
  {
    if |ix| <= w || w == 0 then Run(cmp, keys, seen, ix, lo)
    else Run(cmp, keys, seen, ix[..w], lo) && Runs(cmp, keys, seen, ix[w..], lo + w, w)
  }

  /** A row of runs that all have w items. */
  ghost predicate FullRuns(cmp: Comparator, keys: seq<Data>, seen: set<nat>, ix: seq<nat>, lo: nat, w: nat)
    decreases |ix|
  {
    ix == [] || (0 < w <= |ix| && Run(cmp, keys, seen, ix[..w], lo) && FullRuns(cmp, keys, seen, ix[w..], lo + w, w))
  }

  lemma {:induction false} RunsJoined(cmp: Comparator, keys: seq<Data>, seen: set<nat>, done: seq<nat>, last: seq<nat>,
                                      lo: nat, w: nat)
    requires FullRuns(cmp, keys, seen, done, lo, w) && Run(cmp, keys, seen, last, lo + |done|) && 0 < |last| <= w
    ensures Runs(cmp, keys, seen, done + last, lo, w)
    ensures |last| == w ==> FullRuns(cmp, keys, seen, done + last, lo, w)
    decreases |done|
  {
    if done == [] {
      assert done + last == last;
      assert last[..|last|] == last && last[|last|..] == [];
    } else {
      assert (done + last)[..w] == done[..w] && (done + last)[w..] == done[w..] + last;
      RunsJoined(cmp, keys, seen, done[w..], last, lo + w, w);
    }
  }

  lemma {:induction false} FullRunsSeenMore(cmp: Comparator, keys: seq<Data>, seen: set<nat>, more: set<nat>,
                                            ix: seq<nat>,
                                            lo: nat, w: nat)
    requires FullRuns(cmp, keys, seen, ix, lo, w) && seen <= more
    ensures FullRuns(cmp, keys, more, ix, lo, w)
    decreases |ix|
  {
    if ix != [] { FullRunsSeenMore(cmp, keys, seen, more, ix[w..], lo + w, w); }
  }

  lemma {:induction false} RunsSeenMore(cmp: Comparator, keys: seq<Data>, seen: set<nat>, more: set<nat>, ix: seq<nat>,
                                        lo: nat, w: nat)
    requires Runs(cmp, keys, seen, ix, lo, w) && seen <= more
    ensures Runs(cmp, keys, more, ix, lo, w)
    decreases |ix|
  {
    if !(|ix| <= w || w == 0) { RunsSeenMore(cmp, keys, seen, more, ix[w..], lo + w, w); }
  }

  /** The items one by one are a row of runs. */
  lemma {:induction false} SinglesAreRuns(cmp: Comparator, keys: seq<Data>, ix: seq<nat>, lo: nat)
    requires forall k :: 0 <= k < |ix| ==> ix[k] == lo + k
    ensures Runs(cmp, keys, {}, ix, lo, 1)
    decreases |ix|
  {
    if |ix| > 1 {
      SinglesAreRuns(cmp, keys, ix[1..], lo + 1);
    }
  }
}
