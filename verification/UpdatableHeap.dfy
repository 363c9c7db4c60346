/** The priority queue of the 15-puzzle: a binary heap whose elements are also found through a hash table. */
module UpdatableHeap {
  import opened BitMasks
  import opened BitOperations
  import opened HeapOrder

  class Step<T> {
    var element: T
    var next: Step?<T>
    var heapIndex: int
    var pathLength: int
    var pathWeight: int
    var visited: bool
    var previousStep: Step?<T>

    constructor (pz: T, n: Step?<T>, hi: int, dist: int, lowerBound: int)
      ensures element == pz && next == n && heapIndex == hi && pathLength == dist && pathWeight == dist + lowerBound
      ensures !visited && previousStep == null
    {
      element, next, heapIndex := pz, n, hi;
      pathLength, pathWeight := dist, dist + lowerBound;
      visited, previousStep := false, null;
    }
  }

  datatype Operation<T> = Push(pz: T, pathLength: int) | Pop

  // ----- what operations record of each element

  /** The length that an element first comes with stays, whatever it is pushed with later. */
  function WithLength<T>(m: map<T, int>, op: Operation<T>): map<T, int> {
    if op.Push? && op.pz !in m then m[op.pz := op.pathLength] else m
  }

  /** The weight goes down with every shorter push, whether or not the element was popped. */
  function WithWeight<T>(bound: T -> int, m: map<T, int>, op: Operation<T>): map<T, int> {
    if op.Push? then Lowest(m, op.pz, op.pathLength + bound(op.pz)) else m
  }

  function Lowest<T>(m: map<T, int>, pz: T, weight: int): map<T, int> {
    if pz in m && m[pz] <= weight then m else m[pz := weight]
  }

  function FirstLengths<T>(before: map<T, int>, ops: seq<Operation<T>>): map<T, int> {
    if ops == [] then before else WithLength(FirstLengths(before, ops[..|ops| - 1]), ops[|ops| - 1])
  }

  function LeastWeights<T>(bound: T -> int, before: map<T, int>, ops: seq<Operation<T>>): map<T, int> {
    if ops == [] then before else WithWeight(bound, LeastWeights(bound, before, ops[..|ops| - 1]), ops[|ops| - 1])
  }

  lemma OneMoreOperation<T>(bound: T -> int, lengths: map<T, int>, weights: map<T, int>, ops: seq<Operation<T>>, n: nat)
    requires n < |ops|
    ensures FirstLengths(lengths, ops[..n + 1]) == WithLength(FirstLengths(lengths, ops[..n]), ops[n])
    ensures LeastWeights(bound, weights, ops[..n + 1])
            == WithWeight(bound, LeastWeights(bound, weights, ops[..n]), ops[n])
  {
    assert ops[..n + 1][..n] == ops[..n];
  }

  ghost predicate IsPush<T>(op: Operation<T>, pz: T) { op.Push? && op.pz == pz }

  ghost predicate FirstPush<T>(ops: seq<Operation<T>>, pz: T, i: nat) {
    i < |ops| && IsPush(ops[i], pz) && forall j :: 0 <= j < i ==> !IsPush(ops[j], pz)
  }

  lemma {:induction false} FirstLengthOf<T>(ops: seq<Operation<T>>, pz: T, i: nat)
    requires FirstPush(ops, pz, i)
    ensures pz in FirstLengths(map[], ops) && FirstLengths(map[], ops)[pz] == ops[i].pathLength
    decreases |ops|
  {
    var n := |ops| - 1;
    if i < n { FirstLengthOf(ops[..n], pz, i); } else { NeverPushed(ops[..n], pz); }
  }

  lemma {:induction false} NeverPushed<T>(ops: seq<Operation<T>>, pz: T)
    requires forall j :: 0 <= j < |ops| ==> !IsPush(ops[j], pz)
    ensures pz !in FirstLengths(map[], ops)
  {
    if ops != [] {
      assert !IsPush(ops[|ops| - 1], pz);
      NeverPushed(ops[..|ops| - 1], pz);
    }
  }

  lemma {:induction false} LeastWeightOf<T>(bound: T -> int, ops: seq<Operation<T>>, pz: T, i: nat) returns (least: nat)
    requires i < |ops| && IsPush(ops[i], pz)
    ensures least < |ops| && IsPush(ops[least], pz) && pz in LeastWeights(bound, map[], ops)
    ensures LeastWeights(bound, map[], ops)[pz] == ops[least].pathLength + bound(pz)
    ensures forall j :: 0 <= j < |ops| && IsPush(ops[j], pz) ==> ops[least].pathLength <= ops[j].pathLength
    decreases |ops|
  {
    var n := |ops| - 1;
    if exists j :: 0 <= j < n && IsPush(ops[j], pz) {
      var j :| 0 <= j < n && IsPush(ops[j], pz);
      least := LeastWeightOf(bound, ops[..n], pz, j);
      if IsPush(ops[n], pz) && ops[n].pathLength < ops[least].pathLength { least := n; }
    } else {
      least := n;
      NoWeight(bound, ops[..n], pz);
    }
  }

  lemma {:induction false} NoWeight<T>(bound: T -> int, ops: seq<Operation<T>>, pz: T)
    requires forall j :: 0 <= j < |ops| ==> !IsPush(ops[j], pz)
    ensures pz !in LeastWeights(bound, map[], ops)
  {
    if ops != [] {
      assert !IsPush(ops[|ops| - 1], pz);
      NoWeight(bound, ops[..|ops| - 1], pz);
    }
  }

  /**
   * What length() says of an element is the length that its weight is made of exactly if no later push of it was
   * shorter: the weight is updated, the length is not.
   */
  lemma LengthIsOfFirstPush<T>(bound: T -> int, ops: seq<Operation<T>>, pz: T, first: nat)
    requires FirstPush(ops, pz, first)
    ensures pz in FirstLengths(map[], ops) && pz in LeastWeights(bound, map[], ops)
    ensures FirstLengths(map[], ops)[pz] == ops[first].pathLength
    ensures forall j :: 0 <= j < |ops| && IsPush(ops[j], pz) ==>
              LeastWeights(bound, map[], ops)[pz] <= ops[j].pathLength + bound(pz)
    ensures FirstLengths(map[], ops)[pz] + bound(pz) == LeastWeights(bound, map[], ops)[pz] <==>
            forall j :: first < j < |ops| && IsPush(ops[j], pz) ==> ops[first].pathLength <= ops[j].pathLength
  {
    FirstLengthOf(ops, pz, first);
    var least := LeastWeightOf(bound, ops, pz, first);
  }

  lemma OnlyAt<T>(before: map<T, int>, after: map<T, int>, pz: T)
    requires pz in after && after.Keys == before.Keys + {pz}
    requires forall e :: e in before && e != pz ==> after[e] == before[e]
    ensures after == before[pz := after[pz]]
  {
  }

  class UpdatableHeap<T(==)> {
    const M: nat
    const hash: T -> nat
    const bound: T -> int
    const heap: array<Step?<T>>
    const table: array<Step?<T>>
    var size: nat
    var maximumSize: nat

    /** All steps ever pushed, those of them in the heap, and the step of each element. */
    ghost var steps: set<Step<T>>
    ghost var live: set<Step<T>>
    ghost var known: map<T, Step<T>>
    /** The weights in the order of the heap, and the steps in the order of each hash chain. */
    ghost var w: seq<int>
    ghost var chains: seq<seq<Step<T>>>

    function Bucket(pz: T): nat
      requires M > 0
    {
      And(hash(pz), M - 1)
    }

    // ----- the invariant

    ghost predicate Sizes()
      reads this
    {
      && M > 0 && heap.Length == M && table.Length == M + 1 && heap != table
      && size < M && |w| == size + 1 && |chains| == M && live <= steps
    }

    constructor (m: nat, hash: T -> nat, bound: T -> int)
      requires m > 0
      ensures Valid() && M == m && this.hash == hash && this.bound == bound && size == 0 && known == map[]
      ensures fresh(heap) && fresh(table)
    {
      M, this.hash, this.bound := m, hash, bound;
      heap := new Step?<T>[m](_ => null);
      table := new Step?<T>[m + 1](_ => null);
      size, maximumSize := 0, 0;
      steps, live, known, w := {}, {}, map[], [0];
      chains := seq(m, _ => []);
    }

    /** Slot i holds a step that knows it is there, and w has its weight. */
    ghost predicate SlotAt(i: int)
      reads this`w, this`live, heap, live`heapIndex, live`pathWeight
    {
      0 < i < heap.Length && i < |w| && heap[i] != null && heap[i] in live
      && heap[i].heapIndex == i && heap[i].pathWeight == w[i]
    }

    ghost predicate Placed(s: Step<T>)
      requires s in live
      reads this`w, this`live, heap, live`heapIndex
    {
      0 < s.heapIndex < |w| && s.heapIndex < heap.Length && heap[s.heapIndex] == s
    }

    ghost predicate Slots()
      reads this`w, this`live, heap, live`heapIndex, live`pathWeight
    {
      && (forall i {:trigger SlotAt(i)} :: 0 < i < |w| ==> SlotAt(i))
      && (forall s {:trigger Placed(s)} :: s in live ==> Placed(s))
    }

    method Swap(i: nat, j: nat)
      requires Sizes() && Slots() && 0 < i <= size && 0 < j <= size && i != j
      modifies heap, live`heapIndex, this`w
      ensures Slots() && w == Swapped(old(w), i, j)
    {
      assert SlotAt(i) && SlotAt(j);
      w := Swapped(w, i, j);
      var tmp := heap[j];
      heap[j] := heap[i];
      heap[i] := tmp;
      heap[i].heapIndex := i;
      heap[j].heapIndex := j;
      forall k | 0 < k < |w| ensures SlotAt(k) { assert old(SlotAt(k)); }
      forall s | s in live ensures Placed(s) { assert old(Placed(s)); }
    }

    method PercolateUp(start: nat)
      requires Sizes() && Slots() && if start == 1 then Heap(w) else Rising(w, start)
      modifies heap, live`heapIndex, this`w
      ensures Sizes() && Slots() && Heap(w)
      ensures start == 1 ==> w == old(w) && heap[..] == old(heap[..])
    {
      var n := start;
      if start == 1 {
        return;
      }
      while n != 1
        invariant Sizes() && Slots() && Rising(w, n) && 1 <= n <= start
      {
        var parent := n / 2;
        assert SlotAt(parent) && SlotAt(n);
        if heap[parent].pathWeight > heap[n].pathWeight {
          RisingSwap(w, n);
          Swap(parent, n);
          n := parent;
        } else {
          RisingDone(w, n);
          return;
        }
      }
      RisingDone(w, n);
    }

    /** One round of the loop of percolate_down: the slot to go on from, or n if there is nothing to do. */
    method Sink(n: nat) returns (below: nat)
      requires Sizes() && Slots() && Sinking(w, n) && 0 < n && 2 * n + 1 <= size
      modifies heap, live`heapIndex, this`w
      ensures Sizes() && Slots() && n <= below <= size
      ensures if below == n then Heap(w) else Sinking(w, below)
    {
      assert SlotAt(n) && SlotAt(2 * n) && SlotAt(2 * n + 1);
      if heap[n].pathWeight < heap[2 * n].pathWeight && heap[n].pathWeight < heap[2 * n + 1].pathWeight {
        SinkingDone(w, n);
        return n;
      }
      if heap[2 * n].pathWeight < heap[2 * n + 1].pathWeight {
        below := 2 * n;
      } else {
        below := 2 * n + 1;
      }
      SinkingSwap(w, n, below);
      Swap(n, below);
    }

    method PercolateDown()
      requires Sizes() && Slots() && Sinking(w, 1)
      modifies heap, live`heapIndex, this`w
      ensures Sizes() && Slots() && Heap(w)
    {
      var n := 1;
      while 2 * n + 1 <= size
        invariant Sizes() && Slots() && Sinking(w, n)
        decreases size - n
      {
        var below := Sink(n);
        if below == n {
          return;
        }
        n := below;
      }
      if 2 * n == size {
        assert SlotAt(n) && SlotAt(2 * n);
        if heap[2 * n].pathWeight < heap[n].pathWeight {
          SinkingSwap(w, n, 2 * n);
          Swap(n, 2 * n);
          n := 2 * n;
        }
      }
      SinkingDone(w, n);
    }

    /** Every step stands for its element, and no element has two. */
    ghost predicate Catalogue()
      reads this`known, this`steps, steps`element, steps`visited
    {
      && (forall s {:trigger s.element} :: s in steps ==> s.element in known && known[s.element] == s && !s.visited)
      && (forall e :: e in known ==> known[e] in steps && known[e].element == e)
    }

    ghost predicate LinkAt(b: nat, k: nat)
      reads this`chains, this`steps, steps`next, steps`element
    {
      M > 0 && b < |chains| && k < |chains[b]| && chains[b][k] in steps && Bucket(chains[b][k].element) == b
      && chains[b][k].next == if k + 1 < |chains[b]| then chains[b][k + 1] else null
    }

    ghost predicate ChainAt(b: nat)
      reads this`chains, this`steps, table, steps`next, steps`element
    {
      && b < |chains| && b < table.Length
      && table[b] == (if chains[b] == [] then null else chains[b][0])
      && (forall k: nat {:trigger LinkAt(b, k)} :: k < |chains[b]| ==> LinkAt(b, k))
      && (forall j, k :: 0 <= j < k < |chains[b]| ==> chains[b][j] != chains[b][k])
    }

    ghost predicate Filed(s: Step<T>)
      reads this`chains, s`element
    {
      M > 0 && Bucket(s.element) < |chains| && s in chains[Bucket(s.element)]
    }

    /** Each hash chain is a linked list of different steps, and every step is in the chain of its element. */
    ghost predicate Chains()
      reads this`chains, this`steps, table, steps`next, steps`element
    {
      && (forall b: nat {:trigger ChainAt(b)} :: b < M ==> ChainAt(b))
      && (forall s {:trigger Filed(s)} :: s in steps ==> Filed(s))
    }

    ghost predicate Popped()
      reads this`steps, this`live, steps`heapIndex
    {
      forall s :: s in steps && s !in live ==> s.heapIndex == 1
    }

    ghost predicate Valid()
      reads this, heap, table, steps
    {
      Sizes() && Slots() && Heap(w) && Catalogue() && Chains() && Popped()
    }

    /** What the queue holds: the weight of every element in the heap. */
    ghost function Weights(): map<T, int>
      reads this`known, this`live, live`pathWeight
    {
      map e | e in known && known[e] in live :: known[e].pathWeight
    }

    /** What is recorded of every element ever pushed: the length it came with, and the least weight since. */
    ghost function Lengths(): map<T, int>
      reads this`known, known.Values`pathLength
    {
      map e | e in known :: known[e].pathLength
    }

    ghost function PathWeights(): map<T, int>
      reads this`known, known.Values`pathWeight
    {
      map e | e in known :: known[e].pathWeight
    }

    /** The step of an element, if it was ever pushed. */
    method Pointer(pz: T) returns (ptr: Step?<T>)
      requires Sizes() && Catalogue() && Chains()
      ensures ptr == if pz in known then known[pz] else null
    {
      if pz in known {
        assert Filed(known[pz]);
      }
      AndAtMostSecond(hash(pz), M - 1);
      var b := Bucket(pz);
      assert ChainAt(b);
      ptr := table[b];
      ghost var k := 0;
      while ptr != null
        invariant k <= |chains[b]| && ptr == if k < |chains[b]| then chains[b][k] else null
        invariant forall j :: 0 <= j < k ==> chains[b][j].element != pz
        decreases |chains[b]| - k
      {
        assert LinkAt(b, k);
        if ptr.element == pz {
          return;
        }
        ptr := ptr.next;
        k := k + 1;
      }
    }

    /** length(pz): the path length of the first push of an element, and INT_MAX if there was none. */
    method Length(pz: T) returns (length: int)
      requires Valid()
      ensures length == if pz in Lengths() then Lengths()[pz] else 2147483647
    {
      var ptr := Pointer(pz);
      length := if ptr == null then 2147483647 else ptr.pathLength;
    }

    lemma LeastWeight(e: T)
      requires Sizes() && Slots() && Heap(w) && e in Weights()
      ensures size > 0 && heap[1] != null && heap[1].pathWeight <= Weights()[e]
    {
      var s := known[e];
      assert Placed(s) && SlotAt(s.heapIndex) && SlotAt(1);
      LeastFirst(w, s.heapIndex);
    }

    /** Removes an element of least weight and nothing else; an empty queue gives the fallback and stays as it is. */
    method Pop(fallback: T) returns (top: T)
      requires Valid()
      modifies this`size, this`live, this`w, heap, live`heapIndex
      ensures Valid() && Lengths() == old(Lengths())
      ensures old(size) == 0 ==> top == fallback && Weights() == old(Weights()) && size == 0
      ensures old(size) > 0 ==>
                && size == old(size) - 1 && top in old(Weights())
                && (forall e :: e in old(Weights()) ==> old(Weights()[top]) <= old(Weights())[e])
                && Weights() == old(Weights()) - {top}
    {
      if size == 0 {
        return fallback;
      }
      assert SlotAt(1) && SlotAt(size);
      ghost var s := heap[1];
      top := heap[1].element;
      forall e | e in Weights() ensures Weights()[top] <= Weights()[e] { LeastWeight(e); }
      if size == 1 {
        forall r | r in live ensures r == s { assert Placed(r); }
        live, w := {}, [0];
        size := 0;
      } else {
        RemoveFirst();
      }
    }

    method RemoveFirst()
      requires Valid() && size > 1
      modifies this`size, this`live, this`w, heap, live`heapIndex
      ensures Valid() && size == old(size) - 1 && old(heap[1]) != null && live == old(live) - {old(heap[1])}
    {
      assert SlotAt(1) && SlotAt(size);
      LastToFront(w);
      ghost var s := heap[1];
      live, w := live - {s}, w[1 := w[size]][..size];
      heap[1] := heap[size];
      heap[1].heapIndex := 1;
      size := size - 1;
      forall k | 0 < k < |w| ensures SlotAt(k) { assert old(SlotAt(k)); }
      forall r | r in live ensures Placed(r) { assert old(Placed(r)); }
      PercolateDown();
    }

    /** A new step at the head of the chain of its element. */
    method File(pz: T, hi: int, pathLength: int) returns (step: Step<T>)
      requires M > 0 && |chains| == M && table.Length == M + 1 && Catalogue() && Chains() && pz !in known
      modifies this`chains, this`steps, this`known, table
      ensures fresh(step) && step.element == pz && step.heapIndex == hi
      ensures step.pathLength == pathLength && step.pathWeight == pathLength + bound(pz)
      ensures steps == old(steps) + {step} && known == old(known)[pz := step] && |chains| == M
      ensures Catalogue() && Chains()
    {
      AndAtMostSecond(hash(pz), M - 1);
      step := new Step(pz, table[Bucket(pz)], hi, pathLength, bound(pz));
      LinkFront(step, Bucket(pz));
      known := known[pz := step];
      forall s | s in steps ensures s.element in known && known[s.element] == s && !s.visited {
        if s != step { assert s in old(steps) && s.element in old(known) && s.element != pz; }
      }
    }

    /** Puts a step at the head of its hash chain. */
    method LinkFront(step: Step<T>, b: nat)
      requires M > 0 && |chains| == M && table.Length == M + 1 && Chains()
      requires b < M && Bucket(step.element) == b && step !in steps && step.next == table[b]
      modifies this`chains, this`steps, table
      ensures steps == old(steps) + {step} && |chains| == M && Chains()
    {
      table[b] := step;
      steps, chains := steps + {step}, chains[b := [step] + chains[b]];
      assert old(ChainAt(b));
      forall k: nat | k < |old(chains)[b]| ensures old(chains)[b][k] != step { assert old(LinkAt(b, k)); }
      forall c: nat, k: nat | c < M && k < |chains[c]| ensures LinkAt(c, k) {
        assert old(ChainAt(c));
        if c != b { assert old(LinkAt(c, k)); } else if k > 0 { assert old(LinkAt(b, k - 1)); }
      }
      forall c: nat | c < M ensures ChainAt(c) { assert old(ChainAt(c)); }
      forall s | s in steps ensures Filed(s) { if s != step { assert old(Filed(s)); } }
    }

    /** The step takes the first free slot of the heap. */
    method Enter(step: Step<T>)
      requires Sizes() && Slots() && size + 1 < M && step in steps && step !in live && step.heapIndex == size + 1
      modifies this`size, this`live, this`w, heap
      ensures Sizes() && Slots() && size == old(size) + 1 && w == old(w) + [step.pathWeight]
      ensures live == old(live) + {step}
    {
      size := size + 1;
      heap[size] := step;
      live, w := live + {step}, w + [step.pathWeight];
      forall k | 0 < k < |w| ensures SlotAt(k) { if k < size { assert old(SlotAt(k)); } }
      forall s | s in live ensures Placed(s) { if s != step { assert old(Placed(s)); } }
    }

    /** A lower weight for a known element: it moves up if it is in the heap, and nothing moves if it was popped. */
    method Lower(ptr: Step<T>, weight: int)
      requires Valid() && ptr in steps && weight < ptr.pathWeight
      modifies ptr`pathWeight, heap, live`heapIndex, this`w
      ensures Valid() && ptr.element in known && ptr.pathWeight == weight
      ensures if ptr in live then Weights() == old(Weights())[ptr.element := weight]
              else Weights() == old(Weights()) && heap[..] == old(heap[..])
    {
      if ptr in live {
        assert Placed(ptr) && SlotAt(ptr.heapIndex);
        Lowered(w, ptr.heapIndex, weight);
        w := w[ptr.heapIndex := weight];
      }
      ptr.pathWeight := weight;
      forall k | 0 < k < |w| ensures SlotAt(k) { assert old(SlotAt(k)); }
      forall s | s in live ensures Placed(s) { assert old(Placed(s)); }
      if ptr.heapIndex == 1 && ptr in live { RisingDone(w, 1); }
      PercolateUp(ptr.heapIndex);
    }

    method Insert(pz: T, pathLength: int)
      requires Valid() && size + 1 < M && pz !in known
      modifies this, heap, table, live`heapIndex
      ensures Valid() && size == old(size) + 1 && maximumSize == old(maximumSize) && fresh(steps - old(steps))
      ensures pz in known && fresh(known[pz]) && known == old(known)[pz := known[pz]] && live == old(live) + {known[pz]}
      ensures known[pz].pathLength == pathLength && known[pz].pathWeight == pathLength + bound(pz)
    {
      ghost var before := w;
      var step := File(pz, size + 1, pathLength);
      Enter(step);
      Appended(before, step.pathWeight);
      PercolateUp(size);
    }

    method PushNew(pz: T, pathLength: int)
      requires Valid() && size + 1 < M && pz !in known
      modifies this, heap, table, live`heapIndex
      ensures Valid() && pz in known && known == old(known)[pz := known[pz]] && fresh(steps - old(steps))
      ensures known[pz].pathLength == pathLength && known[pz].pathWeight == pathLength + bound(pz)
      ensures Weights() == old(Weights())[pz := pathLength + bound(pz)]
      ensures size == old(size) + 1 && maximumSize == if old(maximumSize) > size then old(maximumSize) else size
    {
      Insert(pz, pathLength);
      maximumSize := if maximumSize > size then maximumSize else size;
    }

    /** An unknown element enters; a lower weight replaces that of an element in the heap; a popped one stays out. */
    method Push(pz: T, pathLength: int)
      requires Valid() && (pz !in known ==> size + 1 < M)
      modifies this, heap, table, steps`heapIndex, steps`pathWeight
      ensures Valid() && fresh(steps - old(steps))
      ensures pz in known && known == old(known)[pz := known[pz]]
      ensures if pz in old(known) then known[pz] == old(known)[pz] else known[pz].pathLength == pathLength
      ensures known[pz].pathWeight == if pz in old(known) && old(known[pz].pathWeight) <= pathLength + bound(pz)
                                      then old(known[pz].pathWeight) else pathLength + bound(pz)
      ensures forall s :: s in old(steps) ==> s.pathLength == old(s.pathLength)
      ensures forall s :: s in old(steps) && s != known[pz] ==> s.pathWeight == old(s.pathWeight)
      ensures maximumSize == if old(maximumSize) > size || pz in old(known) then old(maximumSize) else size
      ensures size == if pz in old(known) then old(size) else old(size) + 1
      ensures pz !in old(known) ==> Weights() == old(Weights())[pz := pathLength + bound(pz)]
      ensures pz in old(Weights()) ==>
                var now, before := pathLength + bound(pz), old(Weights())[pz];
                Weights() == old(Weights())[pz := if now < before then now else before]
      ensures pz in old(known) && pz !in old(Weights()) ==>
                Weights() == old(Weights()) && heap[..] == old(heap[..])
    {
      var ptr := Pointer(pz);
      if ptr == null {
        PushNew(pz, pathLength);
      } else if !ptr.visited {
        if pathLength + bound(ptr.element) < ptr.pathWeight {
          Lower(ptr, pathLength + bound(ptr.element));
        }
      }
    }

    /** A push, by what it makes of the records of all elements. */
    method PushRecorded(pz: T, pathLength: int)
      requires Valid() && size + 1 < M
      modifies this, heap, table, steps`heapIndex, steps`pathWeight
      ensures Valid() && size <= old(size) + 1 && fresh(steps - old(steps))
      ensures Lengths() == if pz in old(Lengths()) then old(Lengths()) else old(Lengths())[pz := pathLength]
      ensures PathWeights() == Lowest(old(PathWeights()), pz, pathLength + bound(pz))
      ensures forall e :: e in old(known) && e !in old(Weights()) ==> e in known && e !in Weights()
    {
      ghost var lengths, weights := Lengths(), PathWeights();
      Push(pz, pathLength);
      OnlyAt(lengths, Lengths(), pz);
      OnlyAt(weights, PathWeights(), pz);
    }

    /** One operation, and what it pops, if anything: that leaves the queue, and nothing popped before comes back. */
    method Operate(op: Operation<T>, fallback: T) returns (pops: bool, top: T)
      requires Valid() && size + 1 < M
      modifies this, heap, table, steps`heapIndex, steps`pathWeight
      ensures Valid() && size <= old(size) + 1 && fresh(steps - old(steps))
      ensures Lengths() == WithLength(old(Lengths()), op)
      ensures PathWeights() == WithWeight(bound, old(PathWeights()), op)
      ensures pops <==> op.Pop? && old(size) > 0
      ensures pops ==> top in old(Weights()) && top in known && top !in Weights()
      ensures forall e :: e in old(known) && e !in old(Weights()) ==> e in known && e !in Weights()
    {
      pops, top := false, fallback;
      match op {
        case Push(pz, pathLength) =>
          PushRecorded(pz, pathLength);
        case Pop =>
          if size > 0 {
            pops := true;
            top := Pop(fallback);
          }
      }
    }

    /**
     * Any run of pushes and pops within the capacity: no element is ever popped twice, and each one's length is that
     * of its first push, its weight that of its shortest.
     */
    method Run(ops: seq<Operation<T>>, fallback: T) returns (popped: seq<T>)
      requires Valid() && size + |ops| < M
      modifies this, heap, table, steps`heapIndex, steps`pathWeight
      ensures Valid()
      ensures forall i, j :: 0 <= i < j < |popped| ==> popped[i] != popped[j]
      ensures forall e :: e in popped ==> e in known && e !in Weights()
      ensures Lengths() == FirstLengths(old(Lengths()), ops)
      ensures PathWeights() == LeastWeights(bound, old(PathWeights()), ops)
    {
      popped := [];
      for n := 0 to |ops|
        invariant Valid() && size + |ops| - n < M && fresh(steps - old(steps))
        invariant forall i, j :: 0 <= i < j < |popped| ==> popped[i] != popped[j]
        invariant forall e :: e in popped ==> e in known && e !in Weights()
        invariant Lengths() == FirstLengths(old(Lengths()), ops[..n])
        invariant PathWeights() == LeastWeights(bound, old(PathWeights()), ops[..n])
      {
        OneMoreOperation(bound, old(Lengths()), old(PathWeights()), ops, n);
        var pops, top := Operate(ops[n], fallback);
        if pops {
          popped := popped + [top];
        }
      }
      assert ops[..|ops|] == ops;
    }

    /**
     * M - 1 different elements fill the array: the next push still passes the source's assertion, that the size is at
     * most M, but the slot it would use lies outside.
     */
    method FillUp(pzs: seq<T>)
      requires Valid() && size == 0 && known == map[] && |pzs| == M - 1
      requires forall i, j :: 0 <= i < j < |pzs| ==> pzs[i] != pzs[j]
      modifies this, heap, table, steps`heapIndex, steps`pathWeight
      ensures Valid() && size == M - 1 && size <= M && size + 1 == heap.Length
    {
      for n := 0 to |pzs|
        invariant Valid() && size == n && fresh(steps - old(steps))
        invariant forall e :: e in known <==> e in pzs[..n]
      {
        assert pzs[..n + 1] == pzs[..n] + [pzs[n]];
        Push(pzs[n], 0);
      }
    }
  }
}
