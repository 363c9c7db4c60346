/** The list mergesort of CoreMark: bottom-up, iterative, on linked nodes in place. */
module MergeSort {
  import opened ListOrder
  import P = Pigeonhole

  // ----- the linked list

  /** The original nodes in order, what they held, how they are compared, and all that sorting may change. */
  datatype Origin = Origin(nodes: seq<ListHead>, keys: seq<Data>, cmp: Comparator, heads: set<ListHead>,
                           infos: set<ListData>)

  ghost predicate Proper(o: Origin) {
    && |o.nodes| == |o.keys| && (forall i :: 0 <= i < |o.nodes| ==> o.nodes[i] in o.heads)
    && forall i, j :: 0 <= i < j < |o.nodes| ==> o.nodes[i] != o.nodes[j]
  }

  /** The item of node i holds what it held, or what looking at that left; if it was seen, the latter. */
  ghost predicate SeenAt(o: Origin, seen: set<nat>, i: nat)
    requires Proper(o) && i < |o.nodes|
    reads o.heads`info, o.infos
  {
    && o.nodes[i].info in o.infos
    && var v := o.nodes[i].info.Value(); v == o.cmp.touch(o.keys[i]) || (i !in seen && v == o.keys[i])
  }

  ghost predicate Seen(o: Origin, seen: set<nat>)
    requires Proper(o)
    reads o.heads`info, o.infos
  {
    forall i: nat {:trigger SeenAt(o, seen, i)} :: i < |o.nodes| ==> SeenAt(o, seen, i)
  }

  ghost predicate InRange(o: Origin, ix: seq<nat>) { forall k :: 0 <= k < |ix| ==> ix[k] < |o.nodes| }

  /** Position j of one list and position k of another hold different items. */
  ghost predicate Apart(out: seq<nat>, j: int, ix: seq<nat>, k: int) {
    0 <= j < |out| && 0 <= k < |ix| ==> out[j] != ix[k]
  }

  /** The lists ix of different items, out of nodes that are all different. */
  ghost predicate Listed(o: Origin, ix: seq<nat>) { Proper(o) && InRange(o, ix) && P.Distinct(ix) }

  /** The node at position k of the list ix, or null at its end. */
  function At(o: Origin, ix: seq<nat>, k: nat): ListHead?
    requires InRange(o, ix)
  {
    if k < |ix| then o.nodes[ix[k]] else null
  }

  ghost predicate LinkAt(o: Origin, ix: seq<nat>, k: nat)
    requires Proper(o) && InRange(o, ix)
    reads o.heads`next
  {
    k < |ix| ==> o.nodes[ix[k]].next == At(o, ix, k + 1)
  }

  /** From position a up to b the list ix is linked. */
  ghost predicate Linked(o: Origin, ix: seq<nat>, a: nat, b: nat)
    requires Proper(o) && InRange(o, ix)
    reads o.heads`next
  {
    forall k: nat {:trigger LinkAt(o, ix, k)} :: a <= k < b ==> LinkAt(o, ix, k)
  }

  /** The loop that steps insize places along from p. */
  method StepAlong(ghost o: Origin, p: ListHead, insize: nat, ghost ix: seq<nat>, ghost a: nat)
    returns (q: ListHead?, psize: nat)
    requires Listed(o, ix) && Linked(o, ix, a, |ix|) && a < |ix| && p == At(o, ix, a) && insize > 0
    ensures psize == (if a + insize < |ix| then insize else |ix| - a) && q == At(o, ix, a + psize)
  {
    q, psize := p, 0;
    var i := 0;
    while i < insize
      invariant i <= insize && psize == i && a + i <= |ix| && q == At(o, ix, a + i)
      invariant i < insize ==> a + i < |ix|
    {
      assert LinkAt(o, ix, a + i);
      psize := psize + 1;
      q := q.next;
      if q == null {
        break;
      }
      i := i + 1;
    }
  }

  // ----- merging two neighbouring runs

  /** The list ix, with a run from lo up to m and the next one from m up to hi. */
  datatype Task = Task(ix: seq<nat>, lo: nat, m: nat, hi: nat)

  /** The list built so far, and how far both runs are used up. */
  datatype Progress = Progress(out: seq<nat>, pi: nat, qi: nat)

  ghost predicate RunIn(o: Origin, seen: set<nat>, ix: seq<nat>, a: nat, b: nat) {
    && a <= b <= |ix|
    && (forall k :: a <= k < b ==> a <= ix[k] < b && (b - a > 1 ==> ix[k] in seen))
    && (forall k, l {:trigger Before(o.cmp, o.keys, ix[k], ix[l])} :: a <= k < l < b ==>
          Before(o.cmp, o.keys, ix[k], ix[l]))
  }

  ghost predicate Waiting(t: Task, g: Progress, k: nat) { g.pi <= k < t.m || g.qi <= k < t.hi }

  ghost predicate Bounds(t: Task, g: Progress) {
    t.lo <= g.pi <= t.m <= g.qi <= t.hi <= |t.ix| && |g.out| == g.pi + g.qi - t.m
  }

  /** The end of the list built so far is sorted and goes before all that waits. */
  ghost predicate Merged(o: Origin, t: Task, g: Progress, seen: set<nat>) {
    && Bounds(t, g)
    && (forall a, b {:trigger Before(o.cmp, o.keys, g.out[a], g.out[b])} ::
          t.lo <= a < b < |g.out| ==> Before(o.cmp, o.keys, g.out[a], g.out[b]))
    && (forall j, k: nat {:trigger Before(o.cmp, o.keys, g.out[j], t.ix[k])} ::
          t.lo <= j < |g.out| && k < |t.ix| && Waiting(t, g, k) ==>
          Before(o.cmp, o.keys, g.out[j], t.ix[k]))
    && (forall j :: t.lo <= j < |g.out| ==> t.lo <= g.out[j] < t.hi && (t.hi - t.lo > 1 ==> g.out[j] in seen))
    && (t.lo < t.m < t.hi && (g.pi > t.lo || g.qi > t.m) ==> t.ix[t.lo] in seen && t.ix[t.m] in seen)
  }

  ghost function FromP(t: Task, g: Progress): Progress
    requires Bounds(t, g) && g.pi < t.m
  {
    g.(out := g.out + [t.ix[g.pi]], pi := g.pi + 1)
  }

  ghost function FromQ(t: Task, g: Progress): Progress
    requires Bounds(t, g) && g.qi < t.hi
  {
    g.(out := g.out + [t.ix[g.qi]], qi := g.qi + 1)
  }

  ghost predicate TwoRuns(o: Origin, t: Task, seen: set<nat>) {
    RunIn(o, seen, t.ix, t.lo, t.m) && RunIn(o, seen, t.ix, t.m, t.hi)
  }

  /** The heads of both runs have been compared. */
  lemma HeadsSeen(o: Origin, t: Task, g: Progress, seen: set<nat>)
    requires Merged(o, t, g, seen) && TwoRuns(o, t, seen) && g.pi < t.m && g.qi < t.hi
    ensures var more := seen + {t.ix[g.pi], t.ix[g.qi]}; Merged(o, t, g, more) && TwoRuns(o, t, more)
  {
  }

  /** The head of the first run goes first: it is not greater than that of the second, or that one is used up. */
  lemma TakenFromP(o: Origin, t: Task, g: Progress, seen: set<nat>)
    requires Consistent(o.cmp) && Merged(o, t, g, seen) && TwoRuns(o, t, seen) && g.pi < t.m
    requires g.qi < t.hi ==> && t.ix[g.pi] < |o.keys| && t.ix[g.qi] < |o.keys|
                             && AtMost(o.cmp, o.keys[t.ix[g.pi]], o.keys[t.ix[g.qi]])
                             && t.ix[g.pi] in seen && t.ix[g.qi] in seen
    ensures Merged(o, t, FromP(t, g), seen)
  {
    var x, g' := t.ix[g.pi], FromP(t, g);
    forall k: nat | k < |t.ix| && Waiting(t, g', k)
      ensures Before(o.cmp, o.keys, x, t.ix[k])
    {
      if k >= t.m {
        assert Before(o.cmp, o.keys, x, t.ix[g.qi]);
        if k > g.qi { BeforeTransitive(o.cmp, o.keys, x, t.ix[g.qi], t.ix[k]); }
      }
    }
  }

  lemma TakenFromQ(o: Origin, t: Task, g: Progress, seen: set<nat>)
    requires Consistent(o.cmp) && Merged(o, t, g, seen) && TwoRuns(o, t, seen) && g.qi < t.hi && t.lo < t.m
    requires g.pi < t.m ==> && t.ix[g.pi] < |o.keys| && t.ix[g.qi] < |o.keys|
                            && !AtMost(o.cmp, o.keys[t.ix[g.pi]], o.keys[t.ix[g.qi]])
                            && t.ix[g.pi] in seen && t.ix[g.qi] in seen
    ensures Merged(o, t, FromQ(t, g), seen)
  {
    var x, g' := t.ix[g.qi], FromQ(t, g);
    forall k: nat | k < |t.ix| && Waiting(t, g', k)
      ensures Before(o.cmp, o.keys, x, t.ix[k])
    {
      if k < t.m {
        assert Ordered(o.cmp, o.keys[x], o.keys[t.ix[g.pi]], o.keys[x]);
        assert Before(o.cmp, o.keys, x, t.ix[g.pi]);
        if k > g.pi { BeforeTransitive(o.cmp, o.keys, x, t.ix[g.pi], t.ix[k]); }
      }
    }
  }

  /** A finished merge leaves one run. */
  lemma MergeDone(o: Origin, t: Task, g: Progress, seen: set<nat>)
    requires Merged(o, t, g, seen) && g.pi == t.m && g.qi == t.hi && t.lo < t.hi
    ensures |g.out| == t.hi && RunIn(o, seen, g.out, t.lo, t.hi)
  {
  }

  ghost predicate Unused(t: Task, g: Progress, k: nat) { g.pi <= k < t.m || g.qi <= k < |t.ix| }

  /** The nodes put out are linked from list to tail; p and q lead the nodes that are not used yet. */
  ghost predicate Chained(o: Origin, t: Task, g: Progress, p: ListHead?, q: ListHead?, list: ListHead?, tail: ListHead?)
    requires Proper(o) && InRange(o, t.ix)
    reads o.heads`next
  {
    && InRange(o, g.out) && P.Distinct(g.out) && g.pi <= t.m <= g.qi <= |t.ix|
    && (forall j: nat, k: nat {:trigger Apart(g.out, j, t.ix, k)} :: Unused(t, g, k) ==> Apart(g.out, j, t.ix, k))
    && Linked(o, g.out, 0, if g.out == [] then 0 else |g.out| - 1)
    && Linked(o, t.ix, g.pi, t.m) && Linked(o, t.ix, g.qi, |t.ix|)
    && list == At(o, g.out, 0) && tail == (if g.out == [] then null else o.nodes[g.out[|g.out| - 1]])
    && (g.pi < t.m ==> p == o.nodes[t.ix[g.pi]]) && q == At(o, t.ix, g.qi)
  }

  /** Puts e, the node at position x, at the end of the list built so far. */
  method Append(ghost o: Origin, ghost t: Task, ghost g: Progress, ghost g': Progress, ghost x: nat,
                ghost p: ListHead?, ghost q: ListHead?, list: ListHead?, tail: ListHead?, e: ListHead,
                ghost p': ListHead?, ghost q': ListHead?)
    returns (head: ListHead)
    requires Listed(o, t.ix) && Chained(o, t, g, p, q, list, tail)
    requires g.pi <= g'.pi <= t.m && g.qi <= g'.qi <= |t.ix|
    requires x < |t.ix| && Unused(t, g, x) && !Unused(t, g', x) && g'.out == g.out + [t.ix[x]] && e == o.nodes[t.ix[x]]
    requires (g'.pi < t.m ==> p' == o.nodes[t.ix[g'.pi]]) && q' == At(o, t.ix, g'.qi)
    modifies o.heads`next
    ensures Chained(o, t, g', p', q', head, e)
  {
    if tail != null {
      tail.next := e;
      head := list;
    } else {
      head := e;
    }
    forall j: nat, k: nat ensures Unused(t, g', k) ==> Apart(g'.out, j, t.ix, k) {
      if Unused(t, g', k) {
        assert Apart(g.out, j, t.ix, k);
        assert x < k || k < x;
      }
    }
    forall j: nat, k: nat | j < k < |g'.out| ensures g'.out[j] != g'.out[k] {
      if k == |g.out| { assert Apart(g.out, j, t.ix, x); }
    }
    forall k: nat | k + 1 < |g'.out| ensures LinkAt(o, g'.out, k) {
      if k + 1 < |g.out| {
        assert old(LinkAt(o, g.out, k));
        assert g.out[k] != g.out[|g.out| - 1];
      }
    }
    forall k: nat | k < |t.ix| && Unused(t, g', k) ensures LinkAt(o, t.ix, k) {
      assert old(LinkAt(o, t.ix, k));
      assert Apart(g.out, |g.out| - 1, t.ix, k);
    }
  }

  /** Comparing two items reports the order of what they held, and leaves both looked at. */
  method CompareItems(cmp: Comparator, ghost o: Origin, ghost seen: set<nat>, ghost x: nat, ghost y: nat, a: ListHead,
                      b: ListHead)
    returns (c: int)
    requires cmp == o.cmp && Consistent(cmp) && Proper(o) && Seen(o, seen)
    requires x < |o.nodes| && y < |o.nodes| && a == o.nodes[x] && b == o.nodes[y]
    modifies o.infos
    ensures c == cmp.order(o.keys[x], o.keys[y]) && Seen(o, seen + {x, y})
  {
    var u, v := o.keys[x], o.keys[y];
    assert Settled(cmp, u, v) && Settled(cmp, v, u) && Settled(cmp, cmp.touch(u), v);
    assert SeenAt(o, seen, x) && SeenAt(o, seen, y);
    c := Compare(cmp, a.info, b.info);
    forall i: nat | i < |o.nodes| ensures SeenAt(o, seen + {x, y}, i) {
      assert old(SeenAt(o, seen, i));
      assert Settled(cmp, o.keys[i], o.keys[i]);
    }
  }

  /** Everything the merge loop keeps. */
  ghost predicate Merging(o: Origin, t: Task, g: Progress, seen: set<nat>, p: ListHead?, q: ListHead?, psize: nat,
                          qsize: nat,
                          list: ListHead?, tail: ListHead?)
    requires Listed(o, t.ix)
    reads o.heads, o.infos
  {
    && Chained(o, t, g, p, q, list, tail) && Merged(o, t, g, seen) && TwoRuns(o, t, seen) && Seen(o, seen)
    && psize == t.m - g.pi && qsize >= t.hi - g.qi && (t.hi < |t.ix| ==> qsize == t.hi - g.qi)
  }

  method TakeP(ghost o: Origin, ghost t: Task, ghost g: Progress, ghost seen: set<nat>, p: ListHead, q: ListHead?,
               ghost psize: nat, ghost qsize: nat, list: ListHead?, tail: ListHead?)
    returns (p': ListHead?, head: ListHead)
    requires Listed(o, t.ix) && Merging(o, t, g, seen, p, q, psize, qsize, list, tail) && g.pi < t.m
    requires Merged(o, t, FromP(t, g), seen)
    modifies o.heads`next
    ensures Merging(o, t, FromP(t, g), seen, p', q, psize - 1, qsize, head, p)
  {
    assert LinkAt(o, t.ix, g.pi);
    p' := p.next;
    head := Append(o, t, g, FromP(t, g), g.pi, p, q, list, tail, p, p', q);
  }

  method TakeQ(ghost o: Origin, ghost t: Task, ghost g: Progress, ghost seen: set<nat>, ghost p: ListHead?, q: ListHead,
               ghost psize: nat, ghost qsize: nat, list: ListHead?, tail: ListHead?)
    returns (q': ListHead?, head: ListHead)
    requires Listed(o, t.ix) && Merging(o, t, g, seen, p, q, psize, qsize, list, tail) && g.qi < t.hi && qsize > 0
    requires Merged(o, t, FromQ(t, g), seen)
    modifies o.heads`next
    ensures Merging(o, t, FromQ(t, g), seen, p, q', psize, qsize - 1, head, q)
  {
    assert LinkAt(o, t.ix, g.qi);
    q' := q.next;
    head := Append(o, t, g, FromQ(t, g), g.qi, p, q, list, tail, q, p, q');
  }

  /** Whether the next node comes from p: q is used up, or its head is not less than p's. */
  method Choose(cmp: Comparator, ghost o: Origin, ghost t: Task, ghost g: Progress, ghost seen: set<nat>,
                p: ListHead?, q: ListHead?, psize: nat, qsize: nat, ghost list: ListHead?, ghost tail: ListHead?)
    returns (fromP: bool, ghost more: set<nat>)
    requires cmp == o.cmp && Consistent(cmp) && t.lo < t.m && Listed(o, t.ix)
    requires Merging(o, t, g, seen, p, q, psize, qsize, list, tail)
    requires psize > 0 || (qsize > 0 && q != null)
    modifies o.infos
    ensures Merging(o, t, g, more, p, q, psize, qsize, list, tail) && seen <= more
    ensures if fromP then psize > 0 && p != null && g.pi < t.m && Merged(o, t, FromP(t, g), more)
            else qsize > 0 && q != null && g.qi < t.hi && Merged(o, t, FromQ(t, g), more)
  {
    if psize == 0 {
      TakenFromQ(o, t, g, seen);
      return false, seen;
    } else if qsize == 0 || q == null {
      TakenFromP(o, t, g, seen);
      return true, seen;
    }
    var c := CompareItems(cmp, o, seen, t.ix[g.pi], t.ix[g.qi], p, q);
    HeadsSeen(o, t, g, seen);
    more := seen + {t.ix[g.pi], t.ix[g.qi]};
    fromP := c <= 0;
    if fromP {
      TakenFromP(o, t, g, more);
    } else {
      TakenFromQ(o, t, g, more);
    }
  }

  ghost predicate Keeps(done: seq<nat>, out: seq<nat>) {
    |done| <= |out| && forall j {:trigger out[j]} :: 0 <= j < |done| ==> out[j] == done[j]
  }

  /** One round of the merge loop. */
  method MergeStep(cmp: Comparator, ghost o: Origin, ghost t: Task, ghost g: Progress, ghost seen: set<nat>,
                   p: ListHead?, q: ListHead?, psize: nat, qsize: nat, list: ListHead?, tail: ListHead?)
    returns (p': ListHead?, q': ListHead?, psize': nat, qsize': nat, head: ListHead, e: ListHead,
             ghost g': Progress, ghost more: set<nat>)
    requires cmp == o.cmp && Consistent(cmp) && t.lo < t.m && Listed(o, t.ix)
    requires Merging(o, t, g, seen, p, q, psize, qsize, list, tail)
    requires psize > 0 || (qsize > 0 && q != null)
    modifies o.heads`next, o.infos
    ensures Merging(o, t, g', more, p', q', psize', qsize', head, e)
    ensures seen <= more && Keeps(g.out, g'.out) && psize' + qsize' < psize + qsize
  {
    p', q', psize', qsize' := p, q, psize, qsize;
    var fromP;
    fromP, more := Choose(cmp, o, t, g, seen, p, q, psize, qsize, list, tail);
    if fromP {
      e := p;
      p', head := TakeP(o, t, g, more, e, q, psize, qsize, list, tail);
      psize', g' := psize - 1, FromP(t, g);
    } else {
      e := q;
      q', head := TakeQ(o, t, g, more, p, e, psize, qsize, list, tail);
      qsize', g' := qsize - 1, FromQ(t, g);
    }
  }

  /** The merge loop: both runs, in order, go to the end of the list built so far. */
  method MergeRuns(cmp: Comparator, ghost o: Origin, ghost t: Task, ghost done: Progress, ghost seen0: set<nat>,
                   p0: ListHead?, q0: ListHead?, psize0: nat, insize: nat, list: ListHead?, tail0: ListHead?)
    returns (q: ListHead?, head: ListHead?, tail: ListHead?, ghost g: Progress, ghost seen: set<nat>,
             ghost p: ListHead?, ghost qsize: nat)
    requires cmp == o.cmp && Consistent(cmp) && t.lo < t.m && Listed(o, t.ix)
    requires Merging(o, t, done, seen0, p0, q0, psize0, insize, list, tail0)
    modifies o.heads`next, o.infos
    ensures Merging(o, t, g, seen, p, q, 0, qsize, head, tail) && (qsize == 0 || q == null)
    ensures seen0 <= seen && Keeps(done.out, g.out)
  {
    var p', psize, qsize' := p0, psize0, insize;
    q, head, tail, g, seen := q0, list, tail0, done, seen0;
    while psize > 0 || (qsize' > 0 && q != null)
      invariant Merging(o, t, g, seen, p', q, psize, qsize', head, tail)
      invariant seen0 <= seen && Keeps(done.out, g.out)
      decreases psize + qsize'
    {
      p', q, psize, qsize', head, tail, g, seen := MergeStep(cmp, o, t, g, seen, p', q, psize, qsize', head, tail);
    }
    p, qsize := p', qsize';
  }

  // ----- one pass over the list

  lemma RunInIsRun(o: Origin, seen: set<nat>, ix: seq<nat>, a: nat, b: nat)
    requires a <= b <= |ix|
    ensures RunIn(o, seen, ix, a, b) <==> Run(o.cmp, o.keys, seen, ix[a..b], a)
  {
    var run := ix[a..b];
    if Run(o.cmp, o.keys, seen, run, a) {
      forall k, l | a <= k < l < b ensures Before(o.cmp, o.keys, ix[k], ix[l]) {
        assert Before(o.cmp, o.keys, run[k - a], run[l - a]);
      }
      forall k | a <= k < b ensures a <= ix[k] < b && (b - a > 1 ==> ix[k] in seen) { assert ix[k] == run[k - a]; }
    }
    if RunIn(o, seen, ix, a, b) {
      forall k, l | 0 <= k < l < |run| ensures Before(o.cmp, o.keys, run[k], run[l]) {
        assert Before(o.cmp, o.keys, ix[a + k], ix[a + l]);
      }
    }
  }

  ghost function End(ix: seq<nat>, a: nat, w: nat): nat { if a + w < |ix| then a + w else |ix| }

  lemma FirstRun(o: Origin, seen: set<nat>, ix: seq<nat>, a: nat, w: nat)
    requires w > 0 && a <= |ix| && Runs(o.cmp, o.keys, seen, ix[a..], a, w)
    ensures var m := End(ix, a, w); RunIn(o, seen, ix, a, m) && Runs(o.cmp, o.keys, seen, ix[m..], m, w)
  {
  }

  /** Between merges: the runs before a are merged in pairs, those from a on are as they were. */
  ghost predicate Passing(o: Origin, ix: seq<nat>, out: seq<nat>, seen: set<nat>, a: nat, w: nat) {
    && w > 0 && a <= |ix| && |out| == a
    && Runs(o.cmp, o.keys, seen, ix[a..], a, w)
    && (a < |ix| ==> FullRuns(o.cmp, o.keys, seen, out, 0, 2 * w))
    && (a == |ix| && a > 0 ==> Runs(o.cmp, o.keys, seen, out, 0, 2 * w))
  }

  lemma MergeStarts(o: Origin, ix: seq<nat>, out: seq<nat>, seen: set<nat>, a: nat, w: nat)
    requires Passing(o, ix, out, seen, a, w) && a < |ix|
    ensures var m := End(ix, a, w);
            var t := Task(ix, a, m, End(ix, m, w));
            Merged(o, t, Progress(out, a, m), seen) && TwoRuns(o, t, seen)
            && Runs(o.cmp, o.keys, seen, ix[t.hi..], t.hi, w)
  {
    FirstRun(o, seen, ix, a, w);
    FirstRun(o, seen, ix, End(ix, a, w), w);
  }

  lemma MergeEnds(o: Origin, t: Task, g: Progress, out: seq<nat>, seen0: set<nat>, seen: set<nat>, w: nat)
    requires Passing(o, t.ix, out, seen0, t.lo, w) && t.lo < t.m <= t.hi && seen0 <= seen && Keeps(out, g.out)
    requires t.hi == End(t.ix, End(t.ix, t.lo, w), w) && Runs(o.cmp, o.keys, seen0, t.ix[t.hi..], t.hi, w)
    requires Merged(o, t, g, seen) && g.pi == t.m && g.qi == t.hi
    ensures Passing(o, t.ix, g.out, seen, t.hi, w)
  {
    MergeDone(o, t, g, seen);
    RunInIsRun(o, seen, g.out, t.lo, t.hi);
    assert g.out == out + g.out[t.lo..t.hi];
    FullRunsSeenMore(o.cmp, o.keys, seen0, seen, out, 0, 2 * w);
    RunsSeenMore(o.cmp, o.keys, seen0, seen, t.ix[t.hi..], t.hi, w);
    RunsJoined(o.cmp, o.keys, seen, out, g.out[t.lo..t.hi], 0, 2 * w);
  }

  /** Between merges: the nodes put out, and p leading the rest. */
  ghost predicate Between(o: Origin, ix: seq<nat>, out: seq<nat>, seen: set<nat>, a: nat, w: nat,
                          p: ListHead?, list: ListHead?, tail: ListHead?)
    requires Listed(o, ix)
    reads o.heads, o.infos
  {
    && Passing(o, ix, out, seen, a, w) && Seen(o, seen)
    && Chained(o, Task(ix, a, a, a), Progress(out, a, a), null, p, list, tail)
  }

  lemma RestTurnsRuns(o: Origin, ix: seq<nat>, out: seq<nat>, a: nat, t: Task, p: ListHead?, q: ListHead?,
                      list: ListHead?, tail: ListHead?)
    requires Listed(o, ix) && a <= t.m <= |ix| && t.ix == ix && (a < t.m ==> a < |ix|) && q == At(o, ix, t.m)
    requires Chained(o, Task(ix, a, a, a), Progress(out, a, a), null, p, list, tail)
    ensures Chained(o, t, Progress(out, a, t.m), p, q, list, tail)
  {
  }

  lemma RunsTurnRest(o: Origin, t: Task, g: Progress, p: ListHead?, q: ListHead?, list: ListHead?, tail: ListHead?)
    requires Listed(o, t.ix) && Chained(o, t, g, p, q, list, tail) && g.pi == t.m && g.qi == t.hi
    ensures Chained(o, Task(t.ix, t.hi, t.hi, t.hi), Progress(g.out, t.hi, t.hi), null, q, list, tail)
  {
  }

  lemma MergingStarts(o: Origin, t: Task, out: seq<nat>, seen: set<nat>, w: nat,
                      p: ListHead, q: ListHead?, psize: nat, list: ListHead?, tail: ListHead?)
    requires Listed(o, t.ix) && Between(o, t.ix, out, seen, t.lo, w, p, list, tail) && t.lo < |t.ix|
    requires t.m == End(t.ix, t.lo, w) && t.hi == End(t.ix, t.m, w) && psize == t.m - t.lo && q == At(o, t.ix, t.m)
    ensures t.lo < t.m <= t.hi && Merging(o, t, Progress(out, t.lo, t.m), seen, p, q, psize, w, list, tail)
    ensures Runs(o.cmp, o.keys, seen, t.ix[t.hi..], t.hi, w)
  {
    MergeStarts(o, t.ix, out, seen, t.lo, w);
    RestTurnsRuns(o, t.ix, out, t.lo, t, p, q, list, tail);
  }

  lemma MergingEnds(o: Origin, t: Task, g: Progress, out: seq<nat>, seen0: set<nat>, seen: set<nat>, w: nat,
                    p: ListHead?, q: ListHead?, qsize: nat, list: ListHead?, tail: ListHead?)
    requires Passing(o, t.ix, out, seen0, t.lo, w) && t.lo < t.m <= t.hi && seen0 <= seen && Keeps(out, g.out)
    requires t.m == End(t.ix, t.lo, w) && t.hi == End(t.ix, t.m, w) && Runs(o.cmp, o.keys, seen0, t.ix[t.hi..], t.hi, w)
    requires Listed(o, t.ix) && Merging(o, t, g, seen, p, q, 0, qsize, list, tail) && (qsize == 0 || q == null)
    ensures Between(o, t.ix, g.out, seen, t.hi, w, q, list, tail)
  {
    MergeEnds(o, t, g, out, seen0, seen, w);
    RunsTurnRest(o, t, g, p, q, list, tail);
  }

  /** One merge of a pass, from finding its second run to stepping past it. */
  method MergePair(cmp: Comparator, ghost o: Origin, ghost ix: seq<nat>, ghost out: seq<nat>, ghost seen: set<nat>,
                   ghost a: nat, insize: nat, p: ListHead, list: ListHead?, tail: ListHead?)
    returns (q: ListHead?, head: ListHead?, last: ListHead?, ghost more: seq<nat>, ghost seen': set<nat>, ghost b: nat)
    requires cmp == o.cmp && Consistent(cmp) && Listed(o, ix) && a < |ix|
    requires Between(o, ix, out, seen, a, insize, p, list, tail)
    modifies o.heads`next, o.infos
    ensures b == End(ix, End(ix, a, insize), insize)
    ensures Between(o, ix, more, seen', b, insize, q, head, last)
  {
    var psize;
    q, psize := StepAlong(o, p, insize, ix, a);
    ghost var t := Task(ix, a, a + psize, End(ix, a + psize, insize));
    MergingStarts(o, t, out, seen, insize, p, q, psize, list, tail);
    ghost var g, p', qsize;
    q, head, last, g, seen', p', qsize :=
      MergeRuns(cmp, o, t, Progress(out, a, t.m), seen, p, q, psize, insize, list, tail);
    MergingEnds(o, t, g, out, seen, seen', insize, p', q, qsize, head, last);
    more, b := g.out, t.hi;
  }

  method EndList(ghost o: Origin, ghost out: seq<nat>, tail: ListHead)
    requires Listed(o, out) && out != [] && Linked(o, out, 0, |out| - 1) && tail == o.nodes[out[|out| - 1]]
    modifies o.heads`next
    ensures Linked(o, out, 0, |out|)
  {
    tail.next := null;
    forall k: nat | k < |out| ensures LinkAt(o, out, k) {
      if k + 1 < |out| {
        assert old(LinkAt(o, out, k));
        assert out[k] != out[|out| - 1];
      }
    }
  }

  /** One pass: merges pairs of runs until the list is used up, and ends the new list. */
  method Pass(cmp: Comparator, ghost o: Origin, ghost ix: seq<nat>, ghost seen0: set<nat>, insize: nat, list: ListHead)
    returns (head: ListHead, nmerges: nat, ghost out: seq<nat>, ghost seen: set<nat>)
    requires cmp == o.cmp && Consistent(cmp) && Listed(o, ix) && ix != [] && list == At(o, ix, 0)
    requires Linked(o, ix, 0, |ix|)
    requires insize > 0 && Runs(cmp, o.keys, seen0, ix, 0, insize) && Seen(o, seen0)
    modifies o.heads`next, o.infos
    ensures |out| == |ix| && Listed(o, out) && head == At(o, out, 0) && Linked(o, out, 0, |out|)
    ensures Runs(cmp, o.keys, seen, out, 0, 2 * insize) && Seen(o, seen)
    ensures nmerges <= 1 <==> |ix| <= 2 * insize
  {
    var p, head', tail: ListHead? := list, null, null;
    ghost var a := 0;
    nmerges, out, seen := 0, [], seen0;
    assert ix[0..] == ix;
    while p != null
      invariant Between(o, ix, out, seen, a, insize, p, head', tail)
      invariant nmerges == 0 <==> a == 0
      invariant nmerges <= 1 <==> a <= 2 * insize
      decreases |ix| - a
    {
      nmerges := nmerges + 1;
      p, head', tail, out, seen, a := MergePair(cmp, o, ix, out, seen, a, insize, p, head', tail);
    }
    EndList(o, out, tail);
    head := head';
  }

  // ----- the sort

  /** The list ix of all the nodes, linked from list to its end. */
  ghost predicate IsList(o: Origin, ix: seq<nat>, list: ListHead)
    requires Proper(o)
    reads o.heads`next
  {
    && Listed(o, ix) && |ix| == |o.nodes| && ix != []
    && list == At(o, ix, 0) && Linked(o, ix, 0, |ix|)
  }

  /** The positions 0, 1, 2, ... of the list as it was given. */
  ghost function Given(n: nat): (ix: seq<nat>)
    ensures |ix| == n && forall k :: 0 <= k < n ==> ix[k] == k
  {
    seq(n, k requires 0 <= k < n => k)
  }

  /** What all items hold once each has been looked at. */
  ghost predicate AllTouched(o: Origin)
    requires Proper(o)
    reads o.heads`info, o.infos
  {
    forall i :: 0 <= i < |o.nodes| ==> o.nodes[i].info in o.infos && o.nodes[i].info.Value() == o.cmp.touch(o.keys[i])
  }

  /** core_list_mergesort, on any list that is not empty: the same nodes, in the order of a stable sort. */
  method Sort(list: ListHead, cmp: Comparator, ghost o: Origin) returns (head: ListHead, ghost ix: seq<nat>)
    requires cmp == o.cmp && Consistent(cmp) && Proper(o) && IsList(o, Given(|o.nodes|), list)
    requires forall i :: 0 <= i < |o.nodes| ==> o.nodes[i].info in o.infos && o.nodes[i].info.Value() == o.keys[i]
    modifies o.heads`next, o.infos
    ensures IsList(o, ix, head) && Sorted(cmp, o.keys, ix)
    ensures forall a, b :: 0 <= a < b < |ix| ==>
              && AtMost(cmp, o.keys[ix[a]], o.keys[ix[b]])
              && (AtMost(cmp, o.keys[ix[b]], o.keys[ix[a]]) ==> ix[a] < ix[b])
    ensures |o.nodes| > 1 ==> AllTouched(o)
  {
    var insize := 1;
    head := list;
    ghost var seen: set<nat> := {};
    ix := Given(|o.nodes|);
    SinglesAreRuns(cmp, o.keys, ix, 0);
    var nmerges := 2;
    while nmerges > 1
      invariant IsList(o, ix, head) && insize > 0 && Seen(o, seen)
      invariant Runs(cmp, o.keys, seen, ix, 0, insize)
      invariant nmerges <= 1 ==> |ix| <= insize
      decreases if nmerges > 1 then 1 else 0, |o.nodes| - insize
    {
      head, nmerges, ix, seen := Pass(cmp, o, ix, seen, insize, head);
      insize := insize * 2;
    }
    EverySeen(o, ix, seen);
  }

  lemma EverySeen(o: Origin, ix: seq<nat>, seen: set<nat>)
    requires Listed(o, ix) && |ix| == |o.nodes| && Run(o.cmp, o.keys, seen, ix, 0) && Seen(o, seen)
    ensures |ix| > 1 ==> AllTouched(o)
  {
    forall i | 0 <= i < |o.nodes| && |ix| > 1
      ensures o.nodes[i].info in o.infos && o.nodes[i].info.Value() == o.cmp.touch(o.keys[i])
    {
      EveryIndex(o, ix, i);
      assert SeenAt(o, seen, i);
    }
  }

  /** All different positions below n, n of them: every item is there. */
  lemma EveryIndex(o: Origin, ix: seq<nat>, i: nat)
    requires Listed(o, ix) && |ix| == |o.nodes| && i < |ix|
    ensures i in ix
  {
    P.Surjective(ix, |ix|);
  }

  /** The order of a stable sort is the only one: two sorted lists of all the items are the same. */
  lemma {:induction false} SortedIsUnique(o: Origin, a: seq<nat>, b: seq<nat>, k: nat)
    requires Listed(o, a) && Listed(o, b) && |a| == |b| == |o.nodes| && k <= |a|
    requires Sorted(o.cmp, o.keys, a) && Sorted(o.cmp, o.keys, b)
    ensures a[..k] == b[..k]
  {
    if k > 0 {
      SortedIsUnique(o, a, b, k - 1);
      NotBehind(o, a, b, k - 1);
      NotBehind(o, b, a, k - 1);
    }
  }

  /** Where two sorted lists go on from a common start, neither can be behind the other. */
  lemma NotBehind(o: Origin, a: seq<nat>, b: seq<nat>, k: nat)
    requires Listed(o, a) && Listed(o, b) && k < |a| == |b| == |o.nodes| && a[..k] == b[..k]
    requires Sorted(o.cmp, o.keys, a)
    ensures a[k] == b[k] || Before(o.cmp, o.keys, a[k], b[k])
  {
    EveryIndex(o, a, b[k]);
    var i :| 0 <= i < |a| && a[i] == b[k];
    forall j | 0 <= j < k ensures a[j] != b[k] { assert a[..k][j] == b[..k][j]; }
  }

  /** Sorting by index without a results record: the items are in order of idx, and their data is restored. */
  method SortByIdx(list: ListHead, ghost o: Origin) returns (head: ListHead, ghost ix: seq<nat>)
    requires o.cmp == IdxComparator(true) && Proper(o) && IsList(o, Given(|o.nodes|), list)
    requires forall i :: 0 <= i < |o.nodes| ==> o.nodes[i].info in o.infos && o.nodes[i].info.Value() == o.keys[i]
    modifies o.heads`next, o.infos
    ensures IsList(o, ix, head)
    ensures forall a, b :: 0 <= a < b < |ix| ==> o.keys[ix[a]].idx <= o.keys[ix[b]].idx
    ensures |o.nodes| > 1 ==> forall i :: 0 <= i < |o.nodes| ==>
              var d := o.nodes[i].info.data16;
              d & 0x00ff == d >> 8 && d >> 8 == o.keys[i].data16 >> 8 && o.nodes[i].info.idx == o.keys[i].idx
  {
    IdxIsConsistent(true);
    head, ix := Sort(list, IdxComparator(true), o);
    forall a, b | 0 <= a < b < |ix| ensures o.keys[ix[a]].idx <= o.keys[ix[b]].idx {
      assert AtMost(o.cmp, o.keys[ix[a]], o.keys[ix[b]]);
    }
    forall i | 0 <= i < |o.nodes| && |o.nodes| > 1
      ensures o.nodes[i].info.Value() == Data(Regenerated(o.keys[i].data16), o.keys[i].idx)
    {
    }
    forall i | 0 <= i < |o.nodes| { RegeneratedOnce(o.keys[i].data16); }
  }
}
