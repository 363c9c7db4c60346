/** Flows and cuts in a network whose arcs come in opposite pairs, as dinic.cc stores them. */
module FlowNetwork {
  import opened Pigeonhole

  datatype Arc = Arc(from: nat, to: nat, cap: int)

  /** The arc stored beside arc i, in the opposite direction: i ^ 1. */
  function Twin(i: nat): nat {
    if i % 2 == 0 then i + 1 else i - 1
  }

  ghost predicate IsNetwork(arcs: seq<Arc>, n: nat) {
    && |arcs| % 2 == 0
    && (forall i :: 0 <= i < |arcs| ==> arcs[i].from < n && arcs[i].to < n && arcs[i].cap >= 0)
    && (forall i {:trigger Twin(i)} :: 0 <= i < |arcs| ==>
          arcs[Twin(i)].from == arcs[i].to && arcs[Twin(i)].to == arcs[i].from)
  }

  /** Opposite arcs carry opposite flows, and no arc carries more than its capacity. */
  ghost predicate IsFlow(arcs: seq<Arc>, flow: seq<int>) {
    && |flow| == |arcs| && |arcs| % 2 == 0
    && (forall i :: 0 <= i < |arcs| ==> flow[i] <= arcs[i].cap)
    && (forall i {:trigger Twin(i)} :: 0 <= i < |arcs| ==> flow[Twin(i)] == -flow[i])
  }

  /** The flow that leaves v, less what enters it, on the first m arcs. */
  ghost function NetOut(arcs: seq<Arc>, flow: seq<int>, v: nat, m: nat): int
    requires m <= |arcs| == |flow|
  {
    if m == 0 then 0 else NetOut(arcs, flow, v, m - 1) + if arcs[m - 1].from == v then flow[m - 1] else 0
  }

  ghost function Excess(arcs: seq<Arc>, flow: seq<int>, v: nat): int
    requires |arcs| == |flow|
  {
    NetOut(arcs, flow, v, |arcs|)
  }

  /** A feasible flow from s to t: nothing is lost or created at any other vertex. */
  ghost predicate Feasible(arcs: seq<Arc>, flow: seq<int>, n: nat, s: nat, t: nat) {
    && IsFlow(arcs, flow)
    && forall v :: 0 <= v < n && v != s && v != t ==> Excess(arcs, flow, v) == 0
  }

  /** The capacity of the arcs among the first m that leave the set. */
  ghost function CutCapacity(arcs: seq<Arc>, side: set<nat>, m: nat): int
    requires m <= |arcs|
  {
    if m == 0 then 0
    else
      CutCapacity(arcs, side, m - 1)
      + if arcs[m - 1].from in side && arcs[m - 1].to !in side then arcs[m - 1].cap else 0
  }

  /** The flow on the arcs that leave the set. */
  ghost function CutFlow(arcs: seq<Arc>, flow: seq<int>, side: set<nat>, m: nat): int
    requires m <= |arcs| == |flow|
  {
    if m == 0 then 0
    else
      CutFlow(arcs, flow, side, m - 1)
      + if arcs[m - 1].from in side && arcs[m - 1].to !in side then flow[m - 1] else 0
  }

  /** The flow on the arcs that start in the set at a vertex below k. */
  ghost function SideFlow(arcs: seq<Arc>, flow: seq<int>, side: set<nat>, k: nat, m: nat): int
    requires m <= |arcs| == |flow|
  {
    if m == 0 then 0
    else
      SideFlow(arcs, flow, side, k, m - 1)
      + if arcs[m - 1].from in side && arcs[m - 1].from < k then flow[m - 1] else 0
  }

  lemma {:induction false} SideFlowNext(arcs: seq<Arc>, flow: seq<int>, side: set<nat>, k: nat, m: nat)
    requires m <= |arcs| == |flow|
    ensures SideFlow(arcs, flow, side, k + 1, m)
         == SideFlow(arcs, flow, side, k, m) + if k in side then NetOut(arcs, flow, k, m) else 0
  {
    if m > 0 { SideFlowNext(arcs, flow, side, k, m - 1); }
  }

  lemma {:induction false} SideFlowNone(arcs: seq<Arc>, flow: seq<int>, side: set<nat>, m: nat)
    requires m <= |arcs| == |flow|
    ensures SideFlow(arcs, flow, side, 0, m) == 0
  {
    if m > 0 { SideFlowNone(arcs, flow, side, m - 1); }
  }

  /** Only s contributes, when s is on the side and t is not. */
  lemma {:induction false} SideFlowIsSource(arcs: seq<Arc>, flow: seq<int>, n: nat, s: nat, t: nat, side: set<nat>,
                                            k: nat)
    requires Feasible(arcs, flow, n, s, t) && s in side && t !in side && k <= n
    ensures SideFlow(arcs, flow, side, k, |arcs|) == if s < k then Excess(arcs, flow, s) else 0
  {
    if k == 0 {
      SideFlowNone(arcs, flow, side, |arcs|);
    } else {
      SideFlowIsSource(arcs, flow, n, s, t, side, k - 1);
      SideFlowNext(arcs, flow, side, k - 1, |arcs|);
      assert k - 1 in side && k - 1 != s ==> Excess(arcs, flow, k - 1) == 0;
    }
  }

  /** Arcs inside the set cancel in pairs, so what leaves its vertices crosses its border. */
  lemma {:induction false} SideFlowCrosses(arcs: seq<Arc>, flow: seq<int>, n: nat, side: set<nat>, m: nat)
    requires IsNetwork(arcs, n) && IsFlow(arcs, flow) && m <= |arcs| && m % 2 == 0
    ensures SideFlow(arcs, flow, side, n, m) == CutFlow(arcs, flow, side, m)
  {
    if m > 0 {
      SideFlowCrosses(arcs, flow, n, side, m - 2);
      assert Twin(m - 2) == m - 1;
    }
  }

  lemma {:induction false} CutFlowAtMost(arcs: seq<Arc>, flow: seq<int>, side: set<nat>, m: nat)
    requires IsFlow(arcs, flow) && m <= |arcs|
    ensures CutFlow(arcs, flow, side, m) <= CutCapacity(arcs, side, m)
  {
    if m > 0 { CutFlowAtMost(arcs, flow, side, m - 1); }
  }

  lemma {:induction false} CutFlowSaturated(arcs: seq<Arc>, flow: seq<int>, side: set<nat>, m: nat)
    requires IsFlow(arcs, flow) && m <= |arcs|
    requires forall i :: 0 <= i < |arcs| && arcs[i].from in side && arcs[i].to !in side ==> flow[i] >= arcs[i].cap
    ensures CutFlow(arcs, flow, side, m) == CutCapacity(arcs, side, m)
  {
    if m > 0 { CutFlowSaturated(arcs, flow, side, m - 1); }
  }

  /** Every feasible flow is at most the capacity of every cut that separates s from t. */
  lemma FlowAtMostCut(arcs: seq<Arc>, flow: seq<int>, n: nat, s: nat, t: nat, side: set<nat>)
    requires IsNetwork(arcs, n) && Feasible(arcs, flow, n, s, t) && s < n && s in side && t !in side
    ensures Excess(arcs, flow, s) == CutFlow(arcs, flow, side, |arcs|) <= CutCapacity(arcs, side, |arcs|)
  {
    SideFlowIsSource(arcs, flow, n, s, t, side, n);
    SideFlowCrosses(arcs, flow, n, side, |arcs|);
    CutFlowAtMost(arcs, flow, side, |arcs|);
  }

  /** A flow that saturates a cut is a maximum flow, and its value is the capacity of that cut. */
  lemma SaturatedCutIsMaximum(arcs: seq<Arc>, flow: seq<int>, n: nat, s: nat, t: nat, side: set<nat>)
    requires IsNetwork(arcs, n) && Feasible(arcs, flow, n, s, t) && s < n && s in side && t !in side
    requires forall i :: 0 <= i < |arcs| && arcs[i].from in side && arcs[i].to !in side ==> flow[i] >= arcs[i].cap
    ensures Excess(arcs, flow, s) == CutCapacity(arcs, side, |arcs|)
    ensures forall other :: Feasible(arcs, other, n, s, t) ==> Excess(arcs, other, s) <= Excess(arcs, flow, s)
  {
    FlowAtMostCut(arcs, flow, n, s, t, side);
    CutFlowSaturated(arcs, flow, side, |arcs|);
    forall other | Feasible(arcs, other, n, s, t) ensures Excess(arcs, other, s) <= Excess(arcs, flow, s) {
      FlowAtMostCut(arcs, other, n, s, t, side);
    }
  }

  /** Pushing f along arc i. */
  ghost function Push(flow: seq<int>, i: nat, f: int): seq<int>
    requires i < |flow| && Twin(i) < |flow|
  {
    flow[i := flow[i] + f][Twin(i) := flow[Twin(i)] - f]
  }

  lemma {:induction false} NetOutUpdate(arcs: seq<Arc>, flow: seq<int>, i: nat, x: int, v: nat, m: nat)
    requires m <= |arcs| == |flow| && i < |flow|
    ensures NetOut(arcs, flow[i := x], v, m)
         == NetOut(arcs, flow, v, m) + if i < m && arcs[i].from == v then x - flow[i] else 0
  {
    if m > 0 { NetOutUpdate(arcs, flow, i, x, v, m - 1); }
  }

  /** A push moves f units of excess from one end of the arc to the other, and keeps the flow legal. */
  lemma PushExcess(arcs: seq<Arc>, flow: seq<int>, n: nat, i: nat, f: int, v: nat)
    requires IsNetwork(arcs, n) && |flow| == |arcs| && i < |arcs|
    ensures Twin(i) < |arcs|
    ensures Excess(arcs, Push(flow, i, f), v)
         == Excess(arcs, flow, v) + (if arcs[i].from == v then f else 0) - (if arcs[i].to == v then f else 0)
  {
    var first := flow[i := flow[i] + f];
    NetOutUpdate(arcs, flow, i, flow[i] + f, v, |arcs|);
    NetOutUpdate(arcs, first, Twin(i), flow[Twin(i)] - f, v, |arcs|);
  }

  lemma PushIsFlow(arcs: seq<Arc>, flow: seq<int>, n: nat, i: nat, f: int)
    requires IsNetwork(arcs, n) && IsFlow(arcs, flow) && i < |arcs| && 0 <= f <= arcs[i].cap - flow[i]
    ensures Twin(i) < |arcs| && IsFlow(arcs, Push(flow, i, f))
  {
    var after := Push(flow, i, f);
    forall j | 0 <= j < |arcs| ensures after[j] <= arcs[j].cap && after[Twin(j)] == -after[j] {
      assert flow[Twin(j)] == -flow[j] && flow[Twin(i)] == -flow[i];
    }
  }

  /** The empty flow, with which a network is built, is feasible and has value 0. */
  lemma {:induction false} ZeroFlow(arcs: seq<Arc>, flow: seq<int>, v: nat, m: nat)
    requires m <= |arcs| == |flow| && forall i :: 0 <= i < |flow| ==> flow[i] == 0
    ensures NetOut(arcs, flow, v, m) == 0
  {
    if m > 0 { ZeroFlow(arcs, flow, v, m - 1); }
  }

  /** The capacity of all arcs out of v: no flow can send more. */
  ghost function CapacityOut(arcs: seq<Arc>, v: nat, m: nat): int
    requires m <= |arcs|
  {
    if m == 0 then 0 else CapacityOut(arcs, v, m - 1) + if arcs[m - 1].from == v then arcs[m - 1].cap else 0
  }

  lemma {:induction false} NetOutAtMostCapacity(arcs: seq<Arc>, flow: seq<int>, v: nat, m: nat)
    requires IsFlow(arcs, flow) && m <= |arcs|
    ensures NetOut(arcs, flow, v, m) <= CapacityOut(arcs, v, m)
  {
    if m > 0 { NetOutAtMostCapacity(arcs, flow, v, m - 1); }
  }

  // ----- residual paths

  /** path is a list of arcs with spare capacity from x to y, climbing one level at each arc. */
  ghost predicate Climbs(arcs: seq<Arc>, flow: seq<int>, level: seq<int>, x: nat, y: nat, path: seq<nat>)
    requires |flow| == |arcs|
    decreases |path|
  {
    if path == [] then x == y
    else
      var i := path[0];
      && i < |arcs| && arcs[i].from == x && flow[i] < arcs[i].cap
      && x < |level| && arcs[i].to < |level| && level[x] + 1 == level[arcs[i].to]
      && Climbs(arcs, flow, level, arcs[i].to, y, path[1..])
  }

  lemma {:induction false} ClimbsExtend(arcs: seq<Arc>, flow: seq<int>, level: seq<int>, x: nat, y: nat, path: seq<nat>,
                                        i: nat)
    requires |flow| == |arcs| && Climbs(arcs, flow, level, x, y, path)
    requires i < |arcs| && arcs[i].from == y && flow[i] < arcs[i].cap
    requires y < |level| && arcs[i].to < |level| && level[y] + 1 == level[arcs[i].to]
    ensures Climbs(arcs, flow, level, x, arcs[i].to, path + [i])
    decreases |path|
  {
    if path == [] {
      assert Climbs(arcs, flow, level, arcs[i].to, arcs[i].to, []);
      assert (path + [i])[1..] == [];
    } else {
      ClimbsExtend(arcs, flow, level, arcs[path[0]].to, y, path[1..], i);
      assert (path + [i])[1..] == path[1..] + [i];
    }
  }

  /** A change of levels away from the path does not break it. */
  lemma {:induction false} ClimbsFrame(arcs: seq<Arc>, flow: seq<int>, level: seq<int>, other: seq<int>, x: nat, y: nat,
                                       path: seq<nat>)
    requires |flow| == |arcs| && |other| == |level| && Climbs(arcs, flow, level, x, y, path)
    requires x < |level| && other[x] == level[x]
    requires forall k :: 0 <= k < |path| ==>
               path[k] < |arcs| && arcs[path[k]].to < |level| && other[arcs[path[k]].to] == level[arcs[path[k]].to]
    ensures Climbs(arcs, flow, other, x, y, path)
    decreases |path|
  {
    if path != [] { ClimbsFrame(arcs, flow, level, other, arcs[path[0]].to, y, path[1..]); }
  }

  /** The arcs out of x among the first m: the last one, or -1. */
  ghost function LastArc(arcs: seq<Arc>, x: nat, m: nat): (i: int)
    requires m <= |arcs|
    ensures -1 <= i < m
    ensures i >= 0 ==> arcs[i].from == x
    ensures forall j :: i < j < m ==> arcs[j].from != x
  {
    if m == 0 then -1 else if arcs[m - 1].from == x then m - 1 else LastArc(arcs, x, m - 1)
  }

  lemma {:induction false} LastArcPrefix(arcs: seq<Arc>, more: seq<Arc>, x: nat, m: nat)
    requires m <= |arcs| && m <= |more| && arcs[..m] == more[..m]
    ensures LastArc(arcs, x, m) == LastArc(more, x, m)
  {
  }

  /** Adding a pair of opposite arcs, the second one without capacity, keeps a network a network. */
  lemma AddArcs(arcs: seq<Arc>, flow: seq<int>, n: nat, u: nat, v: nat, c: nat)
    requires IsNetwork(arcs, n) && IsFlow(arcs, flow) && u < n && v < n
    ensures var more := arcs + [Arc(u, v, c), Arc(v, u, 0)]; IsNetwork(more, n) && IsFlow(more, flow + [0, 0])
  {
  }

  /** The last arcs after one more arc. */
  lemma LastArcAdd(arcs: seq<Arc>, arc: Arc, x: nat, i: nat)
    requires i <= |arcs|
    ensures LastArc(arcs + [arc], x, i) == LastArc(arcs, x, i)
    ensures LastArc(arcs + [arc], x, |arcs| + 1) == if arc.from == x then |arcs| else LastArc(arcs, x, |arcs|)
  {
    var more := arcs + [arc];
    assert more[..i] == arcs[..i] && more[..|arcs|] == arcs[..|arcs|];
    LastArcPrefix(arcs, more, x, i);
    LastArcPrefix(arcs, more, x, |arcs|);
  }

  lemma LastArcsAdd(arcs: seq<Arc>, more: seq<Arc>, arc: Arc)
    requires more == arcs + [arc]
    ensures forall x, i {:trigger LastArc(more, x, i)} :: 0 <= i <= |arcs| ==>
              LastArc(more, x, i) == LastArc(arcs, x, i)
    ensures forall x {:trigger LastArc(more, x, |arcs| + 1)} ::
              LastArc(more, x, |arcs| + 1) == if arc.from == x then |arcs| else LastArc(arcs, x, |arcs|)
  {
    forall x: nat, i: nat | i <= |arcs|
      ensures LastArc(more, x, i) == LastArc(arcs, x, i)
    {
      LastArcAdd(arcs, arc, x, i);
    }
  }

  /** t can be reached from x by a climbing residual path. */
  ghost predicate Reaches(arcs: seq<Arc>, flow: seq<int>, level: seq<int>, x: nat, t: nat)
    requires |flow| == |arcs|
  {
    exists path :: Climbs(arcs, flow, level, x, t, path)
  }

  /** Arc i climbs, has spare capacity and t can be reached from its end. */
  ghost predicate Promising(arcs: seq<Arc>, flow: seq<int>, level: seq<int>, i: nat, t: nat)
    requires |flow| == |arcs| && i < |arcs|
  {
    && flow[i] < arcs[i].cap && arcs[i].from < |level| && arcs[i].to < |level|
    && level[arcs[i].from] + 1 == level[arcs[i].to]
    && Reaches(arcs, flow, level, arcs[i].to, t)
  }

  /** The first arc of a path from x is one of x's promising arcs. */
  lemma ReachesByArc(arcs: seq<Arc>, flow: seq<int>, level: seq<int>, x: nat, t: nat)
    requires |flow| == |arcs| && Reaches(arcs, flow, level, x, t) && x != t
    ensures exists i :: 0 <= i < |arcs| && arcs[i].from == x && Promising(arcs, flow, level, i, t)
  {
    var path :| Climbs(arcs, flow, level, x, t, path);
    assert Climbs(arcs, flow, level, arcs[path[0]].to, t, path[1..]);
    assert Promising(arcs, flow, level, path[0], t);
  }

  /** No arc out of x behind arc i is promising. */
  ghost predicate NonePast(arcs: seq<Arc>, flow: seq<int>, level: seq<int>, x: nat, t: nat, i: int)
    requires |flow| == |arcs|
  {
    forall j {:trigger Promising(arcs, flow, level, j, t)} ::
      0 <= j < |arcs| && i < j && arcs[j].from == x ==> !Promising(arcs, flow, level, j, t)
  }

  lemma NonePastNext(arcs: seq<Arc>, flow: seq<int>, level: seq<int>, x: nat, t: nat, i: nat)
    requires |flow| == |arcs| && i < |arcs| && arcs[i].from == x
    requires NonePast(arcs, flow, level, x, t, i) && !Promising(arcs, flow, level, i, t)
    ensures NonePast(arcs, flow, level, x, t, LastArc(arcs, x, i))
  {
  }

  lemma NonePromising(arcs: seq<Arc>, flow: seq<int>, level: seq<int>, x: nat, t: nat)
    requires |flow| == |arcs| && NonePast(arcs, flow, level, x, t, -1) && x != t
    ensures !Reaches(arcs, flow, level, x, t)
  {
    if Reaches(arcs, flow, level, x, t) { ReachesByArc(arcs, flow, level, x, t); }
  }

  /** after is before with f units more flowing from x to t, over vertices no lower than x. */
  ghost predicate Pushed(arcs: seq<Arc>, before: seq<int>, after: seq<int>, level: seq<int>, n: nat, x: nat, t: nat,
                         f: nat) {
    && |before| == |after| == |arcs| && |level| == n && x < n
    && (forall i {:trigger arcs[i]} :: 0 <= i < |arcs| ==> arcs[i].from < n && arcs[i].to < n)
    && (forall v {:trigger Excess(arcs, after, v)} :: 0 <= v < n ==>
          Excess(arcs, after, v) == Excess(arcs, before, v) + (if v == x then f else 0) - (if v == t then f else 0))
    && (f == 0 ==> after == before)
    && (forall i {:trigger after[i]} ::
          0 <= i < |arcs| && (level[arcs[i].from] < level[x] || level[arcs[i].to] < level[x]) ==>
          after[i] == before[i])
  }

  lemma PushedNothing(arcs: seq<Arc>, flow: seq<int>, level: seq<int>, n: nat, x: nat, t: nat, a: nat)
    requires IsNetwork(arcs, n) && |flow| == |arcs| && |level| == n && x < n
    ensures Pushed(arcs, flow, flow, level, n, x, t, 0)
    ensures Pushed(arcs, flow, flow, level, n, t, t, a) || t >= n
    ensures Reaches(arcs, flow, level, t, t)
  {
    assert Climbs(arcs, flow, level, t, t, []);
  }

  lemma PushedTwice(arcs: seq<Arc>, a: seq<int>, b: seq<int>, c: seq<int>, level: seq<int>, n: nat, x: nat, t: nat,
                    f: nat, g: nat)
    requires Pushed(arcs, a, b, level, n, x, t, f) && Pushed(arcs, b, c, level, n, x, t, g)
    ensures Pushed(arcs, a, c, level, n, x, t, f + g)
  {
  }

  /** A push from the end of arc i, continued along arc i itself. */
  lemma PushedThrough(arcs: seq<Arc>, before: seq<int>, mid: seq<int>, level: seq<int>, n: nat, i: nat, t: nat, f: nat)
    requires IsNetwork(arcs, n) && i < |arcs| && Pushed(arcs, before, mid, level, n, arcs[i].to, t, f)
    requires level[arcs[i].from] + 1 == level[arcs[i].to] && f > 0
    ensures Twin(i) < |arcs| && Pushed(arcs, before, Push(mid, i, f), level, n, arcs[i].from, t, f)
    ensures mid[i] == before[i]
  {
    var x, after := arcs[i].from, Push(mid, i, f);
    forall v | 0 <= v < n
      ensures Excess(arcs, after, v) == Excess(arcs, before, v) + (if v == x then f else 0) - (if v == t then f else 0)
    {
      PushExcess(arcs, mid, n, i, f, v);
    }
    assert arcs[Twin(i)].to == arcs[i].from && arcs[Twin(i)].from == arcs[i].to;
    forall j | 0 <= j < |arcs| && (level[arcs[j].from] < level[x] || level[arcs[j].to] < level[x])
      ensures after[j] == before[j]
    {
      assert mid[j] == before[j];
    }
  }

  // ----- breadth-first search

  /** path climbs from s to v, through visited vertices only. */
  ghost predicate Routed(arcs: seq<Arc>, flow: seq<int>, level: seq<int>, vis: seq<bool>, s: nat, v: nat,
                         path: seq<nat>)
    requires |flow| == |arcs|
  {
    && Climbs(arcs, flow, level, s, v, path)
    && forall k {:trigger path[k]} :: 0 <= k < |path| ==>
         path[k] < |arcs| && arcs[path[k]].to < |vis| && vis[arcs[path[k]].to]
  }

  /** q lists the visited vertices, each once. */
  ghost predicate QueueHolds(n: nat, vis: seq<bool>, q: seq<nat>) {
    && |vis| == n && Distinct(q) && |q| <= n
    && (forall k {:trigger q[k]} :: 0 <= k < |q| ==> q[k] < n && vis[q[k]])
    && (forall v {:trigger v in q} :: 0 <= v < n && vis[v] ==> v in q)
  }

  /** q lists the visited vertices in the order of their discovery; route says how each is reached. */
  ghost predicate Searching(arcs: seq<Arc>, flow: seq<int>, n: nat, s: nat,
                            level: seq<int>, vis: seq<bool>, q: seq<nat>, route: map<nat, seq<nat>>)
  {
    && IsNetwork(arcs, n) && |flow| == |arcs| && |level| == n && s < n
    && QueueHolds(n, vis, q) && vis[s]
    && (forall v {:trigger v in route} :: 0 <= v < n && vis[v] ==>
          v in route && Routed(arcs, flow, level, vis, s, v, route[v]))
  }

  lemma QueueAdd(n: nat, vis: seq<bool>, q: seq<nat>, w: nat)
    requires QueueHolds(n, vis, q) && w < n && !vis[w]
    ensures |q| < n && QueueHolds(n, vis[w := true], q + [w])
  {
    assert w !in q;
    AtMost(q + [w], n);
    forall v | 0 <= v < n && (v == w || vis[v]) ensures v in q + [w] {
      if v == w { assert (q + [w])[|q|] == w; } else { assert v in q; }
    }
  }

  /** Every arc out of x behind arc i that has spare capacity leads to a visited vertex. */
  ghost predicate ScannedPast(arcs: seq<Arc>, flow: seq<int>, vis: seq<bool>, x: nat, i: int)
    requires |flow| == |arcs|
  {
    forall j {:trigger arcs[j]} :: 0 <= j < |arcs| && i < j && arcs[j].from == x && flow[j] < arcs[j].cap ==>
      arcs[j].to < |vis| && vis[arcs[j].to]
  }

  lemma SearchStart(arcs: seq<Arc>, flow: seq<int>, n: nat, s: nat, level: seq<int>, vis: seq<bool>, q: seq<nat>)
    returns (route: map<nat, seq<nat>>)
    requires IsNetwork(arcs, n) && |flow| == |arcs| && |level| == |vis| == n && s < n && q == [s]
    requires forall v :: 0 <= v < n ==> vis[v] == (v == s)
    ensures Searching(arcs, flow, n, s, level, vis, q, route)
  {
    route := map[s := []];
    assert q[0] == s;
    assert Climbs(arcs, flow, level, s, s, []);
  }

  /** A route stays one when an unvisited vertex is given a level and marked. */
  lemma RoutedFrame(arcs: seq<Arc>, flow: seq<int>, level: seq<int>, vis: seq<bool>, s: nat, v: nat, path: seq<nat>,
                    w: nat, l: int)
    requires |flow| == |arcs| && |level| == |vis| && s < |vis| && vis[s] && w < |vis| && !vis[w]
    requires Routed(arcs, flow, level, vis, s, v, path)
    ensures Routed(arcs, flow, level[w := l], vis[w := true], s, v, path)
  {
    ClimbsFrame(arcs, flow, level, level[w := l], s, v, path);
  }

  /** Discovering the end of arc i, with the next level. */
  lemma Discover(arcs: seq<Arc>, flow: seq<int>, n: nat, s: nat, level: seq<int>, vis: seq<bool>, q: seq<nat>,
                 route: map<nat, seq<nat>>, i: nat) returns (route': map<nat, seq<nat>>)
    requires Searching(arcs, flow, n, s, level, vis, q, route)
    requires i < |arcs| && vis[arcs[i].from] && !vis[arcs[i].to] && flow[i] < arcs[i].cap
    ensures var w := arcs[i].to;
            && |q| < n
            && Searching(arcs, flow, n, s, level[w := level[arcs[i].from] + 1], vis[w := true], q + [w], route')
  {
    var x, w := arcs[i].from, arcs[i].to;
    var l := level[x] + 1;
    assert x in route;
    route' := route[w := route[x] + [i]];
    QueueAdd(n, vis, q, w);
    RoutedFrame(arcs, flow, level, vis, s, x, route[x], w, l);
    ClimbsExtend(arcs, flow, level[w := l], s, x, route[x], i);
    forall v | 0 <= v < n && v != w && vis[v]
      ensures v in route && Routed(arcs, flow, level[w := l], vis[w := true], s, v, route[v])
    {
      assert v in route;
      RoutedFrame(arcs, flow, level, vis, s, v, route[v], w, l);
    }
  }

  ghost predicate Sees(before: seq<bool>, after: seq<bool>) {
    |before| == |after| && forall v {:trigger after[v]} :: 0 <= v < |after| && before[v] ==> after[v]
  }

  lemma ScannedNext(arcs: seq<Arc>, flow: seq<int>, before: seq<bool>, after: seq<bool>, x: nat, i: nat)
    requires |flow| == |arcs| && Sees(before, after) && ScannedPast(arcs, flow, before, x, i)
    requires i < |arcs| && (flow[i] < arcs[i].cap ==> arcs[i].to < |after| && after[arcs[i].to])
    ensures ScannedPast(arcs, flow, after, x, LastArc(arcs, x, i))
  {
  }

  lemma SeesMore(a: seq<bool>, b: seq<bool>, c: seq<bool>)
    requires Sees(a, b) && Sees(b, c)
    ensures Sees(a, c)
  {
  }

  /** What was scanned stays scanned when more vertices become visited. */
  lemma ScannedMore(arcs: seq<Arc>, flow: seq<int>, before: seq<bool>, after: seq<bool>, q: seq<nat>, qf: nat)
    requires |flow| == |arcs| && Sees(before, after) && qf <= |q|
    requires forall k {:trigger q[k]} :: 0 <= k < qf ==> ScannedPast(arcs, flow, before, q[k], -1)
    ensures forall k {:trigger q[k]} :: 0 <= k < qf ==> ScannedPast(arcs, flow, after, q[k], -1)
  {
  }

  /** No residual arc leaves the visited vertices. */
  ghost predicate Closed(arcs: seq<Arc>, flow: seq<int>, vis: seq<bool>)
    requires |flow| == |arcs|
  {
    forall i {:trigger arcs[i]} ::
      0 <= i < |arcs| && arcs[i].from < |vis| && vis[arcs[i].from] && flow[i] < arcs[i].cap ==>
      arcs[i].to < |vis| && vis[arcs[i].to]
  }

  lemma SearchDone(arcs: seq<Arc>, flow: seq<int>, n: nat, s: nat, level: seq<int>, vis: seq<bool>, q: seq<nat>,
                   route: map<nat, seq<nat>>)
    requires Searching(arcs, flow, n, s, level, vis, q, route)
    requires forall k {:trigger q[k]} :: 0 <= k < |q| ==> ScannedPast(arcs, flow, vis, q[k], -1)
    ensures Closed(arcs, flow, vis)
    ensures forall v {:trigger vis[v]} :: 0 <= v < n && vis[v] ==> Reaches(arcs, flow, level, s, v)
  {
    forall i | 0 <= i < |arcs| && vis[arcs[i].from] && flow[i] < arcs[i].cap ensures vis[arcs[i].to] {
      assert arcs[i].from in q;
      var k :| 0 <= k < |q| && q[k] == arcs[i].from;
      assert ScannedPast(arcs, flow, vis, q[k], -1);
    }
    forall v | 0 <= v < n && vis[v] ensures Reaches(arcs, flow, level, s, v) {
      assert v in route;
      assert Climbs(arcs, flow, level, s, v, route[v]);
    }
  }

  ghost function MaxOf(level: seq<int>): (top: int)
    ensures forall v :: 0 <= v < |level| ==> level[v] <= top
  {
    if level == [] then 0
    else
      var rest := MaxOf(level[..|level| - 1]);
      if level[|level| - 1] > rest then level[|level| - 1] else rest
  }

  /** A push from s to t leaves a feasible flow feasible. */
  lemma PushedFeasible(arcs: seq<Arc>, before: seq<int>, after: seq<int>, level: seq<int>, n: nat, s: nat, t: nat,
                       f: nat)
    requires Feasible(arcs, before, n, s, t) && IsFlow(arcs, after) && Pushed(arcs, before, after, level, n, s, t, f)
    requires s != t
    ensures Feasible(arcs, after, n, s, t) && Excess(arcs, after, s) == Excess(arcs, before, s) + f
  {
  }
}
