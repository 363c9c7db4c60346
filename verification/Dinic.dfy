/** Dinic's maximum flow of dinic.cc, on the arrays it updates in place. */
module Dinic {
  import opened FlowNetwork

  datatype Edge = Edge(from: nat, to: nat, cap: int, flow: int)

  const INF := 0x3f3f3f

  function Min(x: int, y: int): int { if x < y then x else y }

  class Network {
    var n: nat
    var m: nat
    var s: nat
    var t: nat
    var edges: array<Edge>
    var head: array<int>
    var nxt: array<int>
    var d: array<int>
    var cur: array<int>
    var queue: array<nat>
    var vis: array<bool>

    /** The unchanging part of the edges. */
    ghost var arcs: seq<Arc>

    /** The flow on the edges. */
    ghost function Flow(): (flow: seq<int>)
      reads this, edges
      requires m <= edges.Length
      ensures |flow| == m
    {
      seq(m, i requires 0 <= i < m && m <= edges.Length reads this, edges => edges[i].flow)
    }

    ghost predicate Shape()
      reads this
    {
      && m == |arcs| <= edges.Length && m <= nxt.Length
      && head.Length == n && d.Length == n && cur.Length == n && queue.Length == n && vis.Length == n
      && head != nxt && head != d && head != cur && nxt != d && nxt != cur && d != cur
      && s < n && t < n
    }

    /** edges holds the arcs; head and nxt chain the edges out of every vertex, the last one first. */
    ghost predicate Chained()
      reads this, edges, head, nxt
      requires Shape()
    {
      && (forall i {:trigger edges[i]} :: 0 <= i < m ==> Arc(edges[i].from, edges[i].to, edges[i].cap) == arcs[i])
      && (forall x {:trigger head[x]} :: 0 <= x < n ==> head[x] == LastArc(arcs, x, m))
      && (forall i {:trigger nxt[i]} :: 0 <= i < m ==> nxt[i] == LastArc(arcs, arcs[i].from, i))
    }

    ghost predicate Valid()
      reads this, edges, head, nxt
    {
      Shape() && IsNetwork(arcs, n) && Chained() && IsFlow(arcs, Flow())
    }

    ghost function Side(): set<nat>
      reads this, vis
      requires vis.Length == n
    {
      set v: nat | v < n && vis[v]
    }

    /** e.flow += f; edges[i ^ 1].flow -= f. */
    method PushEdge(i: nat, f: nat)
      requires Valid() && i < m && f <= edges[i].cap - edges[i].flow
      modifies edges
      ensures Valid() && Twin(i) < m && Flow() == Push(old(Flow()), i, f)
    {
      ghost var before := Flow();
      PushIsFlow(arcs, before, n, i, f);
      edges[i] := edges[i].(flow := edges[i].flow + f);
      var twin := Twin(i);
      edges[twin] := edges[twin].(flow := edges[twin].flow - f);
      assert Flow() == Push(before, i, f);
    }

    /** The body of the loop of DFS: pushes through arc i if it climbs. */
    method PushVia(i: nat, rest: nat, ghost top: int) returns (f: nat)
      requires Valid() && i < m && rest > 0 && s != t
      requires forall v :: 0 <= v < n ==> d[v] <= top && cur[v] == head[v]
      modifies edges
      ensures Valid() && f <= rest
      ensures Pushed(arcs, old(Flow()), Flow(), d[..], n, arcs[i].from, t, f)
      ensures Promising(arcs, old(Flow()), d[..], i, t) ==> f > 0
      decreases top - d[arcs[i].from], 0
    {
      ghost var before, level := Flow(), d[..];
      var x, to := edges[i].from, edges[i].to;
      assert Arc(x, to, edges[i].cap) == arcs[i] && edges[i].flow == before[i];
      f := 0;
      if d[x] + 1 == d[to] {
        f := DFS(to, Min(rest, edges[i].cap - edges[i].flow), top);
        if f > 0 {
          PushedThrough(arcs, before, Flow(), level, n, i, t, f);
          PushEdge(i, f);
        }
      }
    }

    /** The loop of DFS at x before arc i: what was pushed, and nothing only if no later arc is promising. */
    ghost predicate Tried(start: seq<int>, x: nat, i: int, flow: nat)
      reads this, edges, head, nxt, d
      requires Valid()
    {
      Pushed(arcs, start, Flow(), d[..], n, x, t, flow) && (flow == 0 ==> NonePast(arcs, start, d[..], x, t, i))
    }

    /** One round of the loop of DFS, in the account of the whole loop. */
    method TryArc(i: nat, flow: nat, rest: nat, ghost top: int, ghost start: seq<int>) returns (more: nat, left: nat)
      requires Valid() && i < m && rest > 0 && s != t
      requires forall v :: 0 <= v < n ==> d[v] <= top && cur[v] == head[v]
      requires Tried(start, arcs[i].from, i, flow)
      modifies edges
      ensures Valid() && more + left == flow + rest
      ensures Tried(start, arcs[i].from, LastArc(arcs, arcs[i].from, i), more)
      decreases top - d[arcs[i].from], 1
    {
      ghost var before, level, x := Flow(), d[..], arcs[i].from;
      var f := PushVia(i, rest, top);
      more, left := flow + f, rest - f;
      PushedTwice(arcs, start, before, Flow(), level, n, x, t, flow, f);
      if more == 0 { NonePastNext(arcs, start, level, x, t, i); }
    }

    /** The arc tried after arc i. */
    function NextArc(i: nat): (j: int)
      reads this, edges, head, nxt
      requires Valid() && i < m
      ensures j == LastArc(arcs, arcs[i].from, i)
    {
      nxt[i]
    }

    /** One round and the step to the next arc of x. */
    method TryAndStep(x: nat, i: nat, flow: nat, rest: nat, ghost top: int, ghost start: seq<int>)
      returns (more: nat, left: nat, j: int)
      requires Valid() && i < m && arcs[i].from == x && rest > 0 && s != t
      requires forall v :: 0 <= v < n ==> d[v] <= top && cur[v] == head[v]
      requires Tried(start, x, i, flow)
      modifies edges
      ensures Valid() && more + left == flow + rest
      ensures -1 <= j < i && (j >= 0 ==> arcs[j].from == x) && Tried(start, x, j, more)
      decreases top - d[x], 2
    {
      more, left := TryArc(i, flow, rest, top, start);
      j := NextArc(i);
    }

    /** The loop of DFS over the arcs out of x. */
    method Scan(x: nat, a: nat, ghost top: int) returns (flow: nat)
      requires Valid() && x < n && s != t && x != t && a > 0
      requires forall v :: 0 <= v < n ==> d[v] <= top && cur[v] == head[v]
      modifies edges
      ensures Valid() && flow <= a
      ensures Pushed(arcs, old(Flow()), Flow(), d[..], n, x, t, flow)
      ensures Reaches(arcs, old(Flow()), d[..], x, t) ==> flow > 0
      decreases top - d[x], 3
    {
      flow := 0;
      var rest := a;
      var i := cur[x];
      assert i == LastArc(arcs, x, m);
      ghost var start, level := Flow(), d[..];
      PushedNothing(arcs, start, level, n, x, t, a);
      while i != -1
        invariant -1 <= i < m && (i >= 0 ==> arcs[i].from == x)
        invariant Valid()
        invariant rest == a - flow > 0
        invariant Tried(start, x, i, flow)
        decreases i
      {
        flow, rest, i := TryAndStep(x, i, flow, rest, top, start);
        if rest == 0 {
          break;
        }
      }
      if flow == 0 { NonePromising(arcs, start, level, x, t); }
    }

    /** Pushes at most a units from x to t along climbing residual paths; returns what was pushed. */
    method DFS(x: nat, a: nat, ghost top: int) returns (flow: nat)
      requires Valid() && x < n && s != t
      requires forall v :: 0 <= v < n ==> d[v] <= top && cur[v] == head[v]
      modifies edges
      ensures Valid() && flow <= a
      ensures Pushed(arcs, old(Flow()), Flow(), d[..], n, x, t, flow)
      ensures a > 0 && Reaches(arcs, old(Flow()), d[..], x, t) ==> flow > 0
      decreases top - d[x], 4
    {
      if x == t || a == 0 {
        PushedNothing(arcs, Flow(), d[..], n, x, t, a);
        return a;
      }
      flow := Scan(x, a, top);
    }

    /** A network of n vertices without arcs, with room for as many as the benchmark of that size adds. */
    constructor (n: nat)
      requires n >= 2
      ensures Valid() && this.n == n && m == 0 && arcs == []
      ensures edges.Length == nxt.Length && edges.Length == ((n - 2) / 2 * ((n - 2) / 2) + (n - 2) / 2 * 2) * 2
      ensures fresh(edges) && fresh(head) && fresh(nxt) && fresh(d) && fresh(cur) && fresh(queue) && fresh(vis)
    {
      var nold := (n - 2) / 2;
      var maxm := (nold * nold + nold * 2) * 2;
      edges := new Edge[maxm](_ => Edge(0, 0, 0, 0));
      nxt := new int[maxm](_ => 0);
      vis := new bool[n](_ => false);
      d := new int[n](_ => 0);
      cur := new int[n](_ => 0);
      queue := new nat[n](_ => 0);
      head := new int[n](_ => 0);
      this.n, m, s, t := n, 0, 0, 0;
      arcs := [];
      new;
      ClearHeads();
    }

    method ClearHeads()
      requires head.Length == n
      modifies head
      ensures forall x {:trigger head[x]} :: 0 <= x < n ==> head[x] == -1
    {
      var i := 0;
      while i < n
        invariant i <= n && forall x :: 0 <= x < i ==> head[x] == -1
      {
        head[i] := -1;
        i := i + 1;
      }
    }

    /** Stores one more edge at the front of the chain of u. */
    method Link(u: nat, v: nat, c: nat)
      requires Shape() && Chained() && u < n && m < edges.Length && m < nxt.Length
      modifies this`m, this`arcs, edges, head, nxt
      ensures Shape() && Chained()
      ensures m == old(m) + 1 && arcs == old(arcs) + [Arc(u, v, c)] && Flow() == old(Flow()) + [0]
    {
      ghost var flow, more := Flow(), arcs + [Arc(u, v, c)];
      LastArcsAdd(arcs, more, Arc(u, v, c));
      edges[m] := Edge(u, v, c, 0);
      nxt[m] := head[u];
      head[u] := m;
      m := m + 1;
      arcs := more;
      assert Flow() == flow + [0];
    }

    /** Adds an arc of capacity c and its opposite of capacity 0; nothing when c is 0. */
    method AddEdge(u: nat, v: nat, c: nat)
      requires Valid() && u < n && v < n && m + 2 <= edges.Length && m + 2 <= nxt.Length
      modifies this`m, this`arcs, edges, head, nxt
      ensures Valid()
      ensures c == 0 ==> m == old(m) && arcs == old(arcs) && Flow() == old(Flow())
      ensures c != 0 ==>
                m == old(m) + 2 && arcs == old(arcs) + [Arc(u, v, c), Arc(v, u, 0)] && Flow() == old(Flow()) + [0, 0]
    {
      if c == 0 {
        return;
      }
      AddArcs(arcs, Flow(), n, u, v, c);
      Link(u, v, c);
      Link(v, u, 0);
      assert arcs == old(arcs) + [Arc(u, v, c), Arc(v, u, 0)] && Flow() == old(Flow()) + [0, 0];
    }

    ghost predicate Searches(q: seq<nat>, route: map<nat, seq<nat>>)
      reads this, edges, head, nxt, d, queue, vis
      requires Valid()
    {
      |q| <= n && q == queue[..|q|] && Searching(arcs, Flow(), n, s, d[..], vis[..], q, route)
    }

    /** Marks the end of arc i as visited. */
    method Visit(x: nat, i: nat, qr: nat, ghost q: seq<nat>, ghost route: map<nat, seq<nat>>)
      returns (ghost q': seq<nat>, ghost route': map<nat, seq<nat>>)
      requires Valid() && |q| == qr && Searches(q, route)
      requires i < m && arcs[i].from == x && vis[x] && !vis[arcs[i].to] && edges[i].flow < edges[i].cap
      modifies vis, d, queue
      ensures Valid() && q' == q + [arcs[i].to] && Searches(q', route')
      ensures vis[..] == old(vis[..])[arcs[i].to := true]
    {
      ghost var level, seen := d[..], vis[..];
      assert Arc(edges[i].from, edges[i].to, edges[i].cap) == arcs[i];
      route' := Discover(arcs, Flow(), n, s, level, seen, q, route, i);
      q' := q + [arcs[i].to];
      var w := edges[i].to;
      vis[w] := true;
      d[w] := d[x] + 1;
      queue[qr] := w;
      assert d[..] == level[w := level[x] + 1] && vis[..] == seen[w := true];
    }

    /** One round of the inner loop of BFS. */
    method VisitArc(x: nat, i: nat, qr0: nat, ghost q0: seq<nat>, ghost route0: map<nat, seq<nat>>)
      returns (qr: nat, ghost q: seq<nat>, ghost route: map<nat, seq<nat>>)
      requires Valid() && |q0| == qr0 && Searches(q0, route0)
      requires i < m && arcs[i].from == x && vis[x] && ScannedPast(arcs, Flow(), vis[..], x, i)
      modifies vis, d, queue
      ensures Valid() && |q| == qr >= qr0 && q[..qr0] == q0 && Searches(q, route)
      ensures Sees(old(vis[..]), vis[..]) && ScannedPast(arcs, Flow(), vis[..], x, LastArc(arcs, x, i))
    {
      qr, q, route := qr0, q0, route0;
      assert Arc(edges[i].from, edges[i].to, edges[i].cap) == arcs[i] && edges[i].flow == Flow()[i];
      ghost var before := vis[..];
      if !vis[edges[i].to] && edges[i].cap > edges[i].flow {
        q, route := Visit(x, i, qr, q, route);
        qr := qr + 1;
      }
      ScannedNext(arcs, Flow(), before, vis[..], x, i);
    }

    /** The inner loop of BFS: visits the vertices behind the residual arcs out of x. */
    method VisitNeighbours(x: nat, qr0: nat, ghost q0: seq<nat>, ghost route0: map<nat, seq<nat>>)
      returns (qr: nat, ghost q: seq<nat>, ghost route: map<nat, seq<nat>>)
      requires Valid() && |q0| == qr0 && Searches(q0, route0) && x < n && vis[x]
      modifies vis, d, queue
      ensures Valid() && |q| == qr >= qr0 && q[..qr0] == q0 && Searches(q, route)
      ensures Sees(old(vis[..]), vis[..]) && ScannedPast(arcs, Flow(), vis[..], x, -1)
    {
      qr, q, route := qr0, q0, route0;
      var i := head[x];
      assert i == LastArc(arcs, x, m);
      ghost var first := vis[..];
      while i != -1
        invariant -1 <= i < m && (i >= 0 ==> arcs[i].from == x)
        invariant Valid() && |q| == qr >= qr0 && q[..qr0] == q0 && Searches(q, route)
        invariant Sees(first, vis[..]) && vis[x] && ScannedPast(arcs, Flow(), vis[..], x, i)
        decreases i
      {
        ghost var before := vis[..];
        qr, q, route := VisitArc(x, i, qr, q, route);
        SeesMore(first, before, vis[..]);
        i := NextArc(i);
      }
    }

    method ClearMarks()
      requires vis.Length == n
      modifies vis
      ensures forall v :: 0 <= v < n ==> !vis[v]
    {
      var i := 0;
      while i < n
        invariant i <= n && forall v :: 0 <= v < i ==> !vis[v]
      {
        vis[i] := false;
        i := i + 1;
      }
    }

    /** The start of a search: only s is visited and queued. */
    method StartSearch() returns (ghost route: map<nat, seq<nat>>)
      requires Valid()
      modifies vis, d, queue
      ensures Valid() && Searches([s], route)
    {
      ClearMarks();
      queue[0] := s;
      d[s] := 0;
      vis[s] := true;
      ghost var level, seen := d[..], vis[..];
      route := SearchStart(arcs, Flow(), n, s, level, seen, [s]);
    }

    /** Every vertex among the first qf of the queue is scanned. */
    ghost predicate Scanned(q: seq<nat>, qf: nat)
      reads this, edges, vis
      requires Valid()
      reads head, nxt
    {
      qf <= |q| && forall k {:trigger q[k]} :: 0 <= k < qf ==> ScannedPast(arcs, Flow(), vis[..], q[k], -1)
    }

    /** One round of the outer loop of BFS. */
    method VisitNext(qf: nat, qr0: nat, ghost q0: seq<nat>, ghost route0: map<nat, seq<nat>>)
      returns (qr: nat, ghost q: seq<nat>, ghost route: map<nat, seq<nat>>)
      requires Valid() && |q0| == qr0 && Searches(q0, route0) && Scanned(q0, qf) && qf < qr0
      modifies vis, d, queue
      ensures Valid() && |q| == qr >= qr0 && Searches(q, route) && Scanned(q, qf + 1)
    {
      var x := queue[qf];
      assert x == q0[qf];
      ghost var before := vis[..];
      qr, q, route := VisitNeighbours(x, qr0, q0, route0);
      ScannedMore(arcs, Flow(), before, vis[..], q0, qf);
      assert forall k {:trigger q[k]} :: 0 <= k <= qf ==> q[k] == q0[k];
    }

    /** Marks what s can reach through residual arcs, with levels along which t can be climbed to. */
    method BFS() returns (found: bool)
      requires Valid()
      modifies vis, d, queue
      ensures Valid() && Flow() == old(Flow()) && found == vis[t] && vis[s]
      ensures Closed(arcs, Flow(), vis[..])
      ensures found ==> Reaches(arcs, Flow(), d[..], s, t)
    {
      ghost var q, flow := [s], Flow();
      ghost var route := StartSearch();
      var qf, qr := 0, 1;
      while qf != qr
        invariant qf <= qr == |q|
        invariant Valid() && Flow() == flow && Searches(q, route) && Scanned(q, qf)
        decreases n - qf
      {
        qr, q, route := VisitNext(qf, qr, q, route);
        qf := qf + 1;
      }
      SearchDone(arcs, Flow(), n, s, d[..], vis[..], q, route);
      found := vis[t];
    }

    /** No residual arc leaves the visited side, which holds s and not t: the flow is maximum. */
    lemma SideIsMinimumCut()
      requires Valid() && Feasible(arcs, Flow(), n, s, t) && vis[s] && !vis[t] && Closed(arcs, Flow(), vis[..])
      ensures s in Side() && t !in Side()
      ensures Excess(arcs, Flow(), s) == CutCapacity(arcs, Side(), m)
      ensures forall other :: Feasible(arcs, other, n, s, t) ==> Excess(arcs, other, s) <= Excess(arcs, Flow(), s)
    {
      SaturatedCutIsMaximum(arcs, Flow(), n, s, t, Side());
    }

    /** Finds a maximum flow: the result is what was added to the flow out of s. */
    method Maxflow(s: nat, t: nat) returns (flow: int)
      requires Valid() && s < n && t < n && s != t
      requires Feasible(arcs, Flow(), n, s, t)
      modifies this`s, this`t, edges, d, cur, queue, vis
      ensures Valid() && arcs == old(arcs) && Feasible(arcs, Flow(), n, s, t)
      ensures flow == Excess(arcs, Flow(), s) - Excess(arcs, old(Flow()), s)
      ensures s in Side() && t !in Side() && Excess(arcs, Flow(), s) == CutCapacity(arcs, Side(), m)
      ensures forall other :: Feasible(arcs, other, n, s, t) ==> Excess(arcs, other, s) <= Excess(arcs, Flow(), s)
    {
      ghost var start := Flow();
      this.s, this.t := s, t;
      assert Flow() == start;
      flow := Phases();
    }

    /** The loop of Maxflow: one phase after every search that reaches t. */
    method Phases() returns (flow: int)
      requires Valid() && s != t && Feasible(arcs, Flow(), n, s, t)
      modifies edges, d, cur, queue, vis
      ensures Valid() && Feasible(arcs, Flow(), n, s, t)
      ensures flow == Excess(arcs, Flow(), s) - Excess(arcs, old(Flow()), s)
      ensures s in Side() && t !in Side() && Excess(arcs, Flow(), s) == CutCapacity(arcs, Side(), m)
      ensures forall other :: Feasible(arcs, other, n, s, t) ==> Excess(arcs, other, s) <= Excess(arcs, Flow(), s)
    {
      flow := 0;
      ghost var start := Flow();
      var found := BFS();
      while found
        invariant Valid() && found == vis[t] && vis[s]
        invariant Feasible(arcs, Flow(), n, s, t) && flow == Excess(arcs, Flow(), s) - Excess(arcs, start, s)
        invariant Closed(arcs, Flow(), vis[..])
        invariant found ==> Reaches(arcs, Flow(), d[..], s, t)
        decreases CapacityOut(arcs, s, m) - Excess(arcs, Flow(), s)
      {
        var pushed := Augment();
        ghost var now := Flow();
        NetOutAtMostCapacity(arcs, now, s, m);
        flow := flow + pushed;
        found := BFS();
      }
      SideIsMinimumCut();
    }

    method ResetCursors()
      requires Shape()
      modifies cur
      ensures forall v :: 0 <= v < n ==> cur[v] == head[v]
    {
      var i := 0;
      while i < n
        invariant i <= n && forall v :: 0 <= v < i ==> cur[v] == head[v]
      {
        cur[i] := head[i];
        i := i + 1;
      }
    }

    /** One phase: resets the arc cursors and pushes from s. */
    method Augment() returns (pushed: nat)
      requires Valid() && s != t && Feasible(arcs, Flow(), n, s, t) && Reaches(arcs, Flow(), d[..], s, t)
      modifies edges, cur
      ensures Valid() && Feasible(arcs, Flow(), n, s, t) && 0 < pushed <= INF
      ensures Excess(arcs, Flow(), s) == Excess(arcs, old(Flow()), s) + pushed
    {
      ResetCursors();
      ghost var before := Flow();
      pushed := DFS(s, INF, MaxOf(d[..]));
      PushedFeasible(arcs, before, Flow(), d[..], n, s, t, pushed);
    }
  }
}
