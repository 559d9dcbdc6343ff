/** DijkstraSP: single-source shortest paths over a non-negatively weighted
    digraph. The indexed heap of the source is replaced by an abstract
    priority queue (a duplicate-free list of vertices keyed by their current
    distance); the heaps themselves are modelled separately. */
module Dijkstra {
  import opened Options
  import opened Digraph
  import opened Paths

  /** The oracle built for one source: distFromSource[] and edgeFromSPT[]. */
  datatype SP = SP(source: int, dist: seq<Dist>, edgeTo: seq<Option<Edge>>)

  /** The abstract queue's delMin: the position in the queue of a vertex of
      least distance. */
  method DelMin(pq: seq<int>, dist: seq<Dist>) returns (k: int)
    requires |pq| > 0
    requires forall i :: 0 <= i < |pq| ==> 0 <= pq[i] < |dist| && dist[pq[i]].Fin?
    ensures 0 <= k < |pq|
    ensures forall i :: 0 <= i < |pq| ==> dist[pq[k]].n <= dist[pq[i]].n
  {
    k := 0;
    var i := 1;
    while i < |pq|
      invariant 0 <= k < i <= |pq|
      invariant forall j :: 0 <= j < i ==> dist[pq[k]].n <= dist[pq[j]].n
    {
      if dist[pq[i]].n < dist[pq[k]].n {
        k := i;
      }
      i := i + 1;
    }
  }

  /** Removing one entry from a duplicate-free list removes exactly that value. */
  lemma RemoveAt(pq: seq<int>, k: int)
    requires 0 <= k < |pq|
    requires forall i, j :: 0 <= i < j < |pq| ==> pq[i] != pq[j]
    ensures var r := pq[..k] + pq[k + 1..];
      && (forall x :: x in r <==> x in pq && x != pq[k])
      && (forall i, j :: 0 <= i < j < |r| ==> r[i] != r[j])
  {
    var r := pq[..k] + pq[k + 1..];
    forall x | x in pq && x != pq[k]
      ensures x in r
    {
      var i :| 0 <= i < |pq| && pq[i] == x;
      if i < k { assert r[i] == x; } else { assert r[i - 1] == x; }
    }
  }

  /** The shortest-path tree: every reached vertex other than the source
      hangs on an edge from a vertex settled strictly earlier (smaller rank),
      and its distance is that vertex's distance plus the edge weight. */
  ghost predicate Tree(g: Graph, sp: SP, rank: seq<nat>)
  {
    && 0 <= sp.source < g.V
    && |sp.dist| == g.V && |sp.edgeTo| == g.V && |rank| == g.V
    && sp.dist[sp.source] == Fin(0)
    && sp.edgeTo[sp.source].None?
    && forall v :: 0 <= v < g.V ==> TreeEdge(g, sp, rank, v)
  }

  ghost predicate TreeEdge(g: Graph, sp: SP, rank: seq<nat>, v: int)
    requires |sp.dist| == g.V && |sp.edgeTo| == g.V && |rank| == g.V && 0 <= v < g.V
  {
    match sp.edgeTo[v]
    case None => v == sp.source || sp.dist[v].Inf?
    case Some(e) =>
      && IsEdge(g, e) && e.to == v && 0 <= e.from < g.V
      && sp.dist[v].Fin? && sp.dist[e.from].Fin?
      && sp.dist[v].n == sp.dist[e.from].n + e.weight
      && rank[e.from] < rank[v]
  }

  // ---------------------------------------------------------------------
  // The loop invariant, in parts. `settled` are the vertices already taken
  // out of the queue, `paths` witnesses each finite distance, `rank` is the
  // order of settlement and `clock` the number of vertices settled so far.

  ghost predicate Sized(g: Graph, dist: seq<Dist>, edgeTo: seq<Option<Edge>>,
                        paths: seq<seq<Edge>>, rank: seq<nat>)
  {
    ForDijkstra(g) && |dist| == g.V && |edgeTo| == g.V && |paths| == g.V && |rank| == g.V
  }

  /** Queued vertices are reached and unsettled; unreached ones are neither. */
  ghost predicate Queued(g: Graph, dist: seq<Dist>, pq: seq<int>, settled: set<int>)
    requires |dist| == g.V
  {
    && (forall i :: 0 <= i < |pq| ==> 0 <= pq[i] < g.V && dist[pq[i]].Fin? && pq[i] !in settled)
    && (forall i, j :: 0 <= i < j < |pq| ==> pq[i] != pq[j])
    && (forall x :: 0 <= x < g.V && x !in pq && x !in settled ==> dist[x].Inf?)
  }

  ghost predicate SettledOk(g: Graph, dist: seq<Dist>, settled: set<int>, rank: seq<nat>, clock: nat)
    requires |dist| == g.V && |rank| == g.V
  {
    forall x :: x in settled ==> 0 <= x < g.V && dist[x].Fin? && rank[x] < clock
  }

  /** Settled vertices are no farther than any unsettled one. */
  ghost predicate Ordered(g: Graph, dist: seq<Dist>, settled: set<int>)
    requires |dist| == g.V
  {
    forall u, x :: u in settled && 0 <= u < g.V && 0 <= x < g.V && x !in settled ==>
      Le(dist[u], dist[x])
  }

  ghost predicate Witnessed(g: Graph, s: int, dist: seq<Dist>, paths: seq<seq<Edge>>)
    requires |dist| == g.V && |paths| == g.V
  {
    forall x :: 0 <= x < g.V && dist[x].Fin? ==>
      IsPath(g, s, x, paths[x]) && Weight(paths[x]) == dist[x].n
  }

  ghost predicate Hangs(g: Graph, s: int, dist: seq<Dist>, edgeTo: seq<Option<Edge>>,
                        settled: set<int>, rank: seq<nat>, x: int)
    requires |dist| == g.V && |edgeTo| == g.V && |rank| == g.V && 0 <= x < g.V
  {
    match edgeTo[x]
    case None => x == s || dist[x].Inf?
    case Some(e) =>
      && IsEdge(g, e) && e.to == x && e.from in settled && 0 <= e.from < g.V
      && dist[x].Fin? && dist[e.from].Fin?
      && dist[x].n == dist[e.from].n + e.weight
      && (x in settled ==> rank[e.from] < rank[x])
  }

  ghost predicate AllHang(g: Graph, s: int, dist: seq<Dist>, edgeTo: seq<Option<Edge>>,
                          settled: set<int>, rank: seq<nat>)
    requires |dist| == g.V && |edgeTo| == g.V && |rank| == g.V
  {
    forall x :: 0 <= x < g.V ==> Hangs(g, s, dist, edgeTo, settled, rank, x)
  }

  /** The first `j` edges leaving `u` are relaxed. */
  ghost predicate RelaxedUpTo(g: Graph, dist: seq<Dist>, u: int, j: int)
    requires ForDijkstra(g) && |dist| == g.V && 0 <= u < g.V
  {
    && dist[u].Fin?
    && forall i :: 0 <= i < j && i < |g.adj[u]| ==>
         Le(dist[g.adj[u][i].to], Fin(dist[u].n + g.adj[u][i].weight))
  }

  ghost predicate Core(g: Graph, s: int, dist: seq<Dist>, edgeTo: seq<Option<Edge>>,
                       pq: seq<int>, settled: set<int>, paths: seq<seq<Edge>>, rank: seq<nat>, clock: nat)
  {
    && Sized(g, dist, edgeTo, paths, rank)
    && 0 <= s < g.V && dist[s] == Fin(0) && edgeTo[s].None?
    && Queued(g, dist, pq, settled)
    && SettledOk(g, dist, settled, rank, clock)
    && Ordered(g, dist, settled)
    && Witnessed(g, s, dist, paths)
    && AllHang(g, s, dist, edgeTo, settled, rank)
  }

  /** Facts that hold at the head of the main loop. */
  ghost predicate Inv(g: Graph, s: int, dist: seq<Dist>, edgeTo: seq<Option<Edge>>,
                      pq: seq<int>, settled: set<int>, paths: seq<seq<Edge>>, rank: seq<nat>, clock: nat)
  {
    && Core(g, s, dist, edgeTo, pq, settled, paths, rank, clock)
    && forall u :: u in settled && 0 <= u < g.V ==> RelaxedUpTo(g, dist, u, |g.adj[u]|)
  }

  /** Inv, except that only the first `j` edges of the just-settled `v` are
      known relaxed. */
  ghost predicate PartInv(g: Graph, s: int, dist: seq<Dist>, edgeTo: seq<Option<Edge>>,
                          pq: seq<int>, settled: set<int>, paths: seq<seq<Edge>>, rank: seq<nat>,
                          clock: nat, v: int, j: int)
  {
    && Core(g, s, dist, edgeTo, pq, settled, paths, rank, clock)
    && 0 <= v < g.V && v in settled && 0 <= j <= |g.adj[v]|
    && (forall u :: u in settled && 0 <= u < g.V && u != v ==> RelaxedUpTo(g, dist, u, |g.adj[u]|))
    && RelaxedUpTo(g, dist, v, j)
  }

  // ---------------------------------------------------------------------
  // One improving relaxation `dist[w] := m` with w unsettled.

  lemma RelaxQueued(g: Graph, dist: seq<Dist>, pq: seq<int>, settled: set<int>, w: int, m: nat)
    requires |dist| == g.V && Queued(g, dist, pq, settled)
    requires 0 <= w < g.V && w !in settled
    ensures Queued(g, dist[w := Fin(m)], if w in pq then pq else pq + [w], settled)
  {
    var pq' := if w in pq then pq else pq + [w];
    forall x | x in pq'
      ensures 0 <= x < g.V && dist[w := Fin(m)][x].Fin? && x !in settled
    {
      if x != w { assert x in pq; }
    }
  }

  lemma RelaxSettled(g: Graph, dist: seq<Dist>, settled: set<int>, rank: seq<nat>, clock: nat, w: int, m: nat)
    requires |dist| == g.V && |rank| == g.V && SettledOk(g, dist, settled, rank, clock)
    requires 0 <= w < g.V && w !in settled
    ensures SettledOk(g, dist[w := Fin(m)], settled, rank, clock)
  {
  }

  lemma RelaxOrdered(g: Graph, dist: seq<Dist>, settled: set<int>, v: int, w: int, m: nat)
    requires |dist| == g.V && Ordered(g, dist, settled)
    requires 0 <= v < g.V && dist[v].Fin? && dist[v].n <= m
    requires forall u :: u in settled && 0 <= u < g.V ==> Le(dist[u], dist[v])
    requires 0 <= w < g.V && w !in settled
    ensures Ordered(g, dist[w := Fin(m)], settled)
  {
  }

  lemma RelaxHangs(g: Graph, s: int, dist: seq<Dist>, edgeTo: seq<Option<Edge>>, settled: set<int>,
                   rank: seq<nat>, v: int, j: int)
    requires |dist| == g.V && |edgeTo| == g.V && |rank| == g.V
    requires ForDijkstra(g) && AllHang(g, s, dist, edgeTo, settled, rank)
    requires 0 <= v < g.V && v in settled && dist[v].Fin? && 0 <= j < |g.adj[v]|
    requires g.adj[v][j].to !in settled
    ensures var e := g.adj[v][j];
      AllHang(g, s, dist[e.to := Fin(dist[v].n + e.weight)], edgeTo[e.to := Some(e)], settled, rank)
  {
    var e := g.adj[v][j];
    assert IsEdge(g, e);
    var dist' := dist[e.to := Fin(dist[v].n + e.weight)];
    var edgeTo' := edgeTo[e.to := Some(e)];
    forall x | 0 <= x < g.V
      ensures Hangs(g, s, dist', edgeTo', settled, rank, x)
    {
      assert Hangs(g, s, dist, edgeTo, settled, rank, x);
    }
  }

  lemma RelaxWitnessed(g: Graph, s: int, dist: seq<Dist>, paths: seq<seq<Edge>>, v: int, j: int)
    requires |dist| == g.V && |paths| == g.V
    requires ForDijkstra(g) && Witnessed(g, s, dist, paths)
    requires 0 <= v < g.V && dist[v].Fin? && 0 <= j < |g.adj[v]|
    ensures var e := g.adj[v][j];
      Witnessed(g, s, dist[e.to := Fin(dist[v].n + e.weight)], paths[e.to := paths[v] + [e]])
  {
    var e := g.adj[v][j];
    assert IsEdge(g, e);
    PathSnoc(g, s, paths[v], e);
  }

  lemma RelaxRelaxed(g: Graph, dist: seq<Dist>, settled: set<int>, v: int, j: int)
    requires ForDijkstra(g) && |dist| == g.V
    requires 0 <= v < g.V && v in settled && dist[v].Fin? && 0 <= j < |g.adj[v]|
    requires var e := g.adj[v][j];
      e.to !in settled && (dist[e.to].Inf? || dist[e.to].n > dist[v].n + e.weight)
    requires forall u :: u in settled && 0 <= u < g.V && u != v ==> RelaxedUpTo(g, dist, u, |g.adj[u]|)
    requires RelaxedUpTo(g, dist, v, j)
    ensures var e := g.adj[v][j];
      var dist' := dist[e.to := Fin(dist[v].n + e.weight)];
      && (forall u :: u in settled && 0 <= u < g.V && u != v ==> RelaxedUpTo(g, dist', u, |g.adj[u]|))
      && RelaxedUpTo(g, dist', v, j + 1)
  {
    var e := g.adj[v][j];
    var dist' := dist[e.to := Fin(dist[v].n + e.weight)];
    forall u | u in settled && 0 <= u < g.V && u != v
      ensures RelaxedUpTo(g, dist', u, |g.adj[u]|)
    {
      assert dist'[u] == dist[u];
      assert RelaxedUpTo(g, dist, u, |g.adj[u]|);
      forall i | 0 <= i < |g.adj[u]|
        ensures Le(dist'[g.adj[u][i].to], Fin(dist'[u].n + g.adj[u][i].weight))
      {
        assert Le(dist[g.adj[u][i].to], Fin(dist[u].n + g.adj[u][i].weight));
      }
    }
    forall i | 0 <= i < j + 1 && i < |g.adj[v]|
      ensures Le(dist'[g.adj[v][i].to], Fin(dist'[v].n + g.adj[v][i].weight))
    {
      if i < j {
        assert RelaxedUpTo(g, dist, v, j);
      }
    }
  }

  /** The target of an improving relaxation is not yet settled. */
  lemma RelaxTarget(g: Graph, dist: seq<Dist>, settled: set<int>, rank: seq<nat>, clock: nat, v: int, w: int, m: nat)
    requires |dist| == g.V && |rank| == g.V && SettledOk(g, dist, settled, rank, clock)
    requires 0 <= v < g.V && dist[v].Fin? && dist[v].n <= m
    requires forall u :: u in settled ==> Le(dist[u], dist[v])
    requires 0 <= w < g.V && (dist[w].Inf? || dist[w].n > m)
    ensures w !in settled
  {
  }

  /** One improving relaxation keeps everything but the relaxed-edge facts. */
  lemma RelaxCore(g: Graph, s: int, dist: seq<Dist>, edgeTo: seq<Option<Edge>>, pq: seq<int>,
                  settled: set<int>, paths: seq<seq<Edge>>, rank: seq<nat>, clock: nat, v: int, j: int)
    requires Core(g, s, dist, edgeTo, pq, settled, paths, rank, clock)
    requires 0 <= v < g.V && v in settled && 0 <= j < |g.adj[v]|
    requires forall u :: u in settled ==> Le(dist[u], dist[v])
    requires var e := g.adj[v][j]; dist[e.to].Inf? || dist[e.to].n > dist[v].n + e.weight
    ensures var e := g.adj[v][j];
      && e.to !in settled
      && Core(g, s, dist[e.to := Fin(dist[v].n + e.weight)], edgeTo[e.to := Some(e)],
              if e.to in pq then pq else pq + [e.to], settled, paths[e.to := paths[v] + [e]], rank, clock)
  {
    var e := g.adj[v][j];
    var w := e.to;
    var m := dist[v].n + e.weight;
    RelaxTarget(g, dist, settled, rank, clock, v, w, m);
    RelaxQueued(g, dist, pq, settled, w, m);
    RelaxSettled(g, dist, settled, rank, clock, w, m);
    RelaxOrdered(g, dist, settled, v, w, m);
    RelaxHangs(g, s, dist, edgeTo, settled, rank, v, j);
    RelaxWitnessed(g, s, dist, paths, v, j);
  }

  /** One improving relaxation of edge `j` of `v` keeps the partial invariant. */
  lemma RelaxStep(g: Graph, s: int, dist: seq<Dist>, edgeTo: seq<Option<Edge>>, pq: seq<int>,
                  settled: set<int>, paths: seq<seq<Edge>>, rank: seq<nat>, clock: nat, v: int, j: int,
                  dist': seq<Dist>, edgeTo': seq<Option<Edge>>, pq': seq<int>, paths': seq<seq<Edge>>)
    requires PartInv(g, s, dist, edgeTo, pq, settled, paths, rank, clock, v, j)
    requires forall u :: u in settled ==> Le(dist[u], dist[v])
    requires j < |g.adj[v]|
    requires var e := g.adj[v][j];
      && (dist[e.to].Inf? || dist[e.to].n > dist[v].n + e.weight)
      && dist' == dist[e.to := Fin(dist[v].n + e.weight)]
      && edgeTo' == edgeTo[e.to := Some(e)]
      && pq' == (if e.to in pq then pq else pq + [e.to])
      && paths' == paths[e.to := paths[v] + [e]]
    ensures PartInv(g, s, dist', edgeTo', pq', settled, paths', rank, clock, v, j + 1)
    ensures forall u :: u in settled ==> Le(dist'[u], dist'[v])
  {
    RelaxCore(g, s, dist, edgeTo, pq, settled, paths, rank, clock, v, j);
    RelaxRelaxed(g, dist, settled, v, j);
  }

  /** A relaxation that does not improve leaves one more edge relaxed. */
  lemma KeepRelaxed(g: Graph, dist: seq<Dist>, v: int, j: int)
    requires ForDijkstra(g) && |dist| == g.V && 0 <= v < g.V && 0 <= j < |g.adj[v]|
    requires dist[v].Fin? && RelaxedUpTo(g, dist, v, j)
    requires var e := g.adj[v][j]; !(dist[e.to].Inf? || dist[e.to].n > dist[v].n + e.weight)
    ensures RelaxedUpTo(g, dist, v, j + 1)
  {
  }

  /** A relaxation that does not improve keeps the partial invariant. */
  lemma KeepStep(g: Graph, s: int, dist: seq<Dist>, edgeTo: seq<Option<Edge>>, pq: seq<int>,
                 settled: set<int>, paths: seq<seq<Edge>>, rank: seq<nat>, clock: nat, v: int, j: int)
    requires PartInv(g, s, dist, edgeTo, pq, settled, paths, rank, clock, v, j)
    requires j < |g.adj[v]|
    requires var e := g.adj[v][j]; !(dist[e.to].Inf? || dist[e.to].n > dist[v].n + e.weight)
    ensures PartInv(g, s, dist, edgeTo, pq, settled, paths, rank, clock, v, j + 1)
  {
    KeepRelaxed(g, dist, v, j);
  }

  /** Relaxing edge `j` leaving `v`: when it offers a shorter distance to
      its target `w`, record the distance and the edge, and queue `w` (or,
      when it is queued already, change its key). */
  function Relax(g: Graph, v: int, j: int, dist: seq<Dist>, edgeTo: seq<Option<Edge>>, pq: seq<int>)
    : (seq<Dist>, seq<Option<Edge>>, seq<int>)
    requires ForDijkstra(g) && |dist| == g.V && |edgeTo| == g.V
    requires 0 <= v < g.V && dist[v].Fin? && 0 <= j < |g.adj[v]|
  {
    var e := g.adj[v][j];
    var w := e.to;
    if dist[w].Inf? || dist[w].n > dist[v].n + e.weight then
      (dist[w := Fin(dist[v].n + e.weight)], edgeTo[w := Some(e)], if w in pq then pq else pq + [w])
    else (dist, edgeTo, pq)
  }

  /** The witness paths follow the relaxation. */
  ghost function RelaxPaths(g: Graph, v: int, j: int, dist: seq<Dist>, paths: seq<seq<Edge>>): seq<seq<Edge>>
    requires ForDijkstra(g) && |dist| == g.V && |paths| == g.V
    requires 0 <= v < g.V && dist[v].Fin? && 0 <= j < |g.adj[v]|
  {
    var e := g.adj[v][j];
    if dist[e.to].Inf? || dist[e.to].n > dist[v].n + e.weight then paths[e.to := paths[v] + [e]] else paths
  }

  /** Relaxing edge `j` of `v` keeps the partial invariant, one edge on. */
  lemma RelaxKeeps(g: Graph, s: int, dist: seq<Dist>, edgeTo: seq<Option<Edge>>, pq: seq<int>,
                   settled: set<int>, paths: seq<seq<Edge>>, rank: seq<nat>, clock: nat, v: int, j: int)
    requires PartInv(g, s, dist, edgeTo, pq, settled, paths, rank, clock, v, j)
    requires forall u :: u in settled ==> Le(dist[u], dist[v])
    requires j < |g.adj[v]|
    ensures var (dist', edgeTo', pq') := Relax(g, v, j, dist, edgeTo, pq);
      var paths' := RelaxPaths(g, v, j, dist, paths);
      && PartInv(g, s, dist', edgeTo', pq', settled, paths', rank, clock, v, j + 1)
      && forall u :: u in settled ==> Le(dist'[u], dist'[v])
  {
    var e := g.adj[v][j];
    if dist[e.to].Inf? || dist[e.to].n > dist[v].n + e.weight {
      var (dist', edgeTo', pq') := Relax(g, v, j, dist, edgeTo, pq);
      RelaxStep(g, s, dist, edgeTo, pq, settled, paths, rank, clock, v, j, dist', edgeTo', pq', RelaxPaths(g, v, j, dist, paths));
    } else {
      KeepStep(g, s, dist, edgeTo, pq, settled, paths, rank, clock, v, j);
    }
  }

  /** `update(G, v)`: relaxes every edge leaving the just-settled vertex `v`,
      queueing (or re-keying) each target whose distance improves. */
  method Update(g: Graph, v: int, dist: seq<Dist>, edgeTo: seq<Option<Edge>>, pq: seq<int>,
                ghost s: int, ghost settled: set<int>, ghost paths: seq<seq<Edge>>, ghost rank: seq<nat>,
                ghost clock: nat)
    returns (dist': seq<Dist>, edgeTo': seq<Option<Edge>>, pq': seq<int>, ghost paths': seq<seq<Edge>>)
    requires PartInv(g, s, dist, edgeTo, pq, settled, paths, rank, clock, v, 0)
    requires forall u :: u in settled ==> Le(dist[u], dist[v])
    ensures Inv(g, s, dist', edgeTo', pq', settled, paths', rank, clock)
    ensures |dist'| == |dist| && dist'[v] == dist[v]
    ensures forall w :: 0 <= w < |dist| ==> Le(dist'[w], dist[w])
    ensures forall i :: 0 <= i < |g.adj[v]| ==> Le(dist'[g.adj[v][i].to], Fin(dist'[v].n + g.adj[v][i].weight))
  {
    dist', edgeTo', pq', paths' := dist, edgeTo, pq, paths;
    var j := 0;
    while j < |g.adj[v]|
      invariant 0 <= j <= |g.adj[v]|
      invariant PartInv(g, s, dist', edgeTo', pq', settled, paths', rank, clock, v, j)
      invariant forall u :: u in settled ==> Le(dist'[u], dist'[v])
      invariant |dist'| == |dist| && dist'[v] == dist[v]
      invariant forall w :: 0 <= w < |dist| ==> Le(dist'[w], dist[w])
    {
      RelaxKeeps(g, s, dist', edgeTo', pq', settled, paths', rank, clock, v, j);
      paths' := RelaxPaths(g, v, j, dist', paths');
      var next := Relax(g, v, j, dist', edgeTo', pq');
      dist', edgeTo', pq' := next.0, next.1, next.2;
      j := j + 1;
    }
    PartDone(g, s, dist', edgeTo', pq', settled, paths', rank, clock, v);
  }

  /** Once every edge of `v` is relaxed the partial invariant is the full one. */
  lemma PartDone(g: Graph, s: int, dist: seq<Dist>, edgeTo: seq<Option<Edge>>, pq: seq<int>,
                 settled: set<int>, paths: seq<seq<Edge>>, rank: seq<nat>, clock: nat, v: int)
    requires 0 <= v < |g.adj| && PartInv(g, s, dist, edgeTo, pq, settled, paths, rank, clock, v, |g.adj[v]|)
    ensures Inv(g, s, dist, edgeTo, pq, settled, paths, rank, clock)
  {
  }

  // ---------------------------------------------------------------------

  /** Settling `pq[k]` keeps the queue facts. */
  lemma SettleQueued(g: Graph, dist: seq<Dist>, pq: seq<int>, settled: set<int>, k: int)
    requires |dist| == g.V && Queued(g, dist, pq, settled) && 0 <= k < |pq|
    ensures Queued(g, dist, pq[..k] + pq[k + 1..], settled + {pq[k]})
  {
    var v := pq[k];
    RemoveAt(pq, k);
    var pq' := pq[..k] + pq[k + 1..];
    var settled' := settled + {v};
    forall i | 0 <= i < |pq'|
      ensures 0 <= pq'[i] < g.V && dist[pq'[i]].Fin? && pq'[i] !in settled'
    {
      assert pq'[i] in pq;
    }
    forall x | 0 <= x < g.V && x !in pq' && x !in settled'
      ensures dist[x].Inf?
    {
      assert x !in pq;
    }
  }

  /** Settling `v` at time `clock` keeps every vertex hanging off the tree. */
  lemma SettleHangs(g: Graph, s: int, dist: seq<Dist>, edgeTo: seq<Option<Edge>>, settled: set<int>,
                    rank: seq<nat>, clock: nat, v: int)
    requires |dist| == g.V && |edgeTo| == g.V && |rank| == g.V && 0 <= v < g.V && v !in settled
    requires SettledOk(g, dist, settled, rank, clock) && AllHang(g, s, dist, edgeTo, settled, rank)
    ensures AllHang(g, s, dist, edgeTo, settled + {v}, rank[v := clock])
  {
    var settled', rank' := settled + {v}, rank[v := clock];
    forall x | 0 <= x < g.V
      ensures Hangs(g, s, dist, edgeTo, settled', rank', x)
    {
      assert Hangs(g, s, dist, edgeTo, settled, rank, x);
    }
  }

  /** Settling a queued vertex of least distance keeps settled vertices
      no farther than unsettled ones. */
  lemma SettleOrdered(g: Graph, dist: seq<Dist>, pq: seq<int>, settled: set<int>, k: int)
    requires |dist| == g.V && Queued(g, dist, pq, settled) && Ordered(g, dist, settled)
    requires 0 <= k < |pq|
    requires forall i :: 0 <= i < |pq| ==> dist[pq[k]].n <= dist[pq[i]].n
    ensures Ordered(g, dist, settled + {pq[k]})
    ensures forall u :: (u in settled || u == pq[k]) && 0 <= u < g.V ==> Le(dist[u], dist[pq[k]])
  {
    var v := pq[k];
    var settled' := settled + {v};
    forall u, x | u in settled' && 0 <= u < g.V && 0 <= x < g.V && x !in settled'
      ensures Le(dist[u], dist[x])
    {
      if u == v {
        if x in pq {
          var i :| 0 <= i < |pq| && pq[i] == x;
        } else {
          assert dist[x].Inf?;
        }
      }
    }
  }

  /** Moving a queued vertex of least distance to the settled set. */
  lemma SettleStep(g: Graph, s: int, dist: seq<Dist>, edgeTo: seq<Option<Edge>>, pq: seq<int>,
                   settled: set<int>, paths: seq<seq<Edge>>, rank: seq<nat>, clock: nat, k: int)
    requires Inv(g, s, dist, edgeTo, pq, settled, paths, rank, clock)
    requires 0 <= k < |pq|
    requires forall i :: 0 <= i < |pq| ==> dist[pq[k]].n <= dist[pq[i]].n
    ensures var v := pq[k];
      var settled' := settled + {v};
      && PartInv(g, s, dist, edgeTo, pq[..k] + pq[k + 1..], settled', paths, rank[v := clock], clock + 1, v, 0)
      && forall u :: u in settled' ==> Le(dist[u], dist[v])
  {
    SettleQueued(g, dist, pq, settled, k);
    SettleHangs(g, s, dist, edgeTo, settled, rank, clock, pq[k]);
    SettleOrdered(g, dist, pq, settled, k);
  }

  /** With every reached vertex settled and every settled edge relaxed, no
      path is shorter than the computed distance. */
  lemma {:induction false} LowerBound(g: Graph, s: int, dist: seq<Dist>, edgeTo: seq<Option<Edge>>,
                                      settled: set<int>, paths: seq<seq<Edge>>, rank: seq<nat>,
                                      clock: nat, v: int, p: seq<Edge>)
    requires Inv(g, s, dist, edgeTo, [], settled, paths, rank, clock)
    requires IsPath(g, s, v, p)
    ensures 0 <= v < g.V
    ensures dist[v].Fin? && dist[v].n <= Weight(p)
    decreases |p|
  {
    if p != [] {
      var n := |p| - 1;
      var e := p[n];
      LowerBound(g, s, dist, edgeTo, settled, paths, rank, clock, e.from, p[..n]);
      var i :| 0 <= i < |g.adj[e.from]| && g.adj[e.from][i] == e;
      assert e.from in settled;
      assert RelaxedUpTo(g, dist, e.from, |g.adj[e.from]|);
    }
  }

  /** When the queue is empty the invariant yields every postcondition. */
  lemma Finish(g: Graph, s: int, dist: seq<Dist>, edgeTo: seq<Option<Edge>>,
               settled: set<int>, paths: seq<seq<Edge>>, rank: seq<nat>, clock: nat)
    requires Inv(g, s, dist, edgeTo, [], settled, paths, rank, clock)
    ensures forall v :: 0 <= v < g.V ==> IsShortest(g, s, v, dist[v])
    ensures forall v, i :: 0 <= v < g.V && dist[v].Fin? && 0 <= i < |g.adj[v]| ==>
              Le(dist[g.adj[v][i].to], Fin(dist[v].n + g.adj[v][i].weight))
    ensures Tree(g, SP(s, dist, edgeTo), rank)
  {
    forall v | 0 <= v < g.V
      ensures IsShortest(g, s, v, dist[v])
    {
      forall p | IsPath(g, s, v, p)
        ensures dist[v].Fin? && dist[v].n <= Weight(p)
      {
        LowerBound(g, s, dist, edgeTo, settled, paths, rank, clock, v, p);
      }
      if dist[v].Fin? {
        assert IsPath(g, s, v, paths[v]);
      }
    }
    forall v, i | 0 <= v < g.V && dist[v].Fin? && 0 <= i < |g.adj[v]|
      ensures Le(dist[g.adj[v][i].to], Fin(dist[v].n + g.adj[v][i].weight))
    {
      assert v in settled;
      assert RelaxedUpTo(g, dist, v, |g.adj[v]|);
    }
    var sp := SP(s, dist, edgeTo);
    forall v | 0 <= v < g.V
      ensures TreeEdge(g, sp, rank, v)
    {
      assert Hangs(g, s, dist, edgeTo, settled, rank, v);
    }
  }

  /** The vertices not yet settled; shrinks on every round of the main loop. */
  ghost function Unsettled(V: int, settled: set<int>): set<int>
  {
    set x | 0 <= x < V && x !in settled
  }

  /** `new DijkstraSP(G, s)`: every distance is the length of a shortest
      path (Inf when unreachable), the source is at distance 0, every edge
      leaving a reached vertex is relaxed, and edgeTo forms a tree rooted at
      `s` (the ghost `rank` is the order in which vertices were settled). */
  method DijkstraSP(g: Graph, s: int) returns (sp: SP, ghost rank: seq<nat>)
    requires ForDijkstra(g)
    requires 0 <= s < g.V
    ensures sp.source == s && |sp.dist| == g.V && |sp.edgeTo| == g.V
    ensures sp.dist[s] == Fin(0)
    ensures forall v :: 0 <= v < g.V ==> IsShortest(g, s, v, sp.dist[v])
    ensures forall v, i :: 0 <= v < g.V && sp.dist[v].Fin? && 0 <= i < |g.adj[v]| ==>
              Le(sp.dist[g.adj[v][i].to], Fin(sp.dist[v].n + g.adj[v][i].weight))
    ensures Tree(g, sp, rank)
  {
    var dist: seq<Dist> := seq(g.V, _ => Inf);
    var edgeTo: seq<Option<Edge>> := seq(g.V, _ => None);
    dist := dist[s := Fin(0)];
    var pq: seq<int> := [s];
    ghost var settled: set<int> := {};
    ghost var paths: seq<seq<Edge>> := seq(g.V, _ => []);
    rank := seq(g.V, _ => 0);
    ghost var clock: nat := 0;
    assert IsPath(g, s, s, paths[s]);
    while |pq| > 0
      invariant Inv(g, s, dist, edgeTo, pq, settled, paths, rank, clock)
      decreases Unsettled(g.V, settled)
    {
      var k := DelMin(pq, dist);
      var v := pq[k];
      assert v in Unsettled(g.V, settled);
      SettleStep(g, s, dist, edgeTo, pq, settled, paths, rank, clock, k);
      pq := pq[..k] + pq[k + 1..];
      rank := rank[v := clock];
      settled := settled + {v};
      clock := clock + 1;
      dist, edgeTo, pq, paths := Update(g, v, dist, edgeTo, pq, s, settled, paths, rank, clock);
    }
    sp := SP(s, dist, edgeTo);
    Finish(g, s, dist, edgeTo, settled, paths, rank, clock);
  }

  /** `hasPathTo(v)`: the distance is finite exactly when some path from
      the source reaches `v`. */
  function HasPathTo(g: Graph, sp: SP, v: int): (b: bool)
    requires 0 <= v < |sp.dist|
    requires IsShortest(g, sp.source, v, sp.dist[v])
    ensures b <==> exists p :: IsPath(g, sp.source, v, p)
  {
    match sp.dist[v]
    case Fin(n) =>
      assert exists p :: IsPath(g, sp.source, v, p) && Weight(p) == n;
      true
    case Inf => false
  }

  /** `pathTo(v)`: walks edgeTo back from `v` to the source, pushing each
      edge on the front; null (None) when `v` is unreachable. The path it
      returns weighs exactly distTo(v). */
  method PathTo(g: Graph, sp: SP, ghost rank: seq<nat>, v: int) returns (r: Option<seq<Edge>>)
    requires Tree(g, sp, rank)
    requires 0 <= v < g.V
    ensures r.None? <==> sp.dist[v].Inf?
    ensures r.Some? ==> IsPath(g, sp.source, v, r.value) && Weight(r.value) == sp.dist[v].n
  {
    if sp.dist[v].Inf? {
      return None;
    }
    var stack: seq<Edge> := [];
    var c := v;
    while sp.edgeTo[c].Some?
      invariant 0 <= c < g.V
      invariant sp.dist[c].Fin?
      invariant IsPath(g, c, v, stack)
      invariant sp.dist[v].n == sp.dist[c].n + Weight(stack)
      decreases rank[c]
    {
      var e := sp.edgeTo[c].value;
      assert TreeEdge(g, sp, rank, c);
      PathCons(g, e, v, stack);
      stack := [e] + stack;
      c := e.from;
    }
    assert TreeEdge(g, sp, rank, c);
    return Some(stack);
  }
}
