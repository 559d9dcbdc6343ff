/** Paths, path weights and the shortest-path predicate that the distance
    oracle is specified against. Distances are natural numbers with an
    explicit infinity (Double.POSITIVE_INFINITY in the source). */
module Paths {
  import opened Digraph

  datatype Dist = Fin(n: nat) | Inf

  /** `a <= b` in the extended order where Inf is the largest value. */
  predicate Le(a: Dist, b: Dist)
  {
    b.Inf? || (a.Fin? && a.n <= b.n)
  }

  /** `e` is one of the graph's edges. */
  ghost predicate IsEdge(g: Graph, e: Edge)
  {
    0 <= e.from < |g.adj| && e in g.adj[e.from]
  }

  /** `p` is a chain of graph edges leading from `u` to `v`; the empty chain
      leads from a vertex to itself. */
  ghost predicate IsPath(g: Graph, u: int, v: int, p: seq<Edge>)
    decreases |p|
  {
    if p == [] then u == v
    else
      var e := p[|p| - 1];
      IsEdge(g, e) && e.to == v && IsPath(g, u, e.from, p[..|p| - 1])
  }

  function Weight(p: seq<Edge>): int
  {
    if p == [] then 0 else Weight(p[..|p| - 1]) + p[|p| - 1].weight
  }

  /** `d` is the length of a shortest path from `s` to `v`, or Inf when no
      path exists. */
  ghost predicate IsShortest(g: Graph, s: int, v: int, d: Dist)
  {
    match d
    case Inf => forall p :: !IsPath(g, s, v, p)
    case Fin(n) =>
      && (exists p :: IsPath(g, s, v, p) && Weight(p) == n)
      && (forall p :: IsPath(g, s, v, p) ==> n <= Weight(p))
  }

  /** Extending a path by one edge at its end. */
  lemma PathSnoc(g: Graph, u: int, p: seq<Edge>, e: Edge)
    requires IsPath(g, u, e.from, p)
    requires IsEdge(g, e)
    ensures IsPath(g, u, e.to, p + [e])
    ensures Weight(p + [e]) == Weight(p) + e.weight
  {
    assert (p + [e])[..|p|] == p;
  }

  /** Two paths that meet compose, and their weights add up. */
  lemma {:induction false} PathConcat(g: Graph, u: int, v: int, w: int, p: seq<Edge>, q: seq<Edge>)
    requires IsPath(g, u, v, p)
    requires IsPath(g, v, w, q)
    ensures IsPath(g, u, w, p + q)
    ensures Weight(p + q) == Weight(p) + Weight(q)
    decreases |q|
  {
    if q == [] {
      assert p + q == p;
    } else {
      var n := |q| - 1;
      var e := q[n];
      PathConcat(g, u, v, e.from, p, q[..n]);
      assert (p + q)[..|p + q| - 1] == p + q[..n];
      assert (p + q)[|p + q| - 1] == e;
    }
  }

  /** Prepending one edge to a path. */
  lemma PathCons(g: Graph, e: Edge, v: int, p: seq<Edge>)
    requires IsEdge(g, e)
    requires IsPath(g, e.to, v, p)
    ensures IsPath(g, e.from, v, [e] + p)
    ensures Weight([e] + p) == e.weight + Weight(p)
  {
    assert IsPath(g, e.from, e.to, [e]) by {
      assert [e][..0] == [];
    }
    assert Weight([e]) == e.weight by {
      assert [e][..0] == [];
    }
    PathConcat(g, e.from, e.to, v, [e], p);
  }

  /** A distance table `d` agrees with shortest paths between all vertices
      (every distance finite, as the engine assumes). */
  ghost predicate ShortestOracle(g: Graph, d: (int, int) -> nat)
  {
    forall a, b :: 0 <= a < g.V && 0 <= b < g.V ==> IsShortest(g, a, b, Fin(d(a, b)))
  }

  /** Shortest-path distances are zero from a vertex to itself and obey the
      triangle inequality. */
  lemma OracleTriangle(g: Graph, d: (int, int) -> nat, a: int, b: int, c: int)
    requires ShortestOracle(g, d)
    requires 0 <= a < g.V && 0 <= b < g.V && 0 <= c < g.V
    ensures d(a, a) == 0
    ensures d(a, c) <= d(a, b) + d(b, c)
  {
    assert IsShortest(g, a, a, Fin(d(a, a)));
    assert IsPath(g, a, a, []);
    assert IsShortest(g, a, b, Fin(d(a, b)));
    assert IsShortest(g, b, c, Fin(d(b, c)));
    assert IsShortest(g, a, c, Fin(d(a, c)));
    var p :| IsPath(g, a, b, p) && Weight(p) == d(a, b);
    var q :| IsPath(g, b, c, q) && Weight(q) == d(b, c);
    PathConcat(g, a, b, c, p, q);
  }
}
