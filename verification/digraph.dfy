/** Directed, integer-weighted graphs: DirectedEdge and EdgeWeightedDigraph. */
module Digraph {

  /** A weighted edge `from -> to`. The accessors from(), to() and weight()
      of the source are the datatype's fields. */
  datatype Edge = Edge(from: int, to: int, weight: int)

  /** Orders edges by weight only: -1, 0 or +1. */
  function CompareTo(e: Edge, f: Edge): (c: int)
    ensures -1 <= c <= 1
    ensures c < 0 <==> e.weight < f.weight
    ensures c == 0 <==> e.weight == f.weight
    ensures c > 0 <==> e.weight > f.weight
  {
    if e.weight < f.weight then -1
    else if e.weight > f.weight then 1
    else 0
  }

  /** Swapping the arguments of CompareTo negates the answer. */
  lemma CompareToAntisymmetric(e: Edge, f: Edge)
    ensures CompareTo(e, f) == -CompareTo(f, e)
  {
  }

  /** An adjacency-list digraph: `adj[v]` lists the edges leaving `v`,
      `E` counts the edges added so far. */
  datatype Graph = Graph(V: int, E: int, adj: seq<seq<Edge>>)

  /** Every edge in the concatenation of the adjacency lists, in vertex order. */
  function Flatten(adj: seq<seq<Edge>>): seq<Edge>
  {
    if adj == [] then [] else Flatten(adj[..|adj| - 1]) + adj[|adj| - 1]
  }

  /** The structural invariant kept by the constructor and addEdge. */
  ghost predicate Valid(g: Graph)
  {
    && g.V == |g.adj|
    && g.E == |Flatten(g.adj)|
    && forall v, i :: 0 <= v < |g.adj| && 0 <= i < |g.adj[v]| ==> g.adj[v][i].from == v
  }

  /** What Dijkstra needs in addition: targets are vertices and weights are
      non-negative. */
  ghost predicate ForDijkstra(g: Graph)
  {
    && Valid(g)
    && forall v, i :: 0 <= v < |g.adj| && 0 <= i < |g.adj[v]| ==>
         0 <= g.adj[v][i].to < g.V && g.adj[v][i].weight >= 0
  }

  /** `new EdgeWeightedDigraph(V)`: V empty adjacency lists and no edges. */
  function NewGraph(V: nat): (g: Graph)
    ensures Valid(g)
    ensures g.V == V && g.E == 0
    ensures forall v :: 0 <= v < V ==> g.adj[v] == []
  {
    var adj := seq(V, _ => []);
    FlattenEmpty(adj);
    Graph(V, 0, adj)
  }

  lemma {:induction false} FlattenEmpty(adj: seq<seq<Edge>>)
    requires forall v :: 0 <= v < |adj| ==> adj[v] == []
    ensures Flatten(adj) == []
  {
    if adj != [] {
      FlattenEmpty(adj[..|adj| - 1]);
    }
  }

  /** Appending one edge to one list grows the flattening by one. */
  lemma {:induction false} FlattenAppend(adj: seq<seq<Edge>>, v: int, e: Edge)
    requires 0 <= v < |adj|
    ensures |Flatten(adj[v := adj[v] + [e]])| == |Flatten(adj)| + 1
  {
    var adj' := adj[v := adj[v] + [e]];
    var n := |adj| - 1;
    assert adj'[..n] == if v < n then adj[..n][v := adj[v] + [e]] else adj[..n];
    if v < n {
      FlattenAppend(adj[..n], v, e);
    }
  }

  /** `addEdge(e)`: appends `e` to the list of `e.from`, counts it, and
      leaves every other list alone. */
  function AddEdge(g: Graph, e: Edge): (g': Graph)
    requires Valid(g)
    requires 0 <= e.from < g.V
    ensures Valid(g')
    ensures g'.V == g.V && g'.E == g.E + 1
    ensures g'.adj[e.from] == g.adj[e.from] + [e]
    ensures forall v :: 0 <= v < g.V && v != e.from ==> g'.adj[v] == g.adj[v]
  {
    FlattenAppend(g.adj, e.from, e);
    Graph(g.V, g.E + 1, g.adj[e.from := g.adj[e.from] + [e]])
  }

  /** `adj(v)`: the edges leaving `v`, all of which start at `v`. */
  function Adj(g: Graph, v: int): (es: seq<Edge>)
    requires Valid(g)
    requires 0 <= v < g.V
    ensures forall i :: 0 <= i < |es| ==> es[i].from == v
  {
    g.adj[v]
  }

  lemma {:induction false} FlattenMembers(adj: seq<seq<Edge>>, e: Edge)
    ensures e in Flatten(adj) <==> exists v :: 0 <= v < |adj| && e in adj[v]
  {
    if adj != [] {
      var n := |adj| - 1;
      FlattenMembers(adj[..n], e);
      assert forall v :: 0 <= v < n ==> adj[..n][v] == adj[v];
      if e in Flatten(adj) && e !in adj[n] {
        assert e in Flatten(adj[..n]);
      }
    }
  }

  /** `edges()`: walks the lists in vertex order and collects every edge;
      on a valid graph there are exactly E of them. */
  method Edges(g: Graph) returns (es: seq<Edge>)
    requires Valid(g)
    ensures es == Flatten(g.adj)
    ensures |es| == g.E
    ensures forall e :: e in es <==> exists v :: 0 <= v < g.V && e in g.adj[v]
  {
    es := [];
    var v := 0;
    while v < g.V
      invariant 0 <= v <= g.V
      invariant es == Flatten(g.adj[..v])
    {
      var i := 0;
      while i < |g.adj[v]|
        invariant 0 <= i <= |g.adj[v]|
        invariant es == Flatten(g.adj[..v]) + g.adj[v][..i]
      {
        es := es + [g.adj[v][i]];
        i := i + 1;
      }
      assert g.adj[..v + 1][..v] == g.adj[..v];
      assert g.adj[v][..i] == g.adj[v];
      v := v + 1;
    }
    assert g.adj[..v] == g.adj;
    forall e
      ensures e in es <==> exists v :: 0 <= v < g.V && e in g.adj[v]
    {
      FlattenMembers(g.adj, e);
    }
  }
}
