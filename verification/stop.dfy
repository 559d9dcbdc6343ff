/** Pickups, drops and taxi positions (Stop.java). */
module Stops {
  import opened Digraph
  import opened Paths

  /** What happens at a stop. TaxiLocation marks a taxi's starting point. */
  datatype StopType = Pickup | Drop | TaxiLocation

  /** A stop of a route: the location, the request it serves, its kind,
      the window [et, lt] it must be served in, and the actual time `at`.
      Windows never change; only `at` does, by building a new value.
      The source's backup field `b_at` has no counterpart: rollback keeps
      the earlier route value instead. */
  datatype Stop = Stop(location: int, requestId: int, stopType: StopType, et: int, lt: int, at: int)

  /** The distance oracle: `d(u, v)` is the shortest distance from location
      `u` to location `v`, truncated to an integer. The source computes it
      with DijkstraSP from `u`. */
  type Oracle = (int, int) -> nat

  /** The stop is served inside its window. */
  predicate InWindow(s: Stop)
  {
    s.et <= s.at <= s.lt
  }

  /** `new Stop(location, et, lt, requestId, stopType, g)`: the actual time
      starts at the earliest time, so a stop with a proper window starts
      inside it. */
  function MakeStop(location: int, et: int, lt: int, requestId: int, stopType: StopType): (s: Stop)
    ensures s.location == location && s.requestId == requestId && s.stopType == stopType
    ensures s.et == et && s.lt == lt
    ensures s.at == s.et
    ensures et <= lt ==> InWindow(s)
  {
    Stop(location, requestId, stopType, et, lt, et)
  }

  /** `distTo(w)`: the distance from this stop's location to `w`'s. */
  function DistTo(d: Oracle, v: Stop, w: Stop): nat
  {
    d(v.location, w.location)
  }

  /** When the oracle is the shortest-path distance of the city map, distTo
      is the length of a shortest path, and zero between stops at the same
      location. */
  lemma DistToShortest(g: Graph, d: Oracle, v: Stop, w: Stop)
    requires ShortestOracle(g, d)
    requires 0 <= v.location < g.V && 0 <= w.location < g.V
    ensures IsShortest(g, v.location, w.location, Fin(DistTo(d, v, w)))
    ensures v.location == w.location ==> DistTo(d, v, w) == 0
  {
    OracleTriangle(g, d, v.location, w.location, w.location);
  }

  /** `clone()`: a fresh stop with the same location, window, request,
      kind and actual time — equal, field for field, to the original. */
  function Clone(s: Stop): (c: Stop)
    ensures c == s
  {
    MakeStop(s.location, s.et, s.lt, s.requestId, s.stopType).(at := s.at)
  }
}
