/** Routes of a taxi: the invariants check() states, the postponement pass
    shared by both insertion engines, and the list surgery of insertion and
    rollback. A route is the sequence of stops after the taxi's start stop. */
module Routes {
  import opened Options
  import opened Constants
  import opened Stops

  /** `shortestTime(v, w)`: minutes needed to drive from `v` to `w`. */
  function Travel(d: Oracle, v: Stop, w: Stop): nat
  {
    DistTo(d, v, w) * TimePerKm
  }

  /** The stop the taxi leaves from to reach position `j`. */
  function Pred(start: Stop, route: seq<Stop>, j: int): Stop
    requires 0 <= j <= |route|
  {
    if j == 0 then start else route[j - 1]
  }

  /** The stop the taxi leaves from to reach position `j` of `r`, when the
      stops from position `i` on were timed after leaving `p`. */
  function Lead(p: Stop, r: seq<Stop>, i: int, j: int): Stop
    requires 0 <= i <= j <= |r|
  {
    if j == i then p else r[j - 1]
  }

  /** The earliest time `s` can be served after leaving `p`: drive, then
      wait for the window to open. */
  function Arrival(d: Oracle, p: Stop, s: Stop): int
  {
    Max(p.at + Travel(d, p, s), s.et)
  }

  /** The leg from `p` to `s` leaves at least the travel time. */
  predicate Gap(d: Oracle, p: Stop, s: Stop)
  {
    s.at - p.at >= Travel(d, p, s)
  }

  /** Every leg from the start stop onwards covers its travel time. */
  predicate GapsOk(d: Oracle, start: Stop, route: seq<Stop>)
  {
    forall j :: 0 <= j < |route| ==> Gap(d, Pred(start, route, j), route[j])
  }

  /** Every stop is served inside its window. */
  predicate WindowsOk(route: seq<Stop>)
  {
    forall j :: 0 <= j < |route| ==> InWindow(route[j])
  }

  /** Every stop has a proper window. */
  predicate Windowed(route: seq<Stop>)
  {
    forall j :: 0 <= j < |route| ==> route[j].et <= route[j].lt
  }

  /** The change in passengers on board at a stop: a pickup boards one,
      anything else lets one off. */
  function Delta(s: Stop): int
  {
    if s.stopType == Pickup then 1 else -1
  }

  /** Passengers on board after the given stops. */
  function Load(route: seq<Stop>): int
  {
    if route == [] then 0 else Load(route[..|route| - 1]) + Delta(route[|route| - 1])
  }

  /** The taxi never carries more than `capacity` passengers. */
  predicate LoadOk(route: seq<Stop>, capacity: int)
  {
    forall j :: 0 < j <= |route| ==> Load(route[..j]) <= capacity
  }

  /** The invariant a taxi keeps between requests: check() passes and every
      passenger picked up is also dropped. */
  predicate Sound(d: Oracle, start: Stop, capacity: int, route: seq<Stop>)
  {
    GapsOk(d, start, route) && WindowsOk(route) && LoadOk(route, capacity) && Load(route) == 0
  }

  /** `b` holds the stops of `a`, in order, with possibly other times. */
  predicate Retimed(a: seq<Stop>, b: seq<Stop>)
  {
    |a| == |b| && forall j :: 0 <= j < |a| ==> b[j] == a[j].(at := b[j].at)
  }

  lemma RetimedTrans(a: seq<Stop>, b: seq<Stop>, c: seq<Stop>)
    requires Retimed(a, b) && Retimed(b, c)
    ensures Retimed(a, c)
  {
    assert forall j :: 0 <= j < |a| ==> c[j] == b[j].(at := c[j].at) == a[j].(at := c[j].at);
  }

  lemma {:induction false} LoadConcat(a: seq<Stop>, b: seq<Stop>)
    ensures Load(a + b) == Load(a) + Load(b)
    decreases |b|
  {
    if b != [] {
      var n := |b| - 1;
      assert (a + b)[..|a + b| - 1] == a + b[..n];
      assert (a + b)[|a + b| - 1] == b[n];
      LoadConcat(a, b[..n]);
    } else {
      assert a + b == a;
    }
  }

  /** Load counts stop kinds only, so retiming keeps it. */
  lemma {:induction false} LoadRetimed(a: seq<Stop>, b: seq<Stop>)
    requires Retimed(a, b)
    ensures Load(a) == Load(b)
    decreases |a|
  {
    if a != [] {
      var n := |a| - 1;
      assert Retimed(a[..n], b[..n]);
      LoadRetimed(a[..n], b[..n]);
    }
  }

  /** `route.add(pos, s)`. */
  function Splice(route: seq<Stop>, pos: int, s: Stop): (r: seq<Stop>)
    requires 0 <= pos <= |route|
    ensures |r| == |route| + 1 && r[pos] == s
    ensures forall j :: 0 <= j < pos ==> r[j] == route[j]
    ensures forall j :: pos < j < |r| ==> r[j] == route[j - 1]
  {
    route[..pos] + [s] + route[pos..]
  }

  /** `route.remove(...)` of the stop at `pos`. */
  function Without(r: seq<Stop>, pos: int): (w: seq<Stop>)
    requires 0 <= pos < |r|
    ensures |w| == |r| - 1
    ensures forall j :: 0 <= j < pos ==> w[j] == r[j]
    ensures forall j :: pos <= j < |w| ==> w[j] == r[j + 1]
  {
    r[..pos] + r[pos + 1..]
  }

  /** `r` is `route` with (a retimed copy of) `s` placed at `pos`: the
      stops before `pos` are untouched, the later ones keep their order and
      may have been retimed. */
  predicate Inserted(route: seq<Stop>, pos: int, s: Stop, r: seq<Stop>)
  {
    && 0 <= pos <= |route| && |r| == |route| + 1
    && r[..pos] == route[..pos]
    && r[pos] == s.(at := r[pos].at)
    && Retimed(route[pos..], r[pos + 1..])
  }

  /** Taking the inserted stop out again gives a retimed copy of the route. */
  lemma InsertedWithout(route: seq<Stop>, pos: int, s: Stop, r: seq<Stop>)
    requires Inserted(route, pos, s, r)
    ensures Retimed(route, Without(r, pos))
  {
    var w := Without(r, pos);
    forall j | 0 <= j < |route|
      ensures w[j] == route[j].(at := w[j].at)
    {
      if j < pos {
        assert r[..pos][j] == route[..pos][j];
      } else {
        assert route[pos..][j - pos] == route[j];
        assert r[pos + 1..][j - pos] == r[j + 1];
      }
    }
  }

  /** Rollback (`route.remove(pickUp)` then `s.at = s.b_at` for every stop):
      drop the stop at `pos` and give every remaining stop its backed-up
      time. When `r` came from inserting into `backup`, this restores
      `backup` exactly. */
  function Restore(r: seq<Stop>, pos: int, backup: seq<Stop>): (out: seq<Stop>)
    requires 0 <= pos < |r| && |r| == |backup| + 1
    ensures |out| == |backup|
    ensures Retimed(backup, Without(r, pos)) ==> out == backup
  {
    var w := Without(r, pos);
    seq(|backup|, j requires 0 <= j < |backup| => w[j].(at := backup[j].at))
  }

  /** Loads of the prefixes of a route with one stop inserted. */
  lemma LoadInserted(route: seq<Stop>, pos: int, s: Stop, r: seq<Stop>, m: int)
    requires Inserted(route, pos, s, r)
    requires 0 <= m <= |r|
    ensures m <= pos ==> Load(r[..m]) == Load(route[..m])
    ensures m > pos ==> Load(r[..m]) == Load(route[..m - 1]) + Delta(s)
  {
    if m <= pos {
      assert r[..m] == r[..pos][..m];
      assert route[..m] == route[..pos][..m];
    } else {
      assert r[..m] == r[..pos] + [r[pos]] + r[pos + 1..m];
      assert route[..m - 1] == route[..pos] + route[pos..m - 1];
      assert Retimed(route[pos..m - 1], r[pos + 1..m]) by {
        assert route[pos..m - 1] == route[pos..][..m - 1 - pos];
        assert r[pos + 1..m] == r[pos + 1..][..m - 1 - pos];
      }
      LoadConcat(r[..pos] + [r[pos]], r[pos + 1..m]);
      LoadConcat(r[..pos], [r[pos]]);
      assert Load([r[pos]]) == Delta(s) by {
        assert [r[pos]][..0] == [];
      }
      LoadConcat(route[..pos], route[pos..m - 1]);
      LoadRetimed(route[pos..m - 1], r[pos + 1..m]);
    }
  }

  /** `canPostpone(stop, prevStop)`: simulates pushing back every stop from
      position `i` on after leaving `p`; false as soon as one would be
      reached after its window closes. */
  function CanPostpone(d: Oracle, route: seq<Stop>, i: int, p: Stop): bool
    requires 0 <= i <= |route|
    decreases |route| - i
  {
    if i == |route| then true
    else
      var sAt := p.at + Travel(d, p, route[i]);
      if sAt > route[i].lt then false
      else CanPostpone(d, route, i + 1, route[i].(at := Max(sAt, route[i].et)))
  }

  /** The writing pass of `postponeAllFromStop`: every stop from position
      `i` on gets the earliest time it can be served after its predecessor
      (`p` for the first). Nothing else changes. */
  function Postponed(d: Oracle, route: seq<Stop>, i: int, p: Stop): (r: seq<Stop>)
    requires 0 <= i <= |route|
    ensures Retimed(route, r)
    ensures r[..i] == route[..i]
    ensures forall j :: i <= j < |r| ==> r[j].at == Arrival(d, Lead(p, r, i, j), r[j])
    decreases |route| - i
  {
    if i == |route| then route
    else
      var s := route[i].(at := Arrival(d, p, route[i]));
      var r := Postponed(d, route[i := s], i + 1, s);
      assert r[..i + 1][..i] == r[..i];
      RetimedTrans(route, route[i := s], r);
      r
  }

  /** Every stop of `w` from position `i` on is reached, before any
      waiting, no later than its window closes, when the stops from `i` on
      were timed after leaving `p`. */
  predicate InTime(d: Oracle, p: Stop, w: seq<Stop>, i: int)
    requires 0 <= i <= |w|
  {
    forall j :: i <= j < |w| ==> Lead(p, w, i, j).at + Travel(d, Lead(p, w, i, j), w[j]) <= w[j].lt
  }

  /** The simulation and the writing pass agree: the simulation succeeds
      exactly when every written stop is reached, before waiting, no later
      than its window closes. */
  lemma {:induction false} CanPostponeSpec(d: Oracle, route: seq<Stop>, i: int, p: Stop)
    requires 0 <= i <= |route|
    ensures var r := Postponed(d, route, i, p);
      CanPostpone(d, route, i, p) <==>
        InTime(d, p, r, i)
    decreases |route| - i
  {
    if i < |route| {
      var s := route[i].(at := Arrival(d, p, route[i]));
      var r := Postponed(d, route, i, p);
      assert r == Postponed(d, route[i := s], i + 1, s);
      assert r[i] == s by {
        assert r[..i + 1] == route[i := s][..i + 1];
      }
      var sAt := p.at + Travel(d, p, route[i]);
      assert route[i].(at := Max(sAt, route[i].et)) == s;
      CanPostponeSuffix(d, route, route[i := s], i + 1, s);
      CanPostponeSpec(d, route[i := s], i + 1, s);
      assert CanPostpone(d, route, i, p) <==> sAt <= route[i].lt && InTime(d, s, r, i + 1);
      InTimeStep(d, p, r, i);
      assert Travel(d, p, r[i]) == Travel(d, p, route[i]);
    } else {
      assert CanPostpone(d, route, i, p);
    }
  }

  /** The stops from `i` on are in time after `p` exactly when the stop at
      `i` is, and the rest are in time after it. */
  lemma InTimeStep(d: Oracle, p: Stop, r: seq<Stop>, i: int)
    requires 0 <= i < |r|
    ensures InTime(d, p, r, i) <==> p.at + Travel(d, p, r[i]) <= r[i].lt && InTime(d, r[i], r, i + 1)
  {
    assert Lead(p, r, i, i) == p;
    forall j | i + 1 <= j < |r|
      ensures Lead(p, r, i, j) == Lead(r[i], r, i + 1, j)
    {
    }
  }

  /** The simulation only reads the stops from position `i` on. */
  lemma {:induction false} CanPostponeSuffix(d: Oracle, a: seq<Stop>, b: seq<Stop>, i: int, p: Stop)
    requires 0 <= i <= |a| == |b|
    requires a[i..] == b[i..]
    ensures CanPostpone(d, a, i, p) == CanPostpone(d, b, i, p)
    decreases |a| - i
  {
    if i < |a| {
      assert a[i] == a[i..][0] == b[i..][0] == b[i];
      assert a[i + 1..] == a[i..][1..] == b[i..][1..] == b[i + 1..];
      var sAt := p.at + Travel(d, p, a[i]);
      CanPostponeSuffix(d, a, b, i + 1, a[i].(at := Max(sAt, a[i].et)));
    }
  }

  /** `postponeAllFromStop(stop, prevStop)`: all or nothing. When the
      simulation fails nothing is written (None); otherwise every stop
      from position `i` on is written with exactly the simulated time, which
      lies inside its window and leaves every leg its travel time. */
  function PostponeAllFromStop(d: Oracle, route: seq<Stop>, i: int, p: Stop): (r: Option<seq<Stop>>)
    requires 0 <= i <= |route|
    ensures var w := Postponed(d, route, i, p);
      r.Some? <==> InTime(d, p, w, i)
    ensures r.Some? ==> Retimed(route, r.value) && r.value[..i] == route[..i]
    ensures r.Some? ==> forall j :: i <= j < |route| ==> Gap(d, Lead(p, r.value, i, j), r.value[j])
    ensures r.Some? && Windowed(route) ==> forall j :: i <= j < |route| ==> InWindow(r.value[j])
  {
    CanPostponeSpec(d, route, i, p);
    PostponedInWindow(d, route, i, p);
    if CanPostpone(d, route, i, p) then Some(Postponed(d, route, i, p)) else None
  }

  lemma PostponedInWindow(d: Oracle, route: seq<Stop>, i: int, p: Stop)
    requires 0 <= i <= |route|
    ensures var w := Postponed(d, route, i, p);
      (Windowed(route) && InTime(d, p, w, i))
        ==> forall j :: i <= j < |route| ==> InWindow(w[j])
  {
    var w := Postponed(d, route, i, p);
    if Windowed(route) && InTime(d, p, w, i) {
      forall j | i <= j < |route|
        ensures InWindow(w[j])
      {
        assert w[j] == route[j].(at := w[j].at);
      }
    }
  }

  /** checkScheduleAfterInsertion and the outcome of one insertStop call:
      the new route, a refusal, or the process exit (status 2) that the
      source performs when a leg is shorter than its travel time. */
  datatype Placement = Placed(route: seq<Stop>) | Rejected | Halted

  function AfterInsertion(d: Oracle, start: Stop, r: seq<Stop>): (res: Placement)
    ensures res.Placed? <==> GapsOk(d, start, r)
    ensures res.Placed? ==> res.route == r
    ensures !res.Rejected?
  {
    if GapsOk(d, start, r) then Placed(r) else Halted
  }

  /** The common tail of every insertStop branch: optionally push back the
      stops from `pos` on (after leaving `placed`), then add `placed` at
      `pos` and check the legs. */
  function Place(d: Oracle, start: Stop, route: seq<Stop>, pos: int, placed: Stop, push: bool): (res: Placement)
    requires 0 <= pos <= |route|
    ensures res.Placed? ==> Inserted(route, pos, placed, res.route) && res.route[pos] == placed
    ensures (res.Placed? && push) ==> res.route[pos + 1..] == Postponed(d, route, pos, placed)[pos..]
    ensures (res.Placed? && !push) ==> res.route == Splice(route, pos, placed)
    ensures res.Placed? ==> GapsOk(d, start, res.route)
    ensures push ==> (res.Rejected? <==> !CanPostpone(d, route, pos, placed))
    ensures !push ==> !res.Rejected?
    ensures (GapsOk(d, start, route) && Gap(d, Pred(start, route, pos), placed) &&
             (!push && pos < |route| ==> Gap(d, placed, route[pos]))) ==> !res.Halted?
    ensures res.Placed? && WindowsOk(route) && InWindow(placed) ==> WindowsOk(res.route)
  {
    if push then
      CanPostponeSpec(d, route, pos, placed);
      match PostponeAllFromStop(d, route, pos, placed)
      case None => Rejected
      case Some(w) =>
        PlaceFacts(d, start, route, pos, placed, true, w);
        AfterInsertion(d, start, Splice(w, pos, placed))
    else
      PlaceFacts(d, start, route, pos, placed, false, route);
      AfterInsertion(d, start, Splice(route, pos, placed))
  }

  /** What every insertStop revision promises about one call: a placed stop
      sits at `pos` at the earliest time it can be served after its
      predecessor, the other stops keep their order, the legs are checked,
      the exit happens only if the legs were already broken, and windows
      stay respected. */
  ghost predicate Lawful(d: Oracle, start: Stop, route: seq<Stop>, pos: int, stop: Stop, res: Placement)
  {
    && (res.Placed? ==>
          && Inserted(route, pos, stop, res.route)
          && res.route[pos].at == Arrival(d, Pred(start, route, pos), stop)
          && GapsOk(d, start, res.route))
    && (GapsOk(d, start, route) ==> !res.Halted?)
    && ((res.Placed? && WindowsOk(route) && stop.et <= stop.lt) ==> WindowsOk(res.route))
  }

  lemma PlaceFacts(d: Oracle, start: Stop, route: seq<Stop>, pos: int, placed: Stop, push: bool, w: seq<Stop>)
    requires 0 <= pos <= |route|
    requires Retimed(route, w) && w[..pos] == route[..pos]
    requires push ==> forall j :: pos <= j < |route| ==> Gap(d, Lead(placed, w, pos, j), w[j])
    requires push ==> Windowed(route) ==> forall j :: pos <= j < |route| ==> InWindow(w[j])
    requires !push ==> w == route
    ensures Inserted(route, pos, placed, Splice(w, pos, placed))
    ensures Splice(w, pos, placed)[pos + 1..] == w[pos..]
    ensures (GapsOk(d, start, route) && Gap(d, Pred(start, route, pos), placed) &&
             (!push && pos < |route| ==> Gap(d, placed, route[pos]))) ==> GapsOk(d, start, Splice(w, pos, placed))
    ensures WindowsOk(route) && InWindow(placed) ==> WindowsOk(Splice(w, pos, placed))
  {
    var r := Splice(w, pos, placed);
    assert r[..pos] == route[..pos] by {
      assert r[..pos] == w[..pos];
    }
    assert Retimed(route[pos..], r[pos + 1..]) by {
      assert r[pos + 1..] == w[pos..];
      forall j | 0 <= j < |route| - pos
        ensures r[pos + 1..][j] == route[pos..][j].(at := r[pos + 1..][j].at)
      {
        assert w[pos + j] == route[pos + j].(at := w[pos + j].at);
      }
    }
    if GapsOk(d, start, route) && Gap(d, Pred(start, route, pos), placed) &&
       (!push && pos < |route| ==> Gap(d, placed, route[pos])) {
      forall j | 0 <= j < |r|
        ensures Gap(d, Pred(start, r, j), r[j])
      {
        if j < pos {
          assert r[j] == route[j] && Pred(start, r, j) == Pred(start, route, j);
        } else if j == pos {
          assert Pred(start, r, j) == Pred(start, route, j);
        } else if push {
          assert Lead(placed, w, pos, j - 1) == Pred(start, r, j);
        } else {
          assert r[j] == route[j - 1];
          if j > pos + 1 {
            assert Pred(start, r, j) == Pred(start, route, j - 1);
          }
        }
      }
    }
    if WindowsOk(route) && InWindow(placed) {
      forall j | 0 <= j < |r|
        ensures InWindow(r[j])
      {
        if j < pos {
          assert r[j] == route[j];
        } else if j > pos && !push {
          assert r[j] == route[j - 1];
        }
      }
    }
  }
}
