/** The dispatcher (DialARide.java): the requests sorted by earliest pickup
    time, the fleet, the unserviced requests and the revenue, and the three
    scheduling passes that offer the requests to the taxis. */
module Dispatch {
  import opened Constants
  import opened Stops
  import opened Requests
  import opened Routes
  import opened Taxis
  import opened Sorting
  import opened Ranges

  /** The dispatcher's state. A request is named by its position in
      `requests`; `unserviced` lists the positions of the requests still in
      `unservicedRequests`, in that list's order. */
  datatype Dispatcher = Dispatcher(requests: seq<Request>, unserviced: seq<nat>, taxis: seq<Taxi>, revenue: int)

  /** A scheduling pass either runs to its end, giving the new state and,
      for every request, the taxi that took it in this pass (or -1), or
      stops with the exit of a taxi's consistency check. */
  datatype Run = Ran(state: Dispatcher, takenBy: seq<int>) | Stopped

  // ---------------------------------------------------------------------
  // Bookkeeping

  predicate Pickups(rs: seq<Request>)
  {
    forall j :: 0 <= j < |rs| ==> rs[j].pickUp.stopType == Pickup
  }

  predicate AllWellFormed(rs: seq<Request>)
  {
    forall j :: 0 <= j < |rs| ==> WellFormed(rs[j])
  }

  predicate Distinct(u: seq<nat>)
  {
    forall a, b :: 0 <= a < b < |u| ==> u[a] != u[b]
  }

  /** Position `x` was taken by some taxi. */
  predicate Taken(takenBy: seq<int>, x: nat)
  {
    x < |takenBy| && takenBy[x] >= 0
  }

  /** No request taken yet. */
  function Nobody(n: nat): (tb: seq<int>)
    ensures |tb| == n && forall x :: 0 <= x < n ==> !Taken(tb, x)
  {
    seq(n, _ => -1)
  }

  /** The positions 0, 1, ..., n-1. */
  function Range(n: nat): (u: seq<nat>)
    ensures |u| == n && Distinct(u)
    ensures forall x :: 0 <= x < n ==> u[x] == x
  {
    seq(n, x => x)
  }

  /** The first position of `x` in `u`. */
  function FirstIndex(u: seq<nat>, x: nat): (i: nat)
    requires x in u
    ensures i < |u| && u[i] == x
    ensures forall m :: 0 <= m < i ==> u[m] != x
  {
    if u[0] == x then 0 else 1 + FirstIndex(u[1..], x)
  }

  /** `LinkedList.remove(Object)`: drops the first occurrence of `x`, if
      any (see RemoveFirstSpec). */
  function RemoveFirst(u: seq<nat>, x: nat): seq<nat>
  {
    if u == [] then []
    else if u[0] == x then u[1..]
    else [u[0]] + RemoveFirst(u[1..], x)
  }

  /** RemoveFirst leaves a list without `x` alone and otherwise cuts out
      exactly the first `x`. */
  lemma {:induction false} RemoveFirstSpec(u: seq<nat>, x: nat)
    ensures x !in u ==> RemoveFirst(u, x) == u
    ensures x in u ==> RemoveFirst(u, x) == u[..FirstIndex(u, x)] + u[FirstIndex(u, x) + 1..]
  {
    if u != [] && u[0] != x {
      RemoveFirstSpec(u[1..], x);
      if x in u[1..] {
        var i := FirstIndex(u[1..], x);
        assert FirstIndex(u, x) == i + 1;
        assert u[..i + 1] == [u[0]] + u[1..][..i];
        assert u[i + 2..] == u[1..][i + 1..];
      } else {
        assert u == [u[0]] + u[1..];
      }
    }
  }

  /** Removing `x` from a list that does not start with it keeps the head. */
  lemma RemoveFirstPast(a: nat, rest: seq<nat>, x: nat)
    requires a != x
    ensures RemoveFirst([a] + rest, x) == [a] + RemoveFirst(rest, x)
  {
    assert ([a] + rest)[1..] == rest;
  }

  /** The positions of `u` that were not taken, in order. */
  function Keep(u: seq<nat>, takenBy: seq<int>): seq<nat>
  {
    if u == [] then []
    else (if Taken(takenBy, u[0]) then [] else [u[0]]) + Keep(u[1..], takenBy)
  }

  lemma {:induction false} KeepMembers(u: seq<nat>, takenBy: seq<int>, x: nat)
    ensures x in Keep(u, takenBy) <==> x in u && !Taken(takenBy, x)
  {
    if u != [] {
      KeepMembers(u[1..], takenBy, x);
      assert x in u <==> x == u[0] || x in u[1..];
    }
  }

  /** Marking a position that does not occur in `u` changes nothing. */
  lemma {:induction false} KeepIgnores(u: seq<nat>, takenBy: seq<int>, j: nat, k: int)
    requires j < |takenBy| && j !in u
    ensures Keep(u, takenBy[j := k]) == Keep(u, takenBy)
  {
    if u != [] {
      KeepIgnores(u[1..], takenBy, j, k);
    }
  }

  /** Removing a taken request from the unserviced list is the same as
      marking its position taken, provided the list has no repeats. */
  lemma {:induction false} KeepTake(u: seq<nat>, takenBy: seq<int>, j: nat, k: int)
    requires Distinct(u) && j < |takenBy| && k >= 0
    ensures RemoveFirst(Keep(u, takenBy), j) == Keep(u, takenBy[j := k])
  {
    var tb' := takenBy[j := k];
    if u != [] {
      var k1 := Keep(u[1..], takenBy);
      assert Distinct(u[1..]);
      if u[0] == j {
        assert j !in u[1..];
        KeepIgnores(u[1..], takenBy, j, k);
        assert Keep(u, tb') == k1;
        if Taken(takenBy, j) {
          KeepMembers(u[1..], takenBy, j);
          RemoveFirstSpec(k1, j);
          assert Keep(u, takenBy) == k1;
        } else {
          assert Keep(u, takenBy) == [j] + k1;
          assert ([j] + k1)[1..] == k1;
        }
      } else {
        KeepTake(u[1..], takenBy, j, k);
        assert Taken(tb', u[0]) == Taken(takenBy, u[0]);
        if Taken(takenBy, u[0]) {
          assert Keep(u, takenBy) == k1;
          assert Keep(u, tb') == Keep(u[1..], tb');
        } else {
          assert Keep(u, takenBy) == [u[0]] + k1;
          RemoveFirstPast(u[0], k1, j);
        }
      }
    }
  }

  lemma {:induction false} KeepNone(u: seq<nat>, n: nat)
    ensures Keep(u, Nobody(n)) == u
  {
    if u != [] {
      KeepNone(u[1..], n);
    }
  }

  /** The sum of `vals[x]` over the taken positions `x`. */
  function SumTaken(vals: seq<int>, takenBy: seq<int>): int
    requires |vals| == |takenBy|
  {
    if vals == [] then 0
    else SumTaken(vals[..|vals| - 1], takenBy[..|vals| - 1]) + (if takenBy[|vals| - 1] >= 0 then vals[|vals| - 1] else 0)
  }

  lemma {:induction false} SumTakenNone(vals: seq<int>)
    ensures SumTaken(vals, Nobody(|vals|)) == 0
  {
    if vals != [] {
      assert Nobody(|vals|)[..|vals| - 1] == Nobody(|vals| - 1);
      SumTakenNone(vals[..|vals| - 1]);
    }
  }

  /** Taking one more position adds its value. */
  lemma {:induction false} SumTake(vals: seq<int>, takenBy: seq<int>, j: nat, k: int)
    requires |vals| == |takenBy| && j < |vals| && takenBy[j] < 0 && k >= 0
    ensures SumTaken(vals, takenBy[j := k]) == SumTaken(vals, takenBy) + vals[j]
  {
    var n := |vals| - 1;
    if j < n {
      assert takenBy[j := k][..n] == takenBy[..n][j := k];
      SumTake(vals[..n], takenBy[..n], j, k);
    } else {
      assert takenBy[j := k][..n] == takenBy[..n];
    }
  }

  /** The fare each request was priced at. */
  function Costs(rs: seq<Request>): (c: seq<int>)
    ensures |c| == |rs| && forall j :: 0 <= j < |rs| ==> c[j] == rs[j].spCost
  {
    seq(|rs|, j requires 0 <= j < |rs| => rs[j].spCost)
  }

  /** The fare each request pays its taxi: the direct ride's price. */
  function Fares(d: Oracle, rs: seq<Request>): (c: seq<int>)
    ensures |c| == |rs| && forall j :: 0 <= j < |rs| ==> c[j] == DistTo(d, rs[j].pickUp, rs[j].drop) * RatePerKm
  {
    seq(|rs|, j requires 0 <= j < |rs| => DistTo(d, rs[j].pickUp, rs[j].drop) * RatePerKm)
  }

  /** The dispatcher's takings from the requests taken. */
  function Earned(rs: seq<Request>, takenBy: seq<int>): int
    requires |rs| == |takenBy|
  {
    SumTaken(Costs(rs), takenBy)
  }

  /** With every request priced by the same oracle, the dispatcher earns
      what the taxis earn. */
  lemma EarnedIsFares(d: Oracle, rs: seq<Request>, takenBy: seq<int>)
    requires |rs| == |takenBy| && forall j :: 0 <= j < |rs| ==> Priced(d, rs[j])
    ensures Earned(rs, takenBy) == SumTaken(Fares(d, rs), takenBy)
  {
    assert Costs(rs) == Fares(d, rs);
  }

  function TotalRevenue(taxis: seq<Taxi>): int
  {
    if taxis == [] then 0 else TotalRevenue(taxis[..|taxis| - 1]) + taxis[|taxis| - 1].revenue
  }

  lemma {:induction false} TotalRevenueUpdate(taxis: seq<Taxi>, k: nat, t: Taxi)
    requires k < |taxis|
    ensures TotalRevenue(taxis[k := t]) == TotalRevenue(taxis) - taxis[k].revenue + t.revenue
  {
    var n := |taxis| - 1;
    if k < n {
      assert taxis[k := t][..n] == taxis[..n][k := t];
      TotalRevenueUpdate(taxis[..n], k, t);
    } else {
      assert taxis[k := t][..n] == taxis[..n];
    }
  }

  /** Every taxi's legs cover their travel times. */
  ghost predicate FleetGaps(d: Oracle, taxis: seq<Taxi>)
  {
    forall k :: 0 <= k < |taxis| ==> GapsOk(d, taxis[k].start, taxis[k].route)
  }

  /** Every taxi passes check(), has dropped everyone it picked up and has
      room for at least one passenger. */
  ghost predicate FleetSound(d: Oracle, taxis: seq<Taxi>)
  {
    forall k :: 0 <= k < |taxis| ==> Sound(d, taxis[k].start, taxis[k].capacity, taxis[k].route) && taxis[k].capacity >= 1
  }

  /** The same taxis: ids, start stops and capacities never change. */
  predicate SameFleet(a: seq<Taxi>, b: seq<Taxi>)
  {
    |a| == |b| && forall k :: 0 <= k < |a| ==> b[k].id == a[k].id && b[k].start == a[k].start && b[k].capacity == a[k].capacity
  }

  /** The dispatcher's books between `st0`, where a pass started, and
      `st`, with the requests taken so far recorded in `takenBy`: the
      unserviced list lost exactly the taken requests and the revenue grew
      by their fares. */
  ghost predicate Ledger(st0: Dispatcher, st: Dispatcher, takenBy: seq<int>)
  {
    && st.requests == st0.requests
    && |takenBy| == |st0.requests|
    && st.unserviced == Keep(st0.unserviced, takenBy)
    && st.revenue == st0.revenue + Earned(st0.requests, takenBy)
  }

  /** The fleet between `taxis0` and `taxis`: the same taxis, whose revenue
      grew by the fares of the requests they took, and whose route
      invariants still hold. */
  ghost predicate FleetKept(d: Oracle, rs: seq<Request>, taxis0: seq<Taxi>, taxis: seq<Taxi>, takenBy: seq<int>)
    requires |takenBy| == |rs|
  {
    && SameFleet(taxis0, taxis)
    && (forall x :: 0 <= x < |takenBy| && takenBy[x] >= 0 ==> takenBy[x] < |taxis|)
    && TotalRevenue(taxis) == TotalRevenue(taxis0) + SumTaken(Fares(d, rs), takenBy)
    && (FleetGaps(d, taxis0) ==> FleetGaps(d, taxis))
    && (FleetSound(d, taxis0) && AllWellFormed(rs) ==> FleetSound(d, taxis))
  }

  /** What a pass keeps: the books and the fleet. */
  ghost predicate Accounted(d: Oracle, st0: Dispatcher, st: Dispatcher, takenBy: seq<int>)
  {
    Ledger(st0, st, takenBy) && FleetKept(d, st0.requests, st0.taxis, st.taxis, takenBy)
  }

  /** A pass starts accounted for. */
  lemma AccountedStart(d: Oracle, st: Dispatcher)
    ensures Accounted(d, st, st, Nobody(|st.requests|))
  {
    KeepNone(st.unserviced, |st.requests|);
    SumTakenNone(Costs(st.requests));
    SumTakenNone(Fares(d, st.requests));
  }

  // ---------------------------------------------------------------------
  // Offering one request

  /** Offering a request to taxis in a given order, as the inner loops do. */
  datatype Offer = Accepted(at: nat, taxis: seq<Taxi>) | Declined | Aborted

  /** Taxi `t` turns request `r` down and stays as it was. */
  ghost predicate Refuses(d: Oracle, t: Taxi, r: Request)
    requires r.pickUp.stopType == Pickup
  {
    Schedule(d, t, r) == Answer(false, t)
  }

  /** Taxi `t` takes request `r` and becomes `t'`. */
  ghost predicate Takes(d: Oracle, t: Taxi, r: Request, t': Taxi)
    requires r.pickUp.stopType == Pickup
  {
    Schedule(d, t, r) == Answer(true, t')
  }

  /** Offers `r` to the taxis `order[k..]` in turn until one accepts (the
      `break`). The taxi at position `at` of the order accepted and every
      taxi before it refused, leaving itself unchanged; if all refuse the
      fleet is unchanged. A taxi exits only on a broken leg. */
  function OfferInOrder(d: Oracle, taxis: seq<Taxi>, r: Request, order: seq<nat>, k: nat): (o: Offer)
    requires r.pickUp.stopType == Pickup
    requires forall m :: 0 <= m < |order| ==> order[m] < |taxis|
    requires k <= |order|
    ensures o.Accepted? ==> k <= o.at < |order|
    ensures o.Accepted? ==> |o.taxis| == |taxis| && Takes(d, taxis[order[o.at]], r, o.taxis[order[o.at]])
    ensures o.Accepted? ==> o.taxis == taxis[order[o.at] := o.taxis[order[o.at]]]
    ensures FleetGaps(d, taxis) ==> !o.Aborted?
    decreases |order| - k
  {
    if k == |order| then Declined
    else
      var a := Schedule(d, taxis[order[k]], r);
      if a.Exited? then Aborted
      else if a.ok then Accepted(k, taxis[order[k] := a.taxi])
      else OfferInOrder(d, taxis, r, order, k + 1)
  }

  /** Whether the taxi at position `m` of the order refuses `r`. */
  ghost function RefusesAt(d: Oracle, taxis: seq<Taxi>, r: Request, order: seq<nat>): nat -> bool
    requires r.pickUp.stopType == Pickup
    requires forall m :: 0 <= m < |order| ==> order[m] < |taxis|
  {
    (m: nat) => m < |order| && Refuses(d, taxis[order[m]], r)
  }

  /** The taxis `order[k..at]` all refuse `r`. */
  ghost predicate AllRefuse(d: Oracle, taxis: seq<Taxi>, r: Request, order: seq<nat>, k: nat, at: nat)
    requires r.pickUp.stopType == Pickup
    requires forall m :: 0 <= m < |order| ==> order[m] < |taxis|
  {
    AllFrom(RefusesAt(d, taxis, r, order), k, at)
  }

  /** Every taxi offered the request before the one that accepted, or every
      taxi if none accepted, refused it. */
  lemma {:induction false} OfferRefusals(d: Oracle, taxis: seq<Taxi>, r: Request, order: seq<nat>, k: nat)
    requires r.pickUp.stopType == Pickup
    requires forall m :: 0 <= m < |order| ==> order[m] < |taxis|
    requires k <= |order|
    ensures var o := OfferInOrder(d, taxis, r, order, k);
      o.Accepted? ==> AllRefuse(d, taxis, r, order, k, o.at)
    ensures var o := OfferInOrder(d, taxis, r, order, k);
      o.Declined? ==> AllRefuse(d, taxis, r, order, k, |order|)
    decreases |order| - k
  {
    var p := RefusesAt(d, taxis, r, order);
    if k < |order| {
      var a := Schedule(d, taxis[order[k]], r);
      if a.Answer? && !a.ok {
        assert p(k);
        OfferRefusals(d, taxis, r, order, k + 1);
        var o := OfferInOrder(d, taxis, r, order, k + 1);
        assert OfferInOrder(d, taxis, r, order, k) == o;
        if o.Accepted? {
          AllFromCons(p, k, o.at);
        } else if o.Declined? {
          AllFromCons(p, k, |order|);
        }
      }
    }
  }

  /** The same, taxi by taxi. */
  lemma Refusals(d: Oracle, taxis: seq<Taxi>, r: Request, order: seq<nat>, k: nat)
    requires r.pickUp.stopType == Pickup
    requires forall m :: 0 <= m < |order| ==> order[m] < |taxis|
    requires k <= |order|
    ensures var o := OfferInOrder(d, taxis, r, order, k);
      o.Accepted? ==> forall m :: k <= m < o.at ==> Refuses(d, taxis[order[m]], r)
    ensures var o := OfferInOrder(d, taxis, r, order, k);
      o.Declined? ==> forall m :: k <= m < |order| ==> Refuses(d, taxis[order[m]], r)
  {
    OfferRefusals(d, taxis, r, order, k);
    var o := OfferInOrder(d, taxis, r, order, k);
    var at := if o.Accepted? then o.at else |order|;
    if o.Accepted? || o.Declined? {
      forall m | k <= m < at
        ensures Refuses(d, taxis[order[m]], r)
      {
        AllFromAt(RefusesAt(d, taxis, r, order), k, at, m);
      }
    }
  }

  /** What a taxi that takes a request keeps and gains. */
  lemma TakeFacts(d: Oracle, t: Taxi, r: Request, t': Taxi)
    requires r.pickUp.stopType == Pickup && Takes(d, t, r, t')
    ensures t'.id == t.id && t'.start == t.start && t'.capacity == t.capacity
    ensures t'.revenue == t.revenue + DistTo(d, r.pickUp, r.drop) * RatePerKm
    ensures GapsOk(d, t'.start, t'.route)
    ensures (Sound(d, t.start, t.capacity, t.route) && t.capacity >= 1 && WellFormed(r)) ==> Sound(d, t'.start, t'.capacity, t'.route)
  {
  }

  /** Taxi `taker` took request `j`: the bookkeeping stays accounted for. */
  lemma Accept(d: Oracle, st0: Dispatcher, st: Dispatcher, takenBy: seq<int>, j: nat, taker: nat, taxis: seq<Taxi>)
    requires Accounted(d, st0, st, takenBy) && Distinct(st0.unserviced)
    requires j < |st.requests| && takenBy[j] < 0 && taker < |st.taxis|
    requires st.requests[j].pickUp.stopType == Pickup
    requires |taxis| == |st.taxis| && Takes(d, st.taxis[taker], st.requests[j], taxis[taker])
    requires taxis == st.taxis[taker := taxis[taker]]
    ensures Accounted(d, st0, Dispatcher(st.requests, RemoveFirst(st.unserviced, j), taxis, st.revenue + st.requests[j].spCost), takenBy[j := taker])
  {
    AcceptLedger(st0, st, takenBy, j, taker);
    TakeFacts(d, st.taxis[taker], st.requests[j], taxis[taker]);
    AcceptFleet(d, st0.requests, st0.taxis, st.taxis, takenBy, j, taker, taxis);
  }

  lemma AcceptLedger(st0: Dispatcher, st: Dispatcher, takenBy: seq<int>, j: nat, taker: nat)
    requires Ledger(st0, st, takenBy) && Distinct(st0.unserviced)
    requires j < |st.requests| && takenBy[j] < 0
    ensures Ledger(st0, Dispatcher(st.requests, RemoveFirst(st.unserviced, j), st.taxis, st.revenue + st.requests[j].spCost), takenBy[j := taker])
  {
    KeepTake(st0.unserviced, takenBy, j, taker);
    SumTake(Costs(st.requests), takenBy, j, taker);
  }

  lemma AcceptFleet(d: Oracle, rs: seq<Request>, taxis0: seq<Taxi>, taxis1: seq<Taxi>, takenBy: seq<int>, j: nat, taker: nat, taxis: seq<Taxi>)
    requires |takenBy| == |rs| && FleetKept(d, rs, taxis0, taxis1, takenBy)
    requires j < |rs| && takenBy[j] < 0 && taker < |taxis1|
    requires |taxis| == |taxis1| && taxis == taxis1[taker := taxis[taker]]
    requires var t, t' := taxis1[taker], taxis[taker];
             && t'.id == t.id && t'.start == t.start && t'.capacity == t.capacity
             && t'.revenue == t.revenue + DistTo(d, rs[j].pickUp, rs[j].drop) * RatePerKm
             && GapsOk(d, t'.start, t'.route)
             && ((Sound(d, t.start, t.capacity, t.route) && t.capacity >= 1 && WellFormed(rs[j])) ==> Sound(d, t'.start, t'.capacity, t'.route))
    ensures FleetKept(d, rs, taxis0, taxis, takenBy[j := taker])
  {
    var t, t' := taxis1[taker], taxis[taker];
    SumTake(Fares(d, rs), takenBy, j, taker);
    TotalRevenueUpdate(taxis1, taker, t');
    SameFleetUpdate(taxis0, taxis1, taker, t');
    FleetGapsUpdate(d, taxis1, taker, t');
    if FleetSound(d, taxis0) && AllWellFormed(rs) {
      assert WellFormed(rs[j]);
      assert Sound(d, t.start, t.capacity, t.route) && t.capacity >= 1;
      FleetSoundUpdate(d, taxis1, taker, t');
    }
  }

  lemma SameFleetUpdate(taxis0: seq<Taxi>, taxis1: seq<Taxi>, k: nat, t: Taxi)
    requires k < |taxis1| && SameFleet(taxis0, taxis1)
    requires t.id == taxis1[k].id && t.start == taxis1[k].start && t.capacity == taxis1[k].capacity
    ensures SameFleet(taxis0, taxis1[k := t])
  {
  }

  lemma FleetGapsUpdate(d: Oracle, taxis: seq<Taxi>, k: nat, t: Taxi)
    requires k < |taxis| && GapsOk(d, t.start, t.route)
    ensures FleetGaps(d, taxis) ==> FleetGaps(d, taxis[k := t])
  {
  }

  lemma FleetSoundUpdate(d: Oracle, taxis: seq<Taxi>, k: nat, t: Taxi)
    requires k < |taxis| && FleetSound(d, taxis)
    requires t.capacity == taxis[k].capacity && Sound(d, t.start, t.capacity, t.route)
    ensures FleetSound(d, taxis[k := t])
  {
  }

  // ---------------------------------------------------------------------
  // schedule1 and schedule3

  /** The order in which schedule1 and schedule3 offer a request. */
  datatype Policy = FleetOrder | NearestFirst

  /** How far a taxi is from a request's pickup at its earliest time. */
  datatype NearestTaxi = NearestTaxi(taxi: nat, dist: int)

  /** NearestTaxi.compareTo: the sign of the difference of the distances. */
  function CompareNearest(a: NearestTaxi, b: NearestTaxi): (c: int)
    ensures c < 0 <==> a.dist < b.dist
    ensures c == 0 <==> a.dist == b.dist
    ensures c > 0 <==> a.dist > b.dist
  {
    a.dist - b.dist
  }

  /** One NearestTaxi per taxi, in fleet order. */
  function Nearest(d: Oracle, taxis: seq<Taxi>, r: Request): (ns: seq<NearestTaxi>)
    ensures |ns| == |taxis|
    ensures forall k :: 0 <= k < |ns| ==> ns[k] == NearestTaxi(k, Dist(d, taxis[k], r.pickUp.et, r.pickUp))
  {
    seq(|taxis|, k requires 0 <= k < |taxis| => NearestTaxi(k, Dist(d, taxis[k], r.pickUp.et, r.pickUp)))
  }

  function ByDistance(n: NearestTaxi): int
  {
    n.dist
  }

  /** schedule3's order: every taxi once, nearest to the pickup first, and
      equally near taxis in fleet order. */
  function NearestOrder(d: Oracle, taxis: seq<Taxi>, r: Request): (order: seq<nat>)
    ensures |order| == |taxis| && Distinct(order)
    ensures forall m :: 0 <= m < |order| ==> order[m] < |taxis|
    ensures forall a, b :: 0 <= a < b < |order| ==>
              Dist(d, taxis[order[a]], r.pickUp.et, r.pickUp) <= Dist(d, taxis[order[b]], r.pickUp.et, r.pickUp)
    ensures forall a, b :: 0 <= a < b < |order| && Dist(d, taxis[order[a]], r.pickUp.et, r.pickUp) == Dist(d, taxis[order[b]], r.pickUp.et, r.pickUp) ==>
              order[a] < order[b]
  {
    var ns := Nearest(d, taxis, r);
    var sorted := Sort(ns, ByDistance);
    NearestSorted(d, taxis, r, ns, sorted);
    var order := TaxiNumbers(sorted);
    TaxiNumbersOrdered(d, taxis, r, sorted, order);
    order
  }

  /** The taxi numbers of a NearestTaxi list, in list order. */
  function TaxiNumbers(sorted: seq<NearestTaxi>): (order: seq<nat>)
    ensures |order| == |sorted|
    ensures forall m :: 0 <= m < |sorted| ==> order[m] == sorted[m].taxi
  {
    seq(|sorted|, m requires 0 <= m < |sorted| => sorted[m].taxi)
  }

  /** Carries the facts about the sorted list over to its taxi numbers. */
  lemma TaxiNumbersOrdered(d: Oracle, taxis: seq<Taxi>, r: Request, sorted: seq<NearestTaxi>, order: seq<nat>)
    requires |sorted| == |taxis|
    requires forall m :: 0 <= m < |sorted| ==> sorted[m].taxi < |taxis| && sorted[m].dist == Dist(d, taxis[sorted[m].taxi], r.pickUp.et, r.pickUp)
    requires SortedBy(sorted, ByDistance)
    requires forall a, b :: 0 <= a < b < |sorted| && sorted[a].dist == sorted[b].dist ==> sorted[a].taxi < sorted[b].taxi
    requires forall a, b :: 0 <= a < b < |sorted| ==> sorted[a].taxi != sorted[b].taxi
    requires |order| == |sorted| && forall m :: 0 <= m < |sorted| ==> order[m] == sorted[m].taxi
    ensures |order| == |taxis| && Distinct(order)
    ensures forall m :: 0 <= m < |order| ==> order[m] < |taxis|
    ensures forall a, b :: 0 <= a < b < |order| ==>
              Dist(d, taxis[order[a]], r.pickUp.et, r.pickUp) <= Dist(d, taxis[order[b]], r.pickUp.et, r.pickUp)
    ensures forall a, b :: 0 <= a < b < |order| && Dist(d, taxis[order[a]], r.pickUp.et, r.pickUp) == Dist(d, taxis[order[b]], r.pickUp.et, r.pickUp) ==>
              order[a] < order[b]
  {
    forall a, b | 0 <= a < b < |order|
      ensures Dist(d, taxis[order[a]], r.pickUp.et, r.pickUp) <= Dist(d, taxis[order[b]], r.pickUp.et, r.pickUp)
    {
      assert ByDistance(sorted[a]) <= ByDistance(sorted[b]);
    }
  }

  /** The facts about the sorted NearestTaxi list behind NearestOrder. */
  lemma NearestSorted(d: Oracle, taxis: seq<Taxi>, r: Request, ns: seq<NearestTaxi>, sorted: seq<NearestTaxi>)
    requires ns == Nearest(d, taxis, r)
    requires SortedBy(sorted, ByDistance) && multiset(sorted) == multiset(ns) && Stable(ns, sorted, ByDistance)
    ensures |sorted| == |taxis|
    ensures forall m :: 0 <= m < |sorted| ==> sorted[m].taxi < |taxis| && sorted[m].dist == Dist(d, taxis[sorted[m].taxi], r.pickUp.et, r.pickUp)
    ensures forall a, b :: 0 <= a < b < |sorted| && sorted[a].dist == sorted[b].dist ==> sorted[a].taxi < sorted[b].taxi
    ensures forall a, b :: 0 <= a < b < |sorted| ==> sorted[a].taxi != sorted[b].taxi
  {
    assert |sorted| == |multiset(sorted)| == |multiset(ns)| == |ns|;
    forall m | 0 <= m < |sorted|
      ensures sorted[m].taxi < |taxis| && sorted[m].dist == Dist(d, taxis[sorted[m].taxi], r.pickUp.et, r.pickUp)
    {
      assert sorted[m] in multiset(ns);
    }
    forall a, b | 0 <= a < b < |sorted| && sorted[a].dist == sorted[b].dist
      ensures sorted[a].taxi < sorted[b].taxi
    {
      var k := sorted[a].dist;
      WithKeyOrder(sorted, ByDistance, k, a, b);
      var p, q :| 0 <= p < q < |WithKey(sorted, ByDistance, k)| && WithKey(sorted, ByDistance, k)[p] == sorted[a] && WithKey(sorted, ByDistance, k)[q] == sorted[b];
      WithKeyKeepsIncreasing(ns, ByDistance, k);
    }
  }

  /** The part of a list with increasing taxi numbers that has one key
      again has increasing taxi numbers. */
  lemma {:induction false} WithKeyKeepsIncreasing(s: seq<NearestTaxi>, key: NearestTaxi -> int, k: int)
    requires forall a, b :: 0 <= a < b < |s| ==> s[a].taxi < s[b].taxi
    ensures forall p, q :: 0 <= p < q < |WithKey(s, key, k)| ==> WithKey(s, key, k)[p].taxi < WithKey(s, key, k)[q].taxi
  {
    if s != [] {
      var front, last := s[..|s| - 1], s[|s| - 1];
      var wf, w := WithKey(front, key, k), WithKey(s, key, k);
      assert w == wf + (if key(last) == k then [last] else []);
      WithKeyKeepsIncreasing(front, key, k);
      forall p, q | 0 <= p < q < |w|
        ensures w[p].taxi < w[q].taxi
      {
        if q == |wf| {
          WithKeyFrom(front, key, k, p);
          var a :| 0 <= a < |front| && wf[p] == front[a];
          assert s[a] == front[a];
        }
      }
    }
  }

  /** The order a policy offers a request to the fleet in. */
  function Order(policy: Policy, d: Oracle, taxis: seq<Taxi>, r: Request): (order: seq<nat>)
    ensures forall m :: 0 <= m < |order| ==> order[m] < |taxis|
  {
    match policy
    case FleetOrder => Range(|taxis|)
    case NearestFirst => NearestOrder(d, taxis, r)
  }

  /** The loop over the requests from `j` on: each is offered to the taxis
      in the policy's order and, once a taxi accepts it, is removed from the
      unserviced list and its fare added to the revenue. */
  function OfferFrom(policy: Policy, d: Oracle, st0: Dispatcher, st: Dispatcher, takenBy: seq<int>, j: nat): (res: Run)
    requires Pickups(st0.requests) && Distinct(st0.unserviced)
    requires Accounted(d, st0, st, takenBy) && j <= |st0.requests|
    requires forall m :: j <= m < |takenBy| ==> takenBy[m] < 0
    ensures res.Ran? ==> Accounted(d, st0, res.state, res.takenBy)
    ensures FleetGaps(d, st0.taxis) ==> res.Ran?
    decreases |st0.requests| - j
  {
    var rs := st.requests;
    if j == |rs| then Ran(st, takenBy)
    else
      var order := Order(policy, d, st.taxis, rs[j]);
      match OfferInOrder(d, st.taxis, rs[j], order, 0)
      case Aborted => Stopped
      case Declined => OfferFrom(policy, d, st0, st, takenBy, j + 1)
      case Accepted(at, taxis) =>
        Accept(d, st0, st, takenBy, j, order[at], taxis);
        var st' := Dispatcher(rs, RemoveFirst(st.unserviced, j), taxis, st.revenue + rs[j].spCost);
        OfferFrom(policy, d, st0, st', takenBy[j := order[at]], j + 1)
  }

  /** `schedule1()` (FleetOrder) and `schedule3()` (NearestFirst): one pass
      over the requests. The requests taken are exactly those no longer
      unserviced; the revenue grows by their fares, and so does the fleet's;
      the fleet's route invariants survive; and the pass stops only if a
      taxi already had a broken leg. */
  function Schedule13(policy: Policy, d: Oracle, st: Dispatcher): (res: Run)
    requires Pickups(st.requests) && Distinct(st.unserviced)
    ensures res.Ran? ==> Accounted(d, st, res.state, res.takenBy)
    ensures res.Ran? ==> forall x :: x in res.state.unserviced <==> x in st.unserviced && !Taken(res.takenBy, x)
    ensures FleetGaps(d, st.taxis) ==> res.Ran?
  {
    AccountedStart(d, st);
    var res := OfferFrom(policy, d, st, st, Nobody(|st.requests|), 0);
    Unserviced(st, res);
    res
  }

  lemma Unserviced(st: Dispatcher, res: Run)
    requires res.Ran? ==> res.state.unserviced == Keep(st.unserviced, res.takenBy)
    ensures res.Ran? ==> forall x :: x in res.state.unserviced <==> x in st.unserviced && !Taken(res.takenBy, x)
  {
    if res.Ran? {
      forall x {
        KeepMembers(st.unserviced, res.takenBy, x);
      }
    }
  }

  // ---------------------------------------------------------------------
  // schedule2

  /** The taxi whose stride holds request `m`: the strides start at taxis
      0 .. n-1 and step by n. */
  function Owner(m: nat, n: nat): nat
    requires n > 0
  {
    if m < n then m else Owner(m - n, n)
  }

  /** The owner of request `m` is taxi m mod n. */
  lemma {:induction false} OwnerIsMod(m: nat, n: nat)
    requires n > 0
    ensures Owner(m, n) == m % n
  {
    if m >= n {
      OwnerIsMod(m - n, n);
      var q := (m - n) / n;
      assert m - n == q * n + (m - n) % n;
      assert m == (q + 1) * n + (m - n) % n;
      ModUnique(m, n, q + 1, (m - n) % n);
    }
  }

  /** Euclidean division has one remainder. */
  lemma ModUnique(x: int, n: int, q: int, r: int)
    requires n > 0 && 0 <= r < n && x == q * n + r
    ensures x % n == r
  {
    var q', r' := x / n, x % n;
    assert x == q' * n + r';
    if q' > q {
      assert (q' - q) * n == r - r' by {
        assert q' * n - q * n == (q' - q) * n;
      }
      MulAtLeast(q' - q, n);
    } else if q' < q {
      assert (q - q') * n == r' - r by {
        assert q * n - q' * n == (q - q') * n;
      }
      MulAtLeast(q - q', n);
    }
  }

  lemma {:induction false} MulAtLeast(a: int, n: int)
    requires a >= 1 && n > 0
    ensures a * n >= n
    decreases a
  {
    if a > 1 {
      MulAtLeast(a - 1, n);
      assert a * n == (a - 1) * n + n;
    }
  }

  /** So far the owner of request m took it, if any taxi did, and only the
      strides of the taxis before `ti` and the part of taxi `ti`'s stride
      before `j` were offered. */
  ghost predicate Strided(takenBy: seq<int>, n: nat, ti: nat, j: nat)
  {
    n > 0 && forall m :: 0 <= m < |takenBy| && takenBy[m] >= 0 ==>
      takenBy[m] == Owner(m, n) && (Owner(m, n) < ti || (Owner(m, n) == ti && m < j))
  }

  /** A stride that ran off the end of the requests leaves the invariant
      for the next taxi. */
  lemma StrideDone(takenBy: seq<int>, n: nat, ti: nat, j: nat)
    requires Strided(takenBy, n, ti, j) && j >= |takenBy|
    ensures Strided(takenBy, n, ti + 1, 0)
  {
  }

  /** Taxi `ti` taking request `j` of its stride keeps the stride invariant
      for the next request of the stride. */
  lemma StrideStep(takenBy: seq<int>, n: nat, ti: nat, j: nat)
    requires Strided(takenBy, n, ti, j) && Owner(j, n) == ti && j < |takenBy|
    ensures takenBy[j] < 0
    ensures Strided(takenBy[j := ti], n, ti, j + n)
  {
  }

  /** Offering request `j` of the stride moves the invariant on. */
  lemma StrideLater(takenBy: seq<int>, n: nat, ti: nat, j: nat)
    requires Strided(takenBy, n, ti, j)
    ensures Strided(takenBy, n, ti, j + n)
  {
  }

  /** Requests `j` and `j + n` have the same owner. */
  lemma OwnerNext(j: nat, n: nat)
    requires n > 0
    ensures Owner(j + n, n) == Owner(j, n)
  {
  }

  /** Taxi `ti` taking request `j` of its stride keeps the ledger, the
      fleet facts and the stride invariant. */
  lemma StrideAccept(d: Oracle, st0: Dispatcher, st: Dispatcher, takenBy: seq<int>, ti: nat, j: nat, taxis: seq<Taxi>)
    requires Pickups(st0.requests) && Distinct(st0.unserviced)
    requires Accounted(d, st0, st, takenBy)
    requires ti < |st0.taxis| && Owner(j, |st0.taxis|) == ti && Strided(takenBy, |st0.taxis|, ti, j)
    requires j < |st.requests|
    requires |taxis| == |st.taxis| && Takes(d, st.taxis[ti], st.requests[j], taxis[ti])
    requires taxis == st.taxis[ti := taxis[ti]]
    ensures Accounted(d, st0, Dispatcher(st.requests, RemoveFirst(st.unserviced, j), taxis, st.revenue + st.requests[j].spCost), takenBy[j := ti])
    ensures Strided(takenBy[j := ti], |st0.taxis|, ti, j + |st0.taxis|)
  {
    StrideStep(takenBy, |st0.taxis|, ti, j);
    assert st.requests == st0.requests && |st.taxis| == |st0.taxis|;
    assert takenBy[j] < 0 && st.requests[j].pickUp.stopType == Pickup;
    Accept(d, st0, st, takenBy, j, ti, taxis);
  }

  /** The inner loop of `schedule2()`: taxi `ti` alone is offered requests
      j, j + n, j + 2n, ... where n is the number of taxis. */
  function Stride(d: Oracle, st0: Dispatcher, st: Dispatcher, takenBy: seq<int>, ti: nat, j: nat): (res: Run)
    requires Pickups(st0.requests) && Distinct(st0.unserviced)
    requires Accounted(d, st0, st, takenBy)
    requires ti < |st0.taxis| && Owner(j, |st0.taxis|) == ti && Strided(takenBy, |st0.taxis|, ti, j)
    ensures res.Ran? ==> Accounted(d, st0, res.state, res.takenBy)
    ensures res.Ran? ==> Strided(res.takenBy, |st0.taxis|, ti + 1, 0)
    ensures FleetGaps(d, st0.taxis) ==> res.Ran?
    decreases |st0.requests| + |st0.taxis| - j
  {
    var rs, n := st.requests, |st0.taxis|;
    if j >= |rs| then
      StrideDone(takenBy, n, ti, j);
      Ran(st, takenBy)
    else
      OwnerNext(j, n);
      var a := Schedule(d, st.taxis[ti], rs[j]);
      if a.Exited? then Stopped
      else if !a.ok then
        StrideLater(takenBy, n, ti, j);
        Stride(d, st0, st, takenBy, ti, j + n)
      else
        var taxis := st.taxis[ti := a.taxi];
        StrideAccept(d, st0, st, takenBy, ti, j, taxis);
        var st' := Dispatcher(rs, RemoveFirst(st.unserviced, j), taxis, st.revenue + rs[j].spCost);
        Stride(d, st0, st', takenBy[j := ti], ti, j + n)
  }

  /** The outer loop of `schedule2()` from taxi `ti` on. */
  function StridesFrom(d: Oracle, st0: Dispatcher, st: Dispatcher, takenBy: seq<int>, ti: nat): (res: Run)
    requires Pickups(st0.requests) && Distinct(st0.unserviced)
    requires Accounted(d, st0, st, takenBy) && ti <= |st0.taxis| && Strided(takenBy, |st0.taxis|, ti, 0)
    ensures res.Ran? ==> Accounted(d, st0, res.state, res.takenBy)
    ensures res.Ran? ==> Strided(res.takenBy, |st0.taxis|, |st0.taxis|, 0)
    ensures FleetGaps(d, st0.taxis) ==> res.Ran?
    decreases |st0.taxis| - ti
  {
    if ti == |st0.taxis| then Ran(st, takenBy)
    else
      match Stride(d, st0, st, takenBy, ti, ti)
      case Stopped => Stopped
      case Ran(st', takenBy') => StridesFrom(d, st0, st', takenBy', ti + 1)
  }

  /** `schedule2()`: with n taxis, request m is offered only to taxi
      m mod n, each taxi taking its requests in order; with no taxis
      nothing happens. The bookkeeping and the fleet's route invariants are
      kept as in the other passes. */
  function Schedule2(d: Oracle, st: Dispatcher): (res: Run)
    requires Pickups(st.requests) && Distinct(st.unserviced)
    ensures res.Ran? ==> Accounted(d, st, res.state, res.takenBy)
    ensures res.Ran? ==> forall m :: 0 <= m < |res.takenBy| && res.takenBy[m] >= 0 ==> res.takenBy[m] == m % |st.taxis|
    ensures res.Ran? ==> forall x :: x in res.state.unserviced <==> x in st.unserviced && !Taken(res.takenBy, x)
    ensures FleetGaps(d, st.taxis) ==> res.Ran?
  {
    AccountedStart(d, st);
    if |st.taxis| == 0 then
      var res := Ran(st, Nobody(|st.requests|));
      Unserviced(st, res);
      res
    else
      var res := StridesFrom(d, st, st, Nobody(|st.requests|), 0);
      Unserviced(st, res);
      StridedIsMod(res, |st.taxis|);
      res
  }

  lemma StridedIsMod(res: Run, n: nat)
    requires res.Ran? ==> Strided(res.takenBy, n, n, 0)
    ensures res.Ran? ==> forall m :: 0 <= m < |res.takenBy| && res.takenBy[m] >= 0 ==> res.takenBy[m] == m % n
  {
    if res.Ran? {
      forall m | 0 <= m < |res.takenBy| && res.takenBy[m] >= 0
        ensures res.takenBy[m] == m % n
      {
        OwnerIsMod(m, n);
      }
    }
  }

  // ---------------------------------------------------------------------
  // The constructor

  function ByPickupTime(r: Request): int
  {
    r.pickUp.et
  }

  /** `new DialARide(requests, taxis, cityMap)`: sorts the requests by
      earliest pickup time, keeping requests with equal times in their
      given order; makes every request unserviced; starts with no revenue;
      and runs schedule1. After the pass the unserviced requests are
      exactly the ones no taxi took, still in sorted order, the revenue is
      their total fare, and the pass stops only if a taxi was given with a broken leg. */
  function Create(d: Oracle, requests: seq<Request>, taxis: seq<Taxi>): (res: Run)
    requires Pickups(requests)
    ensures res.Ran? ==>
              && SortedBy(res.state.requests, ByPickupTime)
              && multiset(res.state.requests) == multiset(requests)
              && Stable(requests, res.state.requests, ByPickupTime)
    ensures res.Ran? ==> |res.takenBy| == |res.state.requests| == |requests|
    ensures res.Ran? ==> forall x :: x in res.state.unserviced <==> 0 <= x < |requests| && !Taken(res.takenBy, x)
    ensures res.Ran? ==> res.state.unserviced == Keep(Range(|requests|), res.takenBy)
    ensures res.Ran? ==> res.state.revenue == Earned(res.state.requests, res.takenBy)
    ensures res.Ran? ==> SameFleet(taxis, res.state.taxis)
    ensures res.Ran? ==> TotalRevenue(res.state.taxis) == TotalRevenue(taxis) + SumTaken(Fares(d, res.state.requests), res.takenBy)
    ensures FleetGaps(d, taxis) ==> res.Ran?
    ensures (res.Ran? && FleetSound(d, taxis) && AllWellFormed(requests)) ==> FleetSound(d, res.state.taxis)
  {
    var sorted := Sort(requests, ByPickupTime);
    SortedPickups(requests, sorted);
    var st := Dispatcher(sorted, Range(|sorted|), taxis, 0);
    var res := Schedule13(FleetOrder, d, st);
    Created(d, requests, taxis, st, res);
    res
  }

  /** The facts of a schedule1 pass, read for a fresh dispatcher. */
  lemma Created(d: Oracle, requests: seq<Request>, taxis: seq<Taxi>, st: Dispatcher, res: Run)
    requires st.unserviced == Range(|requests|) && st.taxis == taxis && st.revenue == 0
    requires multiset(st.requests) == multiset(requests) && |st.requests| == |requests|
    requires AllWellFormed(requests) ==> AllWellFormed(st.requests)
    requires res.Ran? ==> Accounted(d, st, res.state, res.takenBy)
    requires res.Ran? ==> forall x :: x in res.state.unserviced <==> x in st.unserviced && !Taken(res.takenBy, x)
    ensures res.Ran? ==> forall x :: x in res.state.unserviced <==> 0 <= x < |requests| && !Taken(res.takenBy, x)
    ensures res.Ran? ==> res.state.unserviced == Keep(Range(|requests|), res.takenBy)
    ensures res.Ran? ==> res.state.revenue == Earned(res.state.requests, res.takenBy)
    ensures res.Ran? ==> SameFleet(taxis, res.state.taxis)
    ensures res.Ran? ==> TotalRevenue(res.state.taxis) == TotalRevenue(taxis) + SumTaken(Fares(d, res.state.requests), res.takenBy)
    ensures (res.Ran? && FleetSound(d, taxis) && AllWellFormed(requests)) ==> FleetSound(d, res.state.taxis)
  {
    if res.Ran? {
      forall x: nat
        ensures x in st.unserviced <==> 0 <= x < |requests|
      {
        if 0 <= x < |requests| {
          assert st.unserviced[x] == x;
        }
      }
    }
  }

  /** Sorting keeps every request, so it keeps the pickups and the well
      formedness. */
  lemma SortedPickups(requests: seq<Request>, sorted: seq<Request>)
    requires multiset(sorted) == multiset(requests) && Pickups(requests)
    ensures Pickups(sorted)
    ensures AllWellFormed(requests) ==> AllWellFormed(sorted)
  {
    forall j | 0 <= j < |sorted|
      ensures sorted[j] in requests
    {
      assert sorted[j] in multiset(requests);
    }
  }
}
