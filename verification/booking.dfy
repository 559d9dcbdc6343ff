/** The request-insertion loop shared by Taxi.schedule and
    TaxiSchedule.insertRequest: try each pickup position in turn, then each
    later drop position, counting passengers, and roll the route back when
    the drop cannot follow the pickup. The two revisions differ only in the
    insertStop they call. */
module Booking {
  import opened Stops
  import opened Routes
  import TaxiStops
  import ScheduleStops

  /** Which revision's insertStop the loop calls. */
  datatype Engine = TaxiEngine | ScheduleEngine

  function Insert(e: Engine, d: Oracle, start: Stop, route: seq<Stop>, pos: int, stop: Stop): (res: Placement)
    requires 0 <= pos
    requires pos == 0 ==> stop.stopType == Pickup
    ensures pos > |route| ==> res == Rejected
    ensures Lawful(d, start, route, pos, stop, res)
  {
    match e
    case TaxiEngine => TaxiStops.InsertStop(d, start, route, pos, stop)
    case ScheduleEngine => ScheduleStops.InsertStop(d, start, route, pos, stop)
  }

  /** The outcome of inserting a request: the new route with the positions
      of the pickup and the drop, a refusal with the route left after it, or
      the exit of checkScheduleAfterInsertion. */
  datatype Outcome = Booked(route: seq<Stop>, pickAt: nat, dropAt: nat) | Refused(route: seq<Stop>) | Exited

  /** `r` is `route` with the pickup placed at `i` and the drop at `j > i`;
      the stops before the pickup are untouched, the others keep their order
      and may have been retimed. */
  predicate PairInserted(route: seq<Stop>, i: int, j: int, pickup: Stop, drop: Stop, r: seq<Stop>)
  {
    && 0 <= i < j < |r| && |r| == |route| + 2
    && r[..i] == route[..i]
    && r[i] == pickup.(at := r[i].at)
    && r[j] == drop.(at := r[j].at)
    && Retimed(route, Without(Without(r, j), i))
  }

  /** The drop loop: with the pickup at `i` of `r1`, try the drop before
      each stop from position `k` on, giving up (for a rollback) as soon as
      the passengers on board before that stop exceed the capacity; then
      try the drop last. On success every load checked on the way was within
      capacity. */
  function TryDrop(e: Engine, d: Oracle, start: Stop, capacity: int, r1: seq<Stop>, drop: Stop, i: nat, k: nat): (res: Outcome)
    requires i < k <= |r1|
    ensures res.Refused? ==> res.route == r1
    ensures res.Booked? ==> res.pickAt == i && k <= res.dropAt <= |r1| && Inserted(r1, res.dropAt, drop, res.route)
    ensures res.Booked? ==> forall m :: k <= m <= res.dropAt && m < |r1| ==> Load(r1[..m]) <= capacity
    ensures res.Booked? ==> GapsOk(d, start, res.route)
    ensures GapsOk(d, start, r1) ==> !res.Exited?
    ensures (res.Booked? && WindowsOk(r1) && drop.et <= drop.lt) ==> WindowsOk(res.route)
    decreases |r1| - k
  {
    if k < |r1| then
      if Load(r1[..k]) > capacity then Refused(r1)
      else
        var res := DropStep(e, d, start, r1, drop, i, k);
        if res.Refused? then
          var later := TryDrop(e, d, start, capacity, r1, drop, i, k + 1);
          LoadsFrom(r1, capacity, k, later);
          later
        else
          LoadsAt(r1, capacity, k, res);
          res
    else
      var res := DropStep(e, d, start, r1, drop, i, k);
      LoadsPast(r1, capacity, k, res);
      res
  }

  /** The load before stop `k` joins the loads checked after it. */
  lemma LoadsFrom(r1: seq<Stop>, capacity: int, k: nat, later: Outcome)
    requires k < |r1| && Load(r1[..k]) <= capacity
    requires later.Booked? ==> forall m :: k + 1 <= m <= later.dropAt && m < |r1| ==> Load(r1[..m]) <= capacity
    ensures later.Booked? ==> forall m :: k <= m <= later.dropAt && m < |r1| ==> Load(r1[..m]) <= capacity
  {
  }

  /** A drop placed at `k` passed only the load before stop `k`. */
  lemma LoadsAt(r1: seq<Stop>, capacity: int, k: nat, res: Outcome)
    requires k < |r1| && Load(r1[..k]) <= capacity
    requires res.Booked? ==> res.dropAt == k
    ensures res.Booked? ==> forall m :: k <= m <= res.dropAt && m < |r1| ==> Load(r1[..m]) <= capacity
  {
  }

  /** A drop placed last passed no load check. */
  lemma LoadsPast(r1: seq<Stop>, capacity: int, k: nat, res: Outcome)
    requires k == |r1|
    ensures res.Booked? ==> forall m :: k <= m <= res.dropAt && m < |r1| ==> Load(r1[..m]) <= capacity
  {
  }

  /** One attempt to insert the drop at position `k`. */
  function DropStep(e: Engine, d: Oracle, start: Stop, r1: seq<Stop>, drop: Stop, i: nat, k: nat): (res: Outcome)
    requires i < k <= |r1|
    ensures res.Refused? ==> res.route == r1
    ensures res.Booked? ==> res.pickAt == i && res.dropAt == k && Inserted(r1, k, drop, res.route)
    ensures res.Booked? ==> GapsOk(d, start, res.route)
    ensures GapsOk(d, start, r1) ==> !res.Exited?
    ensures (res.Booked? && WindowsOk(r1) && drop.et <= drop.lt) ==> WindowsOk(res.route)
  {
    match Insert(e, d, start, r1, k, drop)
    case Placed(r2) => Booked(r2, i, k)
    case Rejected => Refused(r1)
    case Halted => Exited
  }

  /** The pickup loop from position `i` on: skip positions where the taxi
      is already full or where the next stop's window closes before the
      pickup's opens; otherwise insert the pickup, look for a drop position,
      and on failure restore the route from its backup and go on. On refusal
      the route is exactly the route the loop started from. */
  function TryPickup(e: Engine, d: Oracle, start: Stop, capacity: int, route: seq<Stop>, pickup: Stop, drop: Stop, i: nat): (res: Outcome)
    requires i <= |route| + 1
    requires pickup.stopType == Pickup
    ensures res.Refused? ==> res.route == route
    ensures res.Booked? ==> i <= res.pickAt <= |route| && PairInserted(route, res.pickAt, res.dropAt, pickup, drop, res.route)
    ensures res.Booked? ==> GapsOk(d, start, res.route)
    ensures GapsOk(d, start, route) ==> !res.Exited?
    ensures (res.Booked? && Sound(d, start, capacity, route) && capacity >= 1 && pickup.et <= pickup.lt &&
             drop.et <= drop.lt && drop.stopType != Pickup) ==> Sound(d, start, capacity, res.route)
    decreases |route| + 1 - i
  {
    if i > |route| then Refused(route)
    else if Load(route[..i]) >= capacity then TryPickup(e, d, start, capacity, route, pickup, drop, i + 1)
    else if i < |route| && pickup.et > route[i].lt then TryPickup(e, d, start, capacity, route, pickup, drop, i + 1)
    else
      match Insert(e, d, start, route, i, pickup)
      case Halted => Exited
      case Rejected => TryPickup(e, d, start, capacity, route, pickup, drop, i + 1)
      case Placed(r1) =>
        var res := TryDrop(e, d, start, capacity, r1, drop, i, i + 1);
        if res.Refused? then
          InsertedWithout(route, i, pickup, r1);
          var back := Restore(r1, i, route);
          TryPickup(e, d, start, capacity, back, pickup, drop, i + 1)
        else
          if res.Booked? then
            PairFacts(d, start, capacity, route, pickup, drop, r1, res.route, i, res.dropAt);
            res
          else res
  }

  /** What the two insertions of a request add up to. */
  lemma PairFacts(d: Oracle, start: Stop, capacity: int, route: seq<Stop>, pickup: Stop, drop: Stop,
                  r1: seq<Stop>, r2: seq<Stop>, i: int, j: int)
    requires Inserted(route, i, pickup, r1) && i < j
    requires Inserted(r1, j, drop, r2)
    requires pickup.stopType == Pickup
    requires forall m :: i < m <= j && m < |r1| ==> Load(r1[..m]) <= capacity
    requires (WindowsOk(route) && pickup.et <= pickup.lt) ==> WindowsOk(r1)
    requires (WindowsOk(r1) && drop.et <= drop.lt) ==> WindowsOk(r2)
    requires GapsOk(d, start, r2)
    ensures PairInserted(route, i, j, pickup, drop, r2)
    ensures (Sound(d, start, capacity, route) && capacity >= 1 && pickup.et <= pickup.lt &&
             drop.et <= drop.lt && drop.stopType != Pickup) ==> Sound(d, start, capacity, r2)
  {
    PairShape(route, i, j, pickup, drop, r1, r2);
    if Sound(d, start, capacity, route) && capacity >= 1 && pickup.et <= pickup.lt &&
       drop.et <= drop.lt && drop.stopType != Pickup {
      PairLoad(route, i, j, pickup, drop, r1, r2, capacity);
      PairEmpty(route, i, j, pickup, drop, r1, r2);
      assert WindowsOk(r2);
    }
  }

  lemma PairShape(route: seq<Stop>, i: int, j: int, pickup: Stop, drop: Stop, r1: seq<Stop>, r2: seq<Stop>)
    requires Inserted(route, i, pickup, r1) && Inserted(r1, j, drop, r2) && i < j
    ensures PairInserted(route, i, j, pickup, drop, r2)
  {
    assert r2[..i] == r1[..j][..i] == r1[..i];
    assert r2[i] == r2[..j][i] == r1[..j][i] == r1[i];
    InsertedWithout(r1, j, drop, r2);
    InsertedWithout(route, i, pickup, r1);
    var w := Without(r2, j);
    assert Retimed(Without(r1, i), Without(w, i)) by {
      forall m | 0 <= m < |r1| - 1
        ensures Without(w, i)[m] == Without(r1, i)[m].(at := Without(w, i)[m].at)
      {
        if m < i {
          assert Without(w, i)[m] == w[m];
        } else {
          assert Without(w, i)[m] == w[m + 1];
        }
      }
    }
    RetimedTrans(route, Without(r1, i), Without(w, i));
  }

  /** Passenger counts after inserting a pickup at `i` and its drop at `j`:
      every load checked by the drop loop was within capacity, so the new
      route stays within capacity and still ends empty. */
  lemma PairLoad(route: seq<Stop>, i: int, j: int, pickup: Stop, drop: Stop, r1: seq<Stop>, r2: seq<Stop>, capacity: int)
    requires Inserted(route, i, pickup, r1) && Inserted(r1, j, drop, r2) && i < j
    requires forall m :: i < m <= j && m < |r1| ==> Load(r1[..m]) <= capacity
    requires LoadOk(route, capacity) && Load(route) == 0 && capacity >= 1
    requires pickup.stopType == Pickup && drop.stopType != Pickup
    ensures LoadOk(r2, capacity)
  {
    forall m | 0 < m <= |r2|
      ensures Load(r2[..m]) <= capacity
    {
      PairLoadAt(route, i, j, pickup, drop, r1, r2, capacity, m);
    }
  }

  lemma PairEmpty(route: seq<Stop>, i: int, j: int, pickup: Stop, drop: Stop, r1: seq<Stop>, r2: seq<Stop>)
    requires Inserted(route, i, pickup, r1) && Inserted(r1, j, drop, r2)
    requires pickup.stopType == Pickup && drop.stopType != Pickup
    ensures Load(r2) == Load(route)
  {
    LoadInserted(r1, j, drop, r2, |r2|);
    LoadInserted(route, i, pickup, r1, |r1|);
    assert r2[..|r2|] == r2 && r1[..|r1|] == r1 && route[..|route|] == route;
  }

  lemma PairLoadAt(route: seq<Stop>, i: int, j: int, pickup: Stop, drop: Stop, r1: seq<Stop>, r2: seq<Stop>,
                   capacity: int, m: int)
    requires Inserted(route, i, pickup, r1) && Inserted(r1, j, drop, r2) && i < j
    requires forall m :: i < m <= j && m < |r1| ==> Load(r1[..m]) <= capacity
    requires LoadOk(route, capacity) && Load(route) == 0 && capacity >= 1
    requires pickup.stopType == Pickup && drop.stopType != Pickup
    requires 0 < m <= |r2|
    ensures Load(r2[..m]) <= capacity
  {
    LoadInserted(r1, j, drop, r2, m);
    if m <= i {
      LoadInserted(route, i, pickup, r1, m);
    } else if m <= j {
      if m == |r1| {
        LoadInserted(route, i, pickup, r1, m);
        assert route[..m - 1] == route;
      }
    } else {
      LoadInserted(route, i, pickup, r1, m - 1);
      if m - 2 == 0 {
        assert route[..0] == [];
      }
    }
  }

  /** Inserting a request. On an empty route: the pickup first, then the
      drop last, clearing the route again if either fails. Otherwise the
      pickup loop. A refusal leaves the route as it was; a success inserts
      the pickup strictly before the drop and keeps the route sound when it
      was sound, the capacity is at least one and both windows are proper.
      The exit happens only if a leg was already broken. */
  function Book(e: Engine, d: Oracle, start: Stop, capacity: int, route: seq<Stop>, pickup: Stop, drop: Stop): (res: Outcome)
    requires pickup.stopType == Pickup
    ensures res.Refused? ==> res.route == route
    ensures res.Booked? ==> PairInserted(route, res.pickAt, res.dropAt, pickup, drop, res.route)
    ensures res.Booked? ==> GapsOk(d, start, res.route)
    ensures GapsOk(d, start, route) ==> !res.Exited?
    ensures (res.Booked? && Sound(d, start, capacity, route) && capacity >= 1 && pickup.et <= pickup.lt &&
             drop.et <= drop.lt && drop.stopType != Pickup) ==> Sound(d, start, capacity, res.route)
  {
    if route == [] then
      match Insert(e, d, start, [], 0, pickup)
      case Halted => Exited
      case Rejected => Refused([])
      case Placed(r1) =>
        match Insert(e, d, start, r1, |r1|, drop)
        case Halted => Exited
        case Rejected => Refused([])
        case Placed(r2) =>
          PairFacts(d, start, capacity, route, pickup, drop, r1, r2, 0, |r1|);
          Booked(r2, 0, |r1|)
    else TryPickup(e, d, start, capacity, route, pickup, drop, 0)
  }
}
