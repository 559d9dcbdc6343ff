/** A taxi (Taxi.java): its start stop, capacity, route and revenue, the
    request scheduler, the route check, and the distance and idle-time
    statistics. */
module Taxis {
  import opened Constants
  import opened Stops
  import opened Requests
  import opened Routes
  import Booking

  /** The taxi's id stands for the source's static counter. */
  datatype Taxi = Taxi(id: int, start: Stop, capacity: int, route: seq<Stop>, revenue: int)

  /** `new Taxi(startPoint, capacity, cityMap)`: an empty route and no
      revenue; the start stop is a taxi-location stop with the whole window
      at the start of the day, so every empty taxi is sound. */
  function NewTaxi(id: int, location: int, capacity: int): (t: Taxi)
    ensures t.id == id && t.capacity == capacity && t.route == [] && t.revenue == 0
    ensures t.start.location == location && t.start.stopType == TaxiLocation && t.start.requestId == -1
    ensures t.start.et == t.start.lt == t.start.at == DayStartTime
    ensures forall d: Oracle :: Sound(d, t.start, t.capacity, t.route)
  {
    Taxi(id, MakeStop(location, DayStartTime, DayStartTime, -1, TaxiLocation), capacity, [], 0)
  }

  /** The answer of `schedule(r)`: whether the request was taken and the
      taxi afterwards, or the process exit of the consistency check. */
  datatype Answer = Answer(ok: bool, taxi: Taxi) | Exited

  /** `after` is `before` with the request's pickup inserted somewhere and
      its drop somewhere later. */
  ghost predicate Carries(before: seq<Stop>, r: Request, after: seq<Stop>)
  {
    exists i, j :: Booking.PairInserted(before, i, j, r.pickUp, r.drop, after)
  }

  /** `schedule(r)`. A refusal leaves the taxi exactly as it was. A success
      inserts the pickup strictly before the drop, keeps the id, start stop
      and capacity, and adds the direct-ride fare to the revenue. The exit
      happens only if a leg was already broken, and a sound taxi with room
      for one passenger stays sound when the request is well formed. */
  function Schedule(d: Oracle, t: Taxi, r: Request): (res: Answer)
    requires r.pickUp.stopType == Pickup
    ensures (res.Answer? && !res.ok) ==> res.taxi == t
    ensures (res.Answer? && res.ok) ==>
              && res.taxi.id == t.id && res.taxi.start == t.start && res.taxi.capacity == t.capacity
              && res.taxi.revenue == t.revenue + DistTo(d, r.pickUp, r.drop) * RatePerKm
              && Carries(t.route, r, res.taxi.route)
    ensures (res.Answer? && res.ok) ==> GapsOk(d, t.start, res.taxi.route)
    ensures GapsOk(d, t.start, t.route) ==> res.Answer?
    ensures (res.Answer? && res.ok && Sound(d, t.start, t.capacity, t.route) && t.capacity >= 1 && WellFormed(r)) ==>
              Sound(d, t.start, t.capacity, res.taxi.route)
  {
    match Booking.Book(Booking.TaxiEngine, d, t.start, t.capacity, t.route, r.pickUp, r.drop)
    case Exited => Exited
    case Refused(route) => Answer(false, t.(route := route))
    case Booked(route, i, j) =>
      Answer(true, t.(route := route, revenue := t.revenue + DistTo(d, r.pickUp, r.drop) * RatePerKm))
  }

  /** The status check() ends with: it passes, or the process exits with
      status 2 (a leg shorter than its travel time) or 1 (over capacity, or
      a stop served outside its window). */
  datatype Verdict = Passed | Exit(status: int)

  function CheckFrom(d: Oracle, capacity: int, p: Stop, route: seq<Stop>, i: nat, n: int): (v: Verdict)
    requires i <= |route|
    decreases |route| - i
  {
    if i == |route| then Passed
    else
      var s := route[i];
      if s.at - p.at < Travel(d, p, s) then Exit(2)
      else
        var n' := n + Delta(s);
        if n' > capacity then Exit(1)
        else if s.at < s.et || s.at > s.lt then Exit(1)
        else CheckFrom(d, capacity, s, route, i + 1, n')
  }

  /** Every stop from position `i` on passes the three checks. */
  predicate OkFrom(d: Oracle, start: Stop, capacity: int, route: seq<Stop>, i: int)
    requires 0 <= i <= |route|
  {
    forall j :: i <= j < |route| ==>
      Gap(d, Pred(start, route, j), route[j]) && Load(route[..j + 1]) <= capacity && InWindow(route[j])
  }

  lemma {:induction false} CheckFromSpec(d: Oracle, start: Stop, capacity: int, route: seq<Stop>, i: nat, n: int)
    requires i <= |route|
    requires n == Load(route[..i])
    ensures CheckFrom(d, capacity, Pred(start, route, i), route, i, n) == Passed <==> OkFrom(d, start, capacity, route, i)
    ensures CheckFrom(d, capacity, Pred(start, route, i), route, i, n) != Passed ==>
              CheckFrom(d, capacity, Pred(start, route, i), route, i, n) in {Exit(1), Exit(2)}
    decreases |route| - i
  {
    if i < |route| {
      var p, s := Pred(start, route, i), route[i];
      assert route[..i + 1][..i] == route[..i];
      var n' := n + Delta(s);
      assert Load(route[..i + 1]) == n';
      assert Pred(start, route, i + 1) == s;
      CheckFromSpec(d, start, capacity, route, i + 1, n');
      assert CheckFrom(d, capacity, p, route, i, n) ==
             if !Gap(d, p, s) then Exit(2)
             else if n' > capacity || !InWindow(s) then Exit(1)
             else CheckFrom(d, capacity, s, route, i + 1, n');
      OkFromSplit(d, start, capacity, route, i);
    }
  }

  /** The checks from position `i` on are the check at `i` and the checks
      after it. */
  lemma OkFromSplit(d: Oracle, start: Stop, capacity: int, route: seq<Stop>, i: nat)
    requires i < |route|
    ensures OkFrom(d, start, capacity, route, i) <==>
              && Gap(d, Pred(start, route, i), route[i]) && Load(route[..i + 1]) <= capacity && InWindow(route[i])
              && OkFrom(d, start, capacity, route, i + 1)
  {
    var here := Gap(d, Pred(start, route, i), route[i]) && Load(route[..i + 1]) <= capacity && InWindow(route[i]);
    if OkFrom(d, start, capacity, route, i) {
      OkAt(d, start, capacity, route, i, i);
      forall k | i + 1 <= k < |route|
        ensures Gap(d, Pred(start, route, k), route[k]) && Load(route[..k + 1]) <= capacity && InWindow(route[k])
      {
        OkAt(d, start, capacity, route, i, k);
      }
    }
    if here && OkFrom(d, start, capacity, route, i + 1) {
      forall k | i <= k < |route|
        ensures Gap(d, Pred(start, route, k), route[k]) && Load(route[..k + 1]) <= capacity && InWindow(route[k])
      {
        if k > i {
          OkAt(d, start, capacity, route, i + 1, k);
        }
      }
      assert OkFrom(d, start, capacity, route, i);
    }
    if OkFrom(d, start, capacity, route, i) {
      assert here;
      assert OkFrom(d, start, capacity, route, i + 1);
    }
  }

  /** One position of the checks from `i` on. */
  lemma OkAt(d: Oracle, start: Stop, capacity: int, route: seq<Stop>, i: nat, k: nat)
    requires i <= k < |route| && OkFrom(d, start, capacity, route, i)
    ensures Gap(d, Pred(start, route, k), route[k]) && Load(route[..k + 1]) <= capacity && InWindow(route[k])
  {
  }

  /** `check()`: passes exactly when every leg covers its travel time, the
      taxi is never over capacity and every stop is served in its window;
      otherwise the exit status is 1 or 2. */
  function Check(d: Oracle, t: Taxi): (v: Verdict)
    ensures v == Passed <==> GapsOk(d, t.start, t.route) && LoadOk(t.route, t.capacity) && WindowsOk(t.route)
    ensures v != Passed ==> v in {Exit(1), Exit(2)}
  {
    assert t.route[..0] == [];
    CheckFromSpec(d, t.start, t.capacity, t.route, 0, 0);
    assert OkFrom(d, t.start, t.capacity, t.route, 0) <==> LoadOk(t.route, t.capacity) && GapsOk(d, t.start, t.route) && WindowsOk(t.route) by {
      if LoadOk(t.route, t.capacity) {
        forall j | 0 <= j < |t.route|
          ensures Gap(d, Pred(t.start, t.route, j), t.route[j]) ==> Load(t.route[..j + 1]) <= t.capacity
        {
          assert 0 < j + 1 <= |t.route|;
        }
      }
      if OkFrom(d, t.start, t.capacity, t.route, 0) {
        forall j | 0 < j <= |t.route|
          ensures Load(t.route[..j]) <= t.capacity
        {
          assert Load(t.route[..(j - 1) + 1]) <= t.capacity;
        }
      }
    }
    CheckFrom(d, t.capacity, t.start, t.route, 0, 0)
  }

  /** The stop dist() measures from on a non-empty route: the first stop
      unless the time is exactly the first stop's earliest time, in which
      case the first stop whose earliest time is before `time`, or the last
      stop if there is none. */
  function Anchor(route: seq<Stop>, time: int): (j: int)
    requires route != []
    ensures 0 <= j < |route|
    ensures time != route[0].et ==> j == 0
    ensures time == route[0].et ==>
              || (route[j].et < time && forall k :: 0 <= k < j ==> route[k].et >= time)
              || (j == |route| - 1 && forall k :: 0 <= k < |route| ==> route[k].et >= time)
  {
    if time < route[0].et then 0 else FirstEarlier(route, time, 0)
  }

  /** The loop of dist(): the first stop from `i` on whose earliest time is
      before `time`, or the last stop. */
  function FirstEarlier(route: seq<Stop>, time: int, i: nat): (j: int)
    requires i < |route|
    ensures i <= j < |route|
    ensures || (route[j].et < time && forall k :: i <= k < j ==> route[k].et >= time)
            || (j == |route| - 1 && forall k :: i <= k < |route| ==> route[k].et >= time)
    decreases |route| - i
  {
    if time > route[i].et then i
    else if i == |route| - 1 then i
    else FirstEarlier(route, time, i + 1)
  }

  /** `dist(time, dest)`: how far the taxi is from `dest` at `time`. An idle
      taxi measures from its start stop; otherwise from the first stop of
      the route, except when `time` equals the first stop's earliest time
      (see Anchor). */
  function Dist(d: Oracle, t: Taxi, time: int, dest: Stop): (r: nat)
    ensures t.route == [] ==> r == DistTo(d, t.start, dest)
    ensures t.route != [] && time != t.route[0].et ==> r == DistTo(d, t.route[0], dest)
    ensures t.route != [] ==> exists j :: 0 <= j < |t.route| && r == DistTo(d, t.route[j], dest)
  {
    if t.route == [] then DistTo(d, t.start, dest)
    else DistTo(d, t.route[Anchor(t.route, time)], dest)
  }

  /** The sum of the direct distances of the legs from `p` through `route`. */
  function Distance(d: Oracle, p: Stop, route: seq<Stop>): nat
    decreases |route|
  {
    if route == [] then 0 else DistTo(d, p, route[0]) + Distance(d, route[0], route[1..])
  }

  /** The waiting time on the legs from `p` through `route`: the time each
      leg takes minus its driving time. */
  function Idle(d: Oracle, p: Stop, route: seq<Stop>): int
    decreases |route|
  {
    if route == [] then 0
    else (route[0].at - p.at - TimePerKm * DistTo(d, p, route[0])) + Idle(d, route[0], route[1..])
  }

  /** The idle time telescopes: the time from `p` to the last stop minus
      the driving time. */
  lemma {:induction false} IdleTelescopes(d: Oracle, p: Stop, route: seq<Stop>)
    requires route != []
    ensures Idle(d, p, route) == route[|route| - 1].at - p.at - TimePerKm * Distance(d, p, route)
    decreases |route|
  {
    if |route| > 1 {
      IdleTelescopes(d, route[0], route[1..]);
    }
  }

  /** When every leg covers its travel time, no leg has negative idle time. */
  lemma {:induction false} IdleNonNegative(d: Oracle, p: Stop, route: seq<Stop>)
    requires GapsOk(d, p, route)
    ensures Idle(d, p, route) >= 0
    decreases |route|
  {
    if route != [] {
      assert Gap(d, Pred(p, route, 0), route[0]);
      assert GapsOk(d, route[0], route[1..]) by {
        forall j | 0 <= j < |route| - 1
          ensures Gap(d, Pred(route[0], route[1..], j), route[1..][j])
        {
          assert Gap(d, Pred(p, route, j + 1), route[j + 1]);
        }
      }
      IdleNonNegative(d, route[0], route[1..]);
    }
  }

  /** On a route whose every leg covers its travel time, the waiting is
      never negative. */
  lemma DrivingFits(d: Oracle, start: Stop, route: seq<Stop>)
    ensures (route != [] && GapsOk(d, start, route)) ==>
              && Idle(d, start, route) >= 0
              && TimePerKm * Distance(d, start, route) <= route[|route| - 1].at - start.at
  {
    if route != [] && GapsOk(d, start, route) {
      IdleTelescopes(d, start, route);
      IdleNonNegative(d, start, route);
    }
  }

  /** `distanceTravelled()`: the sum of the direct distances of the legs.
      When every leg covers its travel time, the driving fits between the
      start and the last stop. */
  function DistanceTravelled(d: Oracle, t: Taxi): (r: nat)
    ensures t.route == [] ==> r == 0
    ensures (t.route != [] && GapsOk(d, t.start, t.route)) ==>
              TimePerKm * r <= t.route[|t.route| - 1].at - t.start.at
  {
    DrivingFits(d, t.start, t.route);
    Distance(d, t.start, t.route)
  }

  /** `idleTime()`: the waiting time on every leg plus the time from the
      last stop to the end of the day. It equals the rest of the day after
      the start minus the driving time, and with every leg covering its
      travel time it is at least the time left after the last stop. The
      source reads the last stop, so the route must not be empty. */
  function IdleTime(d: Oracle, t: Taxi): (r: int)
    requires t.route != []
    ensures r == DayEndTime - t.start.at - TimePerKm * DistanceTravelled(d, t)
    ensures GapsOk(d, t.start, t.route) ==> r >= DayEndTime - t.route[|t.route| - 1].at
  {
    IdleTelescopes(d, t.start, t.route);
    DrivingFits(d, t.start, t.route);
    Idle(d, t.start, t.route) + DayEndTime - t.route[|t.route| - 1].at
  }

  // ---------------------------------------------------------------------
  // A taxi without seats

  /** The capacity read from the input has no lower bound, and the
      empty-route path of schedule(r) inserts the pickup and the drop
      without counting passengers. So a taxi of capacity 0 takes its first
      request, and check() then exits with status 1. */
  lemma ZeroCapacityOverloads()
    ensures var d: Oracle := (u: int, v: int) => 0;
            var t := NewTaxi(0, 0, 0);
            var r := MakeRequest(d, MakeStop(0, 0, 10, 1, Pickup), MakeStop(0, 0, 10, 1, Drop));
            var res := Schedule(d, t, r);
            res.Answer? && res.ok && Check(d, res.taxi) == Exit(1)
  {
    var d: Oracle := (u: int, v: int) => 0;
    var t := NewTaxi(0, 0, 0);
    var pickup := MakeStop(0, 0, 10, 1, Pickup);
    var drop := MakeStop(0, 0, 10, 1, Drop);
    BookedWithoutSeats(d, t.start, pickup, drop);
    var t' := t.(route := [pickup, drop], revenue := t.revenue + DistTo(d, pickup, drop) * RatePerKm);
    assert CheckFrom(d, 0, t.start, t'.route, 0, 0) == Exit(1);
  }

  /** On the empty route, with every distance zero, the pickup and the drop
      are booked back to back at their earliest times. */
  lemma BookedWithoutSeats(d: Oracle, start: Stop, pickup: Stop, drop: Stop)
    requires forall u, v :: d(u, v) == 0
    requires start.at == 0 && pickup.stopType == Pickup
    requires pickup.et == drop.et == 0 && pickup.lt == drop.lt == 10 && pickup.at == drop.at == 0
    ensures Booking.Book(Booking.TaxiEngine, d, start, 0, [], pickup, drop) == Booking.Booked([pickup, drop], 0, 1)
  {
    assert Booking.Insert(Booking.TaxiEngine, d, start, [], 0, pickup) == Placed([pickup]);
    assert Booking.Insert(Booking.TaxiEngine, d, start, [pickup], 1, drop) == Placed([pickup, drop]);
  }

  /** schedule(r) with the evidently intended guard: a taxi without a seat
      refuses every request. Otherwise it is schedule(r), and now a sound
      taxi stays sound after any well-formed request, whatever its
      capacity, and so still passes check(). */
  function ScheduleSeated(d: Oracle, t: Taxi, r: Request): (res: Answer)
    requires r.pickUp.stopType == Pickup
    ensures t.capacity < 1 ==> res == Answer(false, t)
    ensures t.capacity >= 1 ==> res == Schedule(d, t, r)
    ensures (res.Answer? && res.ok && Sound(d, t.start, t.capacity, t.route) && WellFormed(r)) ==>
              Sound(d, t.start, t.capacity, res.taxi.route) && Check(d, res.taxi) == Passed
  {
    if t.capacity < 1 then Answer(false, t) else Schedule(d, t, r)
  }
}
