/** insertStop of Taxi.java: places one stop at a given position of a
    taxi's route, timing it as early as its predecessor allows and pushing
    later stops back when needed. */
module TaxiStops {
  import opened Options
  import opened Stops
  import opened Routes

  /** `insertStop(position, stop)`. Positions outside 0..|route| are refused.
      On success the stop is placed at `position` at the earliest time it
      can be served after its predecessor (the start stop for position 0),
      which lies in its window; the stops before it are untouched and the
      later ones keep their order. The refusal of an interior position
      between two stops at the same place and time is kept. If every leg
      covered its travel time before, it still does and the exit of
      checkScheduleAfterInsertion never happens. */
  function InsertStop(d: Oracle, start: Stop, route: seq<Stop>, position: int, stop: Stop): (res: Placement)
    requires position == 0 ==> stop.stopType == Pickup
    ensures (position < 0 || position > |route|) ==> res == Rejected
    ensures res.Placed? ==> Inserted(route, position, stop, res.route)
    ensures res.Placed? ==> res.route[position].at == Arrival(d, Pred(start, route, position), stop)
    ensures res.Placed? ==> Pred(start, route, position).at + Travel(d, Pred(start, route, position), stop) <= stop.lt
    ensures res.Placed? ==> GapsOk(d, start, res.route)
    ensures GapsOk(d, start, route) ==> !res.Halted?
    ensures (res.Placed? && WindowsOk(route) && stop.et <= stop.lt) ==> WindowsOk(res.route)
    ensures (0 < position < |route| && route[position - 1].location == route[position].location &&
             route[position - 1].at == route[position].at) ==> res == Rejected
  {
    if position > |route| || position < 0 then Rejected
    else if position == 0 then
      if start.at + Travel(d, start, stop) > stop.lt then Rejected
      else
        var placed := stop.(at := Arrival(d, start, stop));
        var push := route != [] && placed.at + Travel(d, placed, route[0]) > route[0].at;
        PlaceTimed(d, start, route, 0, stop, push);
        Place(d, start, route, 0, placed, push)
    else if position == |route| then
      var prev := route[position - 1];
      if prev.at > stop.lt then Rejected
      else if prev.at + Travel(d, prev, stop) > stop.lt then Rejected
      else
        PlaceTimed(d, start, route, position, stop, false);
        Place(d, start, route, position, stop.(at := Arrival(d, prev, stop)), false)
    else
      var prev := route[position - 1];
      var next := route[position];
      if prev.at > stop.lt then Rejected
      else if prev.location == next.location && prev.at == next.at then Rejected
      else if prev.at + Travel(d, prev, stop) > stop.lt then Rejected
      else
        var placed := stop.(at := Arrival(d, prev, stop));
        var t := placed.at + Travel(d, placed, next);
        if t > next.lt then Rejected
        else
          PlaceTimed(d, start, route, position, stop, next.at < t);
          Place(d, start, route, position, placed, next.at < t)
  }

  /** One placing branch: `stop` timed at its arrival after its predecessor,
      which meets its latest time, is placed at `pos`. When nothing is
      pushed back and a stop follows, the leg to it must already be
      covered. */
  lemma PlaceTimed(d: Oracle, start: Stop, route: seq<Stop>, pos: int, stop: Stop, push: bool)
    requires 0 <= pos <= |route|
    requires Pred(start, route, pos).at + Travel(d, Pred(start, route, pos), stop) <= stop.lt
    requires !push && pos < |route| ==> Gap(d, stop.(at := Arrival(d, Pred(start, route, pos), stop)), route[pos])
    ensures var placed := stop.(at := Arrival(d, Pred(start, route, pos), stop));
      var res := Place(d, start, route, pos, placed, push);
      && (res.Placed? ==> Inserted(route, pos, stop, res.route) && res.route[pos].at == placed.at)
      && (GapsOk(d, start, route) ==> !res.Halted?)
      && ((res.Placed? && WindowsOk(route) && stop.et <= stop.lt) ==> WindowsOk(res.route))
  {
    var placed := stop.(at := Arrival(d, Pred(start, route, pos), stop));
    assert InWindow(placed) <== stop.et <= stop.lt;
    if GapsOk(d, start, route) {
      assert Gap(d, Pred(start, route, pos), placed);
    }
  }
}
