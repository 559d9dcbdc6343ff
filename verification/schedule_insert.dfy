/** insertStop of TaxiSchedule.java, the other revision of the engine. It
    differs from Taxi.java in three ways: a negative position is not
    checked (the source fails on it), a stop placed first must reach the
    old first stop exactly at its time or push it back (never bring it
    forward), and the arrival is compared with the window before the wait
    is added. */
module ScheduleStops {
  import opened Options
  import opened Stops
  import opened Routes

  /** `insertStop(position, stop)` of TaxiSchedule.java. Positions past the
      end are refused; on success the stop is placed at `position` at the
      earliest time it can be served after its predecessor. A stop placed
      first is refused when it cannot be reached in its window, and when it
      would reach the old first stop before that stop's time, so the old
      first stop is never brought forward. An interior position between two
      stops at the same place and time, or one from which the next stop
      cannot be reached in its window, is refused. */
  function InsertStop(d: Oracle, start: Stop, route: seq<Stop>, position: int, stop: Stop): (res: Placement)
    requires position >= 0
    requires position == 0 ==> stop.stopType == Pickup
    ensures position > |route| ==> res == Rejected
    ensures res.Placed? ==> Inserted(route, position, stop, res.route)
    ensures res.Placed? ==> res.route[position].at == Arrival(d, Pred(start, route, position), stop)
    ensures res.Placed? ==> GapsOk(d, start, res.route)
    ensures GapsOk(d, start, route) ==> !res.Halted?
    ensures (res.Placed? && WindowsOk(route) && stop.et <= stop.lt) ==> WindowsOk(res.route)
    ensures (position == 0 && start.at + Travel(d, start, stop) > stop.lt) ==> res == Rejected
    ensures (position == 0 && route != [] && res.Placed?) ==> res.route[1].at >= route[0].at
    ensures (position == 0 && route != [] &&
             Arrival(d, start, stop) + Travel(d, stop, route[0]) < route[0].at) ==> res == Rejected
    ensures (0 < position < |route| && route[position - 1].location == route[position].location &&
             route[position - 1].at == route[position].at) ==> res == Rejected
    ensures (0 < position < |route| && res.Placed?) ==>
              Arrival(d, route[position - 1], stop) + Travel(d, stop, route[position]) <= route[position].lt
  {
    if position > |route| then Rejected
    else if position == 0 then Front(d, start, route, stop)
    else if position == |route| then Back(d, start, route, stop)
    else Middle(d, start, route, position, stop)
  }

  /** Position 0. */
  function Front(d: Oracle, start: Stop, route: seq<Stop>, stop: Stop): (res: Placement)
    ensures Lawful(d, start, route, 0, stop, res)
    ensures start.at + Travel(d, start, stop) > stop.lt ==> res == Rejected
    ensures (route != [] && res.Placed?) ==> res.route[1].at >= route[0].at
    ensures (route != [] && Arrival(d, start, stop) + Travel(d, stop, route[0]) < route[0].at) ==> res == Rejected
  {
    var sAt := start.at + Travel(d, start, stop);
    if sAt > stop.lt then Rejected
    else
      var placed := stop.(at := Max(sAt, stop.et));
      if route == [] then Place(d, start, route, 0, placed, false)
      else
        var t := placed.at + Travel(d, placed, route[0]);
        if t > route[0].at then
          var res := Place(d, start, route, 0, placed, true);
          PushedHeadLater(d, route, placed, res);
          res
        else if t < route[0].at then Rejected
        else Place(d, start, route, 0, placed, false)
  }

  /** Position |route| > 0: after the last stop. */
  function Back(d: Oracle, start: Stop, route: seq<Stop>, stop: Stop): (res: Placement)
    requires route != []
    ensures Lawful(d, start, route, |route|, stop, res)
  {
    var last := route[|route| - 1];
    var sAt := last.at + Travel(d, last, stop);
    if sAt < stop.et then Place(d, start, route, |route|, stop.(at := stop.et), false)
    else if sAt > stop.lt then Rejected
    else Place(d, start, route, |route|, stop.(at := sAt), false)
  }

  /** An interior position, between two stops. */
  function Middle(d: Oracle, start: Stop, route: seq<Stop>, position: int, stop: Stop): (res: Placement)
    requires 0 < position < |route|
    ensures Lawful(d, start, route, position, stop, res)
    ensures (route[position - 1].location == route[position].location &&
             route[position - 1].at == route[position].at) ==> res == Rejected
    ensures res.Placed? ==>
              Arrival(d, route[position - 1], stop) + Travel(d, stop, route[position]) <= route[position].lt
  {
    var prev := route[position - 1];
    var next := route[position];
    if prev.location == next.location && prev.at == next.at then Rejected
    else
      var sAt := prev.at + Travel(d, prev, stop);
      if !(sAt < stop.et) && sAt > stop.lt then Rejected
      else
        var placed := stop.(at := Max(sAt, stop.et));
        var t := placed.at + Travel(d, placed, next);
        if t > next.lt then Rejected
        else Place(d, start, route, position, placed, next.at < t)
  }

  /** Pushing back from the head after a stop placed first delays the old
      head. */
  lemma PushedHeadLater(d: Oracle, route: seq<Stop>, placed: Stop, res: Placement)
    requires route != []
    requires placed.at + Travel(d, placed, route[0]) > route[0].at
    requires res.Placed? ==> Inserted(route, 0, placed, res.route)
    requires res.Placed? ==> res.route[1..] == Postponed(d, route, 0, placed)[0..]
    ensures res.Placed? ==> res.route[1].at >= route[0].at
  {
    if res.Placed? {
      var w := Postponed(d, route, 0, placed);
      assert w[0].at == Arrival(d, Lead(placed, w, 0, 0), w[0]);
      assert res.route[1] == w[0];
      assert Travel(d, placed, w[0]) == Travel(d, placed, route[0]);
    }
  }
}
