/** The schedule-only taxi (TaxiSchedule.java): a start stop, a capacity,
    the taxi's id and a route whose stops keep their time windows. */
module TaxiSchedules {
  import opened Stops
  import opened Requests
  import opened Routes
  import Booking

  datatype TaxiSchedule = TaxiSchedule(start: Stop, route: seq<Stop>, capacity: int, taxiId: int)

  /** `new TaxiSchedule(startPoint, capacity, taxiId)`: the start stop is
      kept apart from the route, which starts empty. */
  function NewSchedule(start: Stop, capacity: int, taxiId: int): (ts: TaxiSchedule)
    ensures ts.start == start && ts.capacity == capacity && ts.taxiId == taxiId && ts.route == []
    ensures forall d: Oracle :: Sound(d, ts.start, ts.capacity, ts.route)
  {
    TaxiSchedule(start, [], capacity, taxiId)
  }

  /** The answer of insertRequest: whether the request was taken and the
      schedule afterwards, or the process exit of the consistency check. */
  datatype Reply = Reply(ok: bool, schedule: TaxiSchedule) | Exited

  /** `insertRequest(r)`. A refusal leaves the schedule as it was; a success
      inserts the pickup strictly before the drop and changes nothing but
      the route. On an empty route the request becomes the whole route. The
      exit happens only if a leg was already broken, and soundness is kept
      for well-formed requests and a capacity of at least one. */
  function InsertRequest(d: Oracle, ts: TaxiSchedule, r: Request): (res: Reply)
    requires r.pickUp.stopType == Pickup
    ensures (res.Reply? && !res.ok) ==> res.schedule == ts
    ensures (res.Reply? && res.ok) ==>
              && res.schedule == ts.(route := res.schedule.route)
              && exists i, j :: Booking.PairInserted(ts.route, i, j, r.pickUp, r.drop, res.schedule.route)
    ensures (res.Reply? && res.ok && ts.route == []) ==>
              && |res.schedule.route| == 2
              && res.schedule.route[0] == r.pickUp.(at := res.schedule.route[0].at)
              && res.schedule.route[1] == r.drop.(at := res.schedule.route[1].at)
    ensures (res.Reply? && res.ok) ==> GapsOk(d, ts.start, res.schedule.route)
    ensures GapsOk(d, ts.start, ts.route) ==> res.Reply?
    ensures (res.Reply? && res.ok && Sound(d, ts.start, ts.capacity, ts.route) && ts.capacity >= 1 && WellFormed(r)) ==>
              Sound(d, ts.start, ts.capacity, res.schedule.route)
  {
    match Booking.Book(Booking.ScheduleEngine, d, ts.start, ts.capacity, ts.route, r.pickUp, r.drop)
    case Exited => Exited
    case Refused(route) => Reply(false, ts.(route := route))
    case Booked(route, i, j) => Reply(true, ts.(route := route))
  }
}
