/** Service requests (Request.java) and the way the input reader derives a
    request's drop window (DialARide.main). */
module Requests {
  import opened Options
  import opened Constants
  import opened Stops

  /** A request: its id, its pickup and drop stops, and the fare of the
      direct ride. */
  datatype Request = Request(id: int, pickUp: Stop, drop: Stop, spCost: int)

  /** `new Request(pickUp, drop)`: the id is the pickup's request id and
      the fare is the direct distance times the rate. */
  function MakeRequest(d: Oracle, pickUp: Stop, drop: Stop): (r: Request)
    ensures r.id == pickUp.requestId && r.pickUp == pickUp && r.drop == drop
    ensures r.spCost == DistTo(d, pickUp, drop) * RatePerKm
  {
    Request(pickUp.requestId, pickUp, drop, DistTo(d, pickUp, drop) * RatePerKm)
  }

  /** The request's fare agrees with the oracle. */
  predicate Priced(d: Oracle, r: Request)
  {
    r.spCost == DistTo(d, r.pickUp, r.drop) * RatePerKm
  }

  /** The request is well formed: a pickup and a drop, both with proper
      windows. */
  predicate WellFormed(r: Request)
  {
    && r.pickUp.stopType == Pickup && r.drop.stopType == Drop
    && r.pickUp.et <= r.pickUp.lt && r.drop.et <= r.drop.lt
  }

  /** `getCost()`. */
  function GetCost(r: Request): int
  {
    r.spCost
  }

  /** `compareTo(r)`: orders requests by earliest pickup time. */
  function CompareTo(a: Request, b: Request): (c: int)
    ensures c < 0 <==> a.pickUp.et < b.pickUp.et
    ensures c == 0 <==> a.pickUp.et == b.pickUp.et
    ensures c > 0 <==> a.pickUp.et > b.pickUp.et
  {
    a.pickUp.et - b.pickUp.et
  }

  /** compareTo is antisymmetric, and zero against itself. */
  lemma CompareToAntisymmetric(a: Request, b: Request)
    ensures CompareTo(a, b) == -CompareTo(b, a)
    ensures CompareTo(a, a) == 0
  {
  }

  /** The drop window of a request picked up from `et` whose direct ride is
      `dist` long: it opens after the direct ride and closes after the ride
      stretched by the deviation factor, but never after the end of the day.
      The window is empty exactly when the direct ride ends after the day. */
  function DropWindow(et: int, dist: nat): (w: (int, int))
    ensures w.0 == et + dist * TimePerKm
    ensures w.1 <= DayEndTime && w.1 <= et + dist * DeviationFactor * TimePerKm
    ensures w.1 == DayEndTime || w.1 == et + dist * DeviationFactor * TimePerKm
    ensures w.0 <= w.1 <==> et + dist * TimePerKm <= DayEndTime
  {
    (et + dist * TimePerKm, Min(et + dist * DeviationFactor * TimePerKm, DayEndTime))
  }

  /** Request number `i` of the input: a pickup at `src` with window
      [et, lt] and a drop at `dest` whose window comes from DropWindow. */
  function ReadRequest(d: Oracle, i: int, src: int, dest: int, et: int, lt: int): (r: Request)
    ensures r.id == i && r.pickUp.requestId == i && r.drop.requestId == i
    ensures r.pickUp.location == src && r.drop.location == dest
    ensures r.pickUp.et == et && r.pickUp.lt == lt && r.pickUp.at == et
    ensures (r.drop.et, r.drop.lt) == DropWindow(et, d(src, dest))
    ensures Priced(d, r)
    ensures et <= lt && et + d(src, dest) * TimePerKm <= DayEndTime ==> WellFormed(r)
  {
    var pickUp := MakeStop(src, et, lt, i, Pickup);
    var w := DropWindow(et, d(src, dest));
    MakeRequest(d, pickUp, MakeStop(dest, w.0, w.1, i, Drop))
  }
}
