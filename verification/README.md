# Dial-A-Ride in Dafny

A model of the scheduling core of Dial-A-Ride, a Java dispatcher. The dispatcher
collects ride requests for one working day. Each request has a pickup with an
earliest and a latest pickup time, and a drop whose window comes from the
shortest distance between the two places. The dispatcher offers every request
to a fleet of taxis. A taxi accepts a request when it can insert the pickup and,
after it, the drop into its route. The times of the route's other stops may be
pushed back to make room, but only while every stop stays inside its window and,
for a taxi with at least one seat, the taxi stays within its capacity. A taxi
given with capacity 0 still takes its first request (see "## Findings"). The fare of an accepted request (its direct
distance times the rate) goes to the taxi and to the dispatcher's revenue.
Distances come from Dijkstra's shortest paths over the city map, a weighted
digraph.

The model is split into modules that follow the source files:

| module | file | models |
|---|---|---|
| `Constants` | constants.dfy | the static parameters of `DialARide` |
| `Digraph` | digraph.dfy | `DirectedEdge`, `EdgeWeightedDigraph` |
| `Paths` | paths.dfy | paths, path weights and the shortest-path predicate |
| `Dijkstra` | dijkstra.dfy | `DijkstraSP` |
| `MinPQ` | minpq.dfy | `MinPQ` |
| `IndexMinPQ` | indexminpq.dfy | `IndexMinPQ` |
| `Stops` | stop.dfy | `Stop` |
| `Requests` | request.dfy | `Request`, and how the input reader builds the drop window |
| `Routes` | route.dfy | the route invariants of `check()`, `canPostpone`, `postponeAllFromStop`, `checkScheduleAfterInsertion` |
| `TaxiStops` | taxi_insert.dfy | `Taxi.insertStop` |
| `ScheduleStops` | schedule_insert.dfy | `TaxiSchedule.insertStop` |
| `Booking` | booking.dfy | the pickup and drop loops shared by `Taxi.schedule` and `TaxiSchedule.insertRequest` |
| `Taxis` | taxi.dfy | `Taxi` |
| `TaxiSchedules` | taxischedule.dfy | `TaxiSchedule` |
| `Sorting` | sorting.dfy | `Collections.sort`, a stable sort |
| `Ranges` | ranges.dfy | a small generic helper for properties of ranges of positions |
| `Dispatch` | dispatch.dfy | `DialARide`: the constructor, `schedule1`, `schedule2`, `schedule3` and `NearestTaxi` |
| `Options` | options.dfy | an `Option` type |

Further modelling choices:

- **Values, not objects.** Objects become immutable values. A method that
  mutates its object becomes a function that returns the new value.
- **Rollback is modelled.** The source inserts into the working route, then
  removes the pickup and restores the saved times when a later step fails.
  The model does the same, and proves that a refusal leaves the taxi exactly
  as it was.
- **Distances are an oracle.** The taxi engine receives the shortest
  distance between two places as a parameter, `d(u, v)`. `Stops.DistToShortest`
  and `Paths.OracleTriangle` tie that oracle to the shortest-path predicate.
  `Dijkstra.DijkstraSP` establishes that predicate when its queue is correct.
  The source's `IndexMinPQ` is not a correct queue (see "## Findings"), so the
  distances the source computes are not proved shortest. The oracle stands
  for what DijkstraSP is meant to compute, on a map where every place can
  reach every other (see "## Left out").
- **Process exits are outcomes.** `System.exit` in the consistency checks
  becomes an `Exited`, `Halted` or `Exit(status)` result. The model proves
  that the exit of `checkScheduleAfterInsertion` cannot happen when every leg
  of the route already covered its travel time. It proves that the exit of
  `check()` cannot happen on a sound taxi with at least one seat. A taxi of
  capacity 0 is the exception: its first request makes `check()` exit with
  status 1.
- **Two revisions of the engine.** Taxi.java and TaxiSchedule.java have
  different `insertStop` methods. Both share one model of the request-insertion
  loop (`Booking`), which is parameterised by the revision.
- **Findings are modelled twice.** For each defect in the priority queues,
  members whose names end in `AsWritten` follow the source as written. The
  unsuffixed members are the corrected definitions, and they are what the
  rest of the model uses (see "## Findings"). The capacity-0 defect of
  `Taxi.schedule` is shown by `Taxis.ZeroCapacityOverloads` and corrected by
  `Taxis.ScheduleSeated`. The dispatcher keeps the source's `schedule`, so
  its soundness results assume that every taxi has a seat
  (`Dispatch.FleetSound`).

Where the code and its description disagree, the model follows the code:

- `NearestTaxi` measures from the stop that `Taxi.dist` returns
  (`Taxis.Anchor`). It is not the stop the taxi was last at before that time.
  On an empty route it is the start stop. Otherwise, with `first` the first
  stop of the route:
  - when the time is before `first`'s earliest time, it is `first`;
  - when the time is after `first`'s earliest time, it is also `first`, since
    the loop stops there at once;
  - when the time equals `first`'s earliest time, it is the first stop whose
    earliest time is before the given time, or the last stop if there is none.
- `DijkstraSP` enqueues the source with the key `distFromSource[0]` rather
  than `distFromSource[s]`. The source is alone in the queue at that point, so
  the key changes nothing, and the model enqueues the source without a key.

## Model

| member | source | states |
|---|---|---|
| Digraph.CompareTo | Dial-A-Ride/src/org/iiitb/graphs/DirectedEdge.java:36-44 | the result is -1, 0 or +1 exactly when the first weight is below, equal to or above the second |
| Digraph.CompareToAntisymmetric | Dial-A-Ride/src/org/iiitb/graphs/DirectedEdge.java:36-44 | swapping the two edges negates the comparison |
| Digraph.NewGraph | Dial-A-Ride/src/org/iiitb/graphs/EdgeWeightedDigraph.java:13-19 | a valid graph with V empty adjacency lists and no edges |
| Digraph.AddEdge | Dial-A-Ride/src/org/iiitb/graphs/EdgeWeightedDigraph.java:32-36 | the edge is appended to the list of its tail, E grows by one, every other list is unchanged, and validity is kept |
| Digraph.Adj | Dial-A-Ride/src/org/iiitb/graphs/EdgeWeightedDigraph.java:38-41 | every edge returned for v leaves v |
| Digraph.Edges | Dial-A-Ride/src/org/iiitb/graphs/EdgeWeightedDigraph.java:43-50 | the lists are concatenated in vertex order; there are exactly E edges, and an edge is returned iff it is in some vertex's list |
| Paths.OracleTriangle | Dial-A-Ride/src/org/iiitb/graphs/DijkstraSP.java:87-90 | a distance table of shortest-path lengths is 0 from a vertex to itself and obeys the triangle inequality |
| Dijkstra.DelMin | Dial-A-Ride/src/org/iiitb/graphs/DijkstraSP.java:41 | with a correct queue, the vertex taken from the queue has the least tentative distance of all queued vertices |
| Dijkstra.RelaxKeeps | Dial-A-Ride/src/org/iiitb/graphs/DijkstraSP.java:58-83 | relaxing one edge of the settled vertex keeps the loop invariant (every distance is witnessed by a path, settled vertices are closest, the tree hangs together), one more edge on |
| Dijkstra.Update | Dial-A-Ride/src/org/iiitb/graphs/DijkstraSP.java:55-85 | after every edge leaving the settled vertex is relaxed, the full loop invariant holds again |
| Dijkstra.SettleStep | Dial-A-Ride/src/org/iiitb/graphs/DijkstraSP.java:37-48 | moving a queued vertex of least distance to the settled set keeps the invariant, and no settled vertex is farther than it |
| Dijkstra.LowerBound | Dial-A-Ride/src/org/iiitb/graphs/DijkstraSP.java:37-51 | once the queue is empty, no path to a vertex is shorter than its computed distance |
| Dijkstra.DijkstraSP | Dial-A-Ride/src/org/iiitb/graphs/DijkstraSP.java:20-51 | with a correct queue: the source has distance 0; every distance is the length of a shortest path, or infinite exactly when no path exists; every edge out of a reached vertex is relaxed; edgeTo forms a shortest-path tree |
| Dijkstra.HasPathTo | Dial-A-Ride/src/org/iiitb/graphs/DijkstraSP.java:92-95 | true iff some path leads from the source to v |
| Dijkstra.PathTo | Dial-A-Ride/src/org/iiitb/graphs/DijkstraSP.java:97-105 | no path iff v is unreachable; otherwise a path from the source to v whose weight is distTo(v) |
| MinPQ.WithCapacity | Dial-A-Ride/src/org/iiitb/graphs/MinPQ.java:22-26 | an empty heap with room for `capacity` keys |
| MinPQ.IsEmpty | Dial-A-Ride/src/org/iiitb/graphs/MinPQ.java:81-84 | true iff the queue holds no key |
| MinPQ.Size | Dial-A-Ride/src/org/iiitb/graphs/MinPQ.java:91-94 | the number of keys held |
| MinPQ.Max | Dial-A-Ride/src/org/iiitb/graphs/MinPQ.java:178-184 | underflow iff empty; otherwise a key held, and on a heap no key is smaller (despite the name) |
| MinPQ.Resize | Dial-A-Ride/src/org/iiitb/graphs/MinPQ.java:122-128 | an array of the new length holding the common prefix |
| MinPQ.ResizeKeeps | Dial-A-Ride/src/org/iiitb/graphs/MinPQ.java:122-128 | growing past the last occupied slot keeps the keys and heap order |
| MinPQ.SinkContents | Dial-A-Ride/src/org/iiitb/graphs/MinPQ.java:193-226 | both the as-written and the corrected sink permute the keys |
| MinPQ.SinkOrders | Dial-A-Ride/src/org/iiitb/graphs/MinPQ.java:193-226 | the corrected sink restores heap order when the only disorder is below the sunk slot |
| MinPQ.SwimOrders | Dial-A-Ride/src/org/iiitb/graphs/MinPQ.java:137-148 | the corrected swim restores heap order when the only disorder is on the edge above the slot, and keeps the keys |
| MinPQ.SwimAsWrittenContents | Dial-A-Ride/src/org/iiitb/graphs/MinPQ.java:137-148 | swim as written permutes the keys |
| MinPQ.RootLeastAll | Dial-A-Ride/src/org/iiitb/graphs/MinPQ.java:178-184 | in a heap the root is no larger than any key |
| MinPQ.InsertAsWritten | Dial-A-Ride/src/org/iiitb/graphs/MinPQ.java:102-111 | fails out of bounds exactly when the array is full; otherwise the keys grow by v |
| MinPQ.Insert | Dial-A-Ride/src/org/iiitb/graphs/MinPQ.java:102-111 | a heap stays a heap, the size grows by one and the keys grow by exactly v |
| MinPQ.DelMinAsWritten | Dial-A-Ride/src/org/iiitb/graphs/MinPQ.java:155-171 | underflow iff empty; otherwise returns the root and removes exactly it from the keys |
| MinPQ.DelMin | Dial-A-Ride/src/org/iiitb/graphs/MinPQ.java:155-171 | underflow iff empty; otherwise returns a least key, removes exactly it, and leaves a heap |
| MinPQ.HeapifyAsWrittenIdle | Dial-A-Ride/src/org/iiitb/graphs/MinPQ.java:39-40 | with N still 0 the constructor's sink loop changes nothing |
| MinPQ.HeapifyOrders | Dial-A-Ride/src/org/iiitb/graphs/MinPQ.java:65-66 | sinking every internal position from the middle to the root orders the heap and keeps the keys |
| MinPQ.FromArrayAsWritten | Dial-A-Ride/src/org/iiitb/graphs/MinPQ.java:34-43 | holds the array's keys in their original order in a full array |
| MinPQ.FromArray | Dial-A-Ride/src/org/iiitb/graphs/MinPQ.java:34-43 | a heap holding exactly the array's keys |
| MinPQ.Fill | Dial-A-Ride/src/org/iiitb/graphs/MinPQ.java:56-62 | the keys are stored in iteration order after the earlier slots, with the array doubled as needed |
| MinPQ.FromIterableAsWritten | Dial-A-Ride/src/org/iiitb/graphs/MinPQ.java:52-67 | holds exactly the iterated keys |
| MinPQ.FromIterable | Dial-A-Ride/src/org/iiitb/graphs/MinPQ.java:52-67 | a heap holding exactly the iterated keys |
| MinPQ.SwimOneLevel | Dial-A-Ride/src/org/iiitb/graphs/MinPQ.java:137-148 | inserting 4 into the heap 5, 6, 7 leaves 5, 4, 7, 6, which is not a heap |
| MinPQ.SinkStaleCompare | Dial-A-Ride/src/org/iiitb/graphs/MinPQ.java:217-222 | delMin on the heap 10, 11, 19, 13, 18 leaves 11, 18, 19, 13, which is not a heap |
| MinPQ.FromArrayUnordered | Dial-A-Ride/src/org/iiitb/graphs/MinPQ.java:39-42 | built from [2, 1], the queue is not a heap |
| MinPQ.FromArrayThenInsert | Dial-A-Ride/src/org/iiitb/graphs/MinPQ.java:42 | the first insert into a queue built from any array stores past the end |
| MinPQ.FromIterableThenInsert | Dial-A-Ride/src/org/iiitb/graphs/MinPQ.java:56-63 | built from three keys, the queue's first insert stores past the end |
| MinPQ.ShrinkThenInsert | Dial-A-Ride/src/org/iiitb/graphs/MinPQ.java:167-168 | capacity 3, insert, insert, delMin: the shrink leaves a full array, and the next insert stores past the end |
| IndexMinPQ.NewAsWritten | Dial-A-Ride/src/org/iiitb/graphs/IndexMinPQ.java:12-20 | an empty queue in which the keys below maxN are absent |
| IndexMinPQ.New | Dial-A-Ride/src/org/iiitb/graphs/IndexMinPQ.java:12-20 | an empty heap in which every key, maxN included, is absent |
| IndexMinPQ.Contains | Dial-A-Ride/src/org/iiitb/graphs/IndexMinPQ.java:146-149 | on a consistent queue, k is present iff it occupies a heap slot |
| IndexMinPQ.IsEmpty | Dial-A-Ride/src/org/iiitb/graphs/IndexMinPQ.java:192-195 | true iff no key is present |
| IndexMinPQ.Size | Dial-A-Ride/src/org/iiitb/graphs/IndexMinPQ.java:200-203 | the number of occupied slots, which hold exactly the present keys |
| IndexMinPQ.RootLeastKey | Dial-A-Ride/src/org/iiitb/graphs/IndexMinPQ.java:166-177 | the root's key is present and, in a heap, has an item no larger than any present key's |
| IndexMinPQ.MinIndex | Dial-A-Ride/src/org/iiitb/graphs/IndexMinPQ.java:174-177 | a present key whose item is least in a heap |
| IndexMinPQ.Min | Dial-A-Ride/src/org/iiitb/graphs/IndexMinPQ.java:166-169 | the item of some present key, and in a heap the least such item |
| IndexMinPQ.SwimFacts | Dial-A-Ride/src/org/iiitb/graphs/IndexMinPQ.java:54-67 | swim moves the items as the plain heap's swim does, and keeps slots and reverse index consistent |
| IndexMinPQ.SinkFacts | Dial-A-Ride/src/org/iiitb/graphs/IndexMinPQ.java:75-108 | the corrected sink moves the items as the plain heap's sink does, and keeps slots and reverse index consistent |
| IndexMinPQ.SinkAsWrittenFacts | Dial-A-Ride/src/org/iiitb/graphs/IndexMinPQ.java:75-108 | sink as written keeps slots and reverse index consistent; its defect is in the order only |
| IndexMinPQ.Insert | Dial-A-Ride/src/org/iiitb/graphs/IndexMinPQ.java:116-127 | k becomes present with the new item, no other key's presence changes, and a heap stays a heap |
| IndexMinPQ.Change | Dial-A-Ride/src/org/iiitb/graphs/IndexMinPQ.java:135-140 | k gets the new item, presence is unchanged, and a heap stays a heap |
| IndexMinPQ.ChangeAsWritten | Dial-A-Ride/src/org/iiitb/graphs/IndexMinPQ.java:135-140 | k gets the new item, presence is unchanged, and the queue stays consistent |
| IndexMinPQ.Delete | Dial-A-Ride/src/org/iiitb/graphs/IndexMinPQ.java:154-161 | k becomes absent, no other key's presence changes, the size drops by one, and a heap stays a heap |
| IndexMinPQ.DeleteAsWritten | Dial-A-Ride/src/org/iiitb/graphs/IndexMinPQ.java:154-161 | when k was not in the last slot, k becomes absent, the others keep their presence and the queue stays consistent |
| IndexMinPQ.DelMin | Dial-A-Ride/src/org/iiitb/graphs/IndexMinPQ.java:182-187 | returns a present key of least item and removes exactly it, leaving a heap |
| IndexMinPQ.DelMinAsWritten | Dial-A-Ride/src/org/iiitb/graphs/IndexMinPQ.java:182-187 | returns the root's key; with at least two keys the queue stays consistent without it |
| IndexMinPQ.NewMarksLastKey | Dial-A-Ride/src/org/iiitb/graphs/IndexMinPQ.java:17-18 | the new empty queue reports key maxN as present and is inconsistent |
| IndexMinPQ.DeleteLastSlotStaysPresent | Dial-A-Ride/src/org/iiitb/graphs/IndexMinPQ.java:154-161 | delMin on a one-key heap leaves an empty queue that still reports the key as present |
| IndexMinPQ.DeleteWithoutSwim | Dial-A-Ride/src/org/iiitb/graphs/IndexMinPQ.java:154-161 | deleting key 4 from a concrete heap leaves a consistent queue that is not a heap |
| IndexMinPQ.StaleHeapReturnsNonLeast | Dial-A-Ride/src/org/iiitb/graphs/IndexMinPQ.java:182-187 | after the stale sink's disorder and one insert, delMin as written returns the least key, and the next delMin returns a key whose item is greater than that of a key still queued |
| IndexMinPQ.IndexSinkStaleCompare | Dial-A-Ride/src/org/iiitb/graphs/IndexMinPQ.java:98-104 | delMin on the heap of items 10, 11, 19, 13, 18 leaves a consistent queue that is not a heap |
| Stops.MakeStop | Dial-A-Ride/src/org/iiitb/drp/Stop.java:26-37 | the fields are as given, the actual time starts at the earliest time, and a proper window contains it |
| Stops.DistToShortest | Dial-A-Ride/src/org/iiitb/drp/Stop.java:44-47 | with a shortest-path oracle, distTo is the shortest-path distance of the map, and 0 for the same place |
| Requests.MakeRequest | Dial-A-Ride/src/org/iiitb/drp/Request.java:15-21 | the id is the pickup's request id, and the fare is the direct distance times the rate |
| Requests.CompareTo | Dial-A-Ride/src/org/iiitb/drp/Request.java:27-33 | the sign of the result orders requests by earliest pickup time |
| Requests.CompareToAntisymmetric | Dial-A-Ride/src/org/iiitb/drp/Request.java:27-33 | swapping the requests negates the result, and a request compares equal to itself |
| Requests.DropWindow | Dial-A-Ride/src/org/iiitb/drp/DialARide.java:308-313 | the drop opens after the direct ride and closes at the lesser of the end of the day and the allowed deviation; the window is non-empty iff the direct ride ends within the day |
| Requests.ReadRequest | Dial-A-Ride/src/org/iiitb/drp/DialARide.java:302-316 | the request's pickup and drop have the input's places, the pickup the input window, the drop the derived window; the fare matches the oracle, and the request is well formed when its pickup window is proper and the ride ends within the day |
| Routes.Splice | Dial-A-Ride/src/org/iiitb/drp/Taxi.java:299 | the stop is at the position, earlier stops keep their places and later ones move up by one |
| Routes.Without | Dial-A-Ride/src/org/iiitb/drp/Taxi.java:122 | removing the stop at a position shifts the later stops down by one |
| Routes.InsertedWithout | Dial-A-Ride/src/org/iiitb/drp/Taxi.java:155-158 | taking the inserted stop out again gives the original stops, only retimed |
| Routes.Restore | Dial-A-Ride/src/org/iiitb/drp/Taxi.java:122-124 | the rollback gives back exactly the backed-up route |
| Routes.LoadInserted | Dial-A-Ride/src/org/iiitb/drp/Taxi.java:105-121 | after one inserted stop, passenger counts of prefixes are unchanged before it and shifted by that stop after it |
| Routes.CanPostponeSpec | Dial-A-Ride/src/org/iiitb/drp/Taxi.java:378-394 | the simulation succeeds iff the pushed-back times it would write all meet their latest times |
| Routes.Postponed | Dial-A-Ride/src/org/iiitb/drp/Taxi.java:401-409 | the stops before the position are untouched, and each later one is retimed to its earliest reachable time after its predecessor |
| Routes.PostponeAllFromStop | Dial-A-Ride/src/org/iiitb/drp/Taxi.java:396-411 | all or nothing: success iff the simulation succeeds; on success the route is only retimed, every later leg covers its travel time, and proper windows are met |
| Routes.AfterInsertion | Dial-A-Ride/src/org/iiitb/drp/Taxi.java:307-326 | checkScheduleAfterInsertion passes iff every leg covers its travel time, and otherwise the process exits |
| Routes.Place | Dial-A-Ride/src/org/iiitb/drp/Taxi.java:280-304 | the stop is inserted, later stops pushed back iff needed, refusal iff postponing fails, the exit never follows from a sound route, and windows are kept |
| TaxiStops.InsertStop | Dial-A-Ride/src/org/iiitb/drp/Taxi.java:174-305 | positions outside the route are refused; a placed stop gets its earliest reachable time inside its window, the rest of the route is kept in order, every leg stays covered, and the exit never follows from a sound route |
| ScheduleStops.InsertStop | Dial-A-Ride/src/org/iiitb/drp/TaxiSchedule.java:185-289 | the same for this revision, which also never brings an old first stop forward and refuses the interior case the source refuses |
| ScheduleStops.Front | Dial-A-Ride/src/org/iiitb/drp/TaxiSchedule.java:190-221 | a first stop is refused when it cannot reach its window, or would reach the old first stop early; the old first stop is never brought forward |
| ScheduleStops.Back | Dial-A-Ride/src/org/iiitb/drp/TaxiSchedule.java:222-230 | a last stop obeys the laws common to both revisions |
| ScheduleStops.Middle | Dial-A-Ride/src/org/iiitb/drp/TaxiSchedule.java:231-264 | an interior stop is refused between stops at the same place and time, and on success the next stop is reached within its window |
| ScheduleStops.PushedHeadLater | Dial-A-Ride/src/org/iiitb/drp/TaxiSchedule.java:209-216 | pushing back after a new first stop only delays the old first stop |
| Booking.TryDrop | Dial-A-Ride/src/org/iiitb/drp/Taxi.java:102-161 | a refusal keeps the route; a drop is placed after the pickup only where every passenger count before it was within capacity |
| Booking.TryPickup | Dial-A-Ride/src/org/iiitb/drp/Taxi.java:57-162 | a refusal keeps the route; a success places the pickup strictly before the drop and keeps a sound route sound |
| Booking.PairFacts | Dial-A-Ride/src/org/iiitb/drp/Taxi.java:102-152 | the pickup and drop insertions together add the request to the route and keep a sound route sound |
| Booking.Book | Dial-A-Ride/src/org/iiitb/drp/Taxi.java:37-164 | a refusal keeps the route; a success adds the pickup before the drop, every leg stays covered, and a sound route stays sound |
| Taxis.NewTaxi | Dial-A-Ride/src/org/iiitb/drp/Taxi.java:19-29 | an empty route, no revenue, and a start stop at the start of the day; the new taxi is sound |
| Taxis.Schedule | Dial-A-Ride/src/org/iiitb/drp/Taxi.java:37-164 | a refusal leaves the taxi unchanged; a success adds the fare and the request's pickup before its drop; the exit never happens on a sound route, and a taxi with at least one seat stays sound |
| Taxis.ZeroCapacityOverloads | Dial-A-Ride/src/org/iiitb/drp/Taxi.java:42-49 | a new taxi of capacity 0 accepts its first request on the empty-route path, and check() then exits with status 1 |
| Taxis.ScheduleSeated | Dial-A-Ride/src/org/iiitb/drp/Taxi.java:37-164 | with the intended guard, a taxi without a seat refuses; then every sound taxi stays sound and passes check() after any well-formed request |
| Taxis.CheckFromSpec | Dial-A-Ride/src/org/iiitb/drp/Taxi.java:328-371 | the loop passes from a position on iff every later stop covers its leg, stays within capacity and meets its window; otherwise it exits with 1 or 2 |
| Taxis.Check | Dial-A-Ride/src/org/iiitb/drp/Taxi.java:328-371 | passes iff every leg is covered, the load never exceeds capacity and every window is met; otherwise it exits with 1 or 2 |
| Taxis.Anchor | Dial-A-Ride/src/org/iiitb/drp/Taxi.java:452-458 | the first stop, unless the time equals its earliest time; then the first stop earlier than the time, or the last stop |
| Taxis.FirstEarlier | Dial-A-Ride/src/org/iiitb/drp/Taxi.java:455-458 | the first stop from a position on whose earliest time is before the time, or the last stop when none is |
| Taxis.Dist | Dial-A-Ride/src/org/iiitb/drp/Taxi.java:447-460 | an idle taxi measures from its start; otherwise from a stop of the route, the first one unless the time equals its earliest time |
| Taxis.IdleTelescopes | Dial-A-Ride/src/org/iiitb/drp/Taxi.java:474-485 | the summed waiting equals the time to the last stop minus the driving time |
| Taxis.IdleNonNegative | Dial-A-Ride/src/org/iiitb/drp/Taxi.java:478-482 | when every leg covers its travel time, no waiting is negative |
| Taxis.DrivingFits | Dial-A-Ride/src/org/iiitb/drp/Taxi.java:462-485 | on a covered route the driving time fits between the start and the last stop |
| Taxis.DistanceTravelled | Dial-A-Ride/src/org/iiitb/drp/Taxi.java:462-472 | 0 on an empty route, and on a covered route its driving time fits before the last stop |
| Taxis.IdleTime | Dial-A-Ride/src/org/iiitb/drp/Taxi.java:474-485 | the rest of the day after the start minus the driving time, at least the time left after the last stop |
| TaxiSchedules.NewSchedule | Dial-A-Ride/src/org/iiitb/drp/TaxiSchedule.java:18-25 | the start stop is kept apart from an empty route; the new schedule is sound |
| TaxiSchedules.InsertRequest | Dial-A-Ride/src/org/iiitb/drp/TaxiSchedule.java:33-175 | a refusal leaves the schedule unchanged; a success changes only the route, adding the pickup before the drop; an empty route becomes exactly the pair; soundness is kept |
| Sorting.Sort | Dial-A-Ride/src/org/iiitb/drp/DialARide.java:34 | sorted by the key, a permutation of the input, and stable: elements with equal keys keep their order |
| Sorting.SortUnique | Dial-A-Ride/src/org/iiitb/drp/DialARide.java:34 | any sorted, stable rearrangement with the same elements is the sort's result |
| Dispatch.RemoveFirstSpec | Dial-A-Ride/src/org/iiitb/drp/DialARide.java:73 | removing a request that is absent changes nothing; otherwise exactly its first occurrence is cut out |
| Dispatch.OfferInOrder | Dial-A-Ride/src/org/iiitb/drp/DialARide.java:70-76 | the taxi that accepts is the only one changed; the exit never happens on a fleet of covered routes |
| Dispatch.OfferRefusals | Dial-A-Ride/src/org/iiitb/drp/DialARide.java:70-76 | every taxi offered the request before the one that accepted, or every taxi when none did, refused it |
| Dispatch.Accept | Dial-A-Ride/src/org/iiitb/drp/DialARide.java:71-75 | taking a request keeps the books: the unserviced list, the revenue and the fleet's revenue agree with the requests taken |
| Dispatch.CompareNearest | Dial-A-Ride/src/org/iiitb/drp/DialARide.java:355-358 | the sign of the result orders by distance |
| Dispatch.Nearest | Dial-A-Ride/src/org/iiitb/drp/DialARide.java:105-108 | one entry per taxi, in fleet order, with the taxi's distance to the pickup at its earliest time |
| Dispatch.NearestOrder | Dial-A-Ride/src/org/iiitb/drp/DialARide.java:105-109 | every taxi exactly once, by nondecreasing distance, with ties in fleet order |
| Dispatch.OfferFrom | Dial-A-Ride/src/org/iiitb/drp/DialARide.java:103-118 | the pass over the requests keeps the books, and never exits on a fleet of covered routes |
| Dispatch.Schedule13 | Dial-A-Ride/src/org/iiitb/drp/DialARide.java:66-77 | schedule1 (and schedule3): keeps the books; a request stays unserviced iff it was and no taxi took it |
| Dispatch.Stride | Dial-A-Ride/src/org/iiitb/drp/DialARide.java:87-96 | taxi ti is offered only the requests of its stride; the books are kept |
| Dispatch.StridesFrom | Dial-A-Ride/src/org/iiitb/drp/DialARide.java:83-98 | every taxi from ti on runs its stride; the books are kept |
| Dispatch.Schedule2 | Dial-A-Ride/src/org/iiitb/drp/DialARide.java:79-99 | a request m, if taken, is taken by taxi m mod n; the books are kept; a request stays unserviced iff it was and no taxi took it |
| Dispatch.OwnerIsMod | Dial-A-Ride/src/org/iiitb/drp/DialARide.java:84-97 | the taxi whose stride holds request m is taxi m mod n |
| Dispatch.StridedIsMod | Dial-A-Ride/src/org/iiitb/drp/DialARide.java:83-97 | after all strides, every taken request was taken by the taxi its index mod n names |
| Dispatch.AccountedStart | Dial-A-Ride/src/org/iiitb/drp/DialARide.java:35-36 | before any request is taken, the books are in order |
| Dispatch.EarnedIsFares | Dial-A-Ride/src/org/iiitb/drp/Request.java:15-21 | the revenue from the requests taken equals the sum of their direct-ride fares |
| Dispatch.Create | Dial-A-Ride/src/org/iiitb/drp/DialARide.java:29-40 | the requests are sorted stably by earliest pickup; after schedule1 the unserviced requests are those not taken, in sorted order, the revenue is the fares taken, the fleet is the same, the taxis' revenue grew by those fares, and a sound fleet stays sound |
| Dispatch.Created | Dial-A-Ride/src/org/iiitb/drp/DialARide.java:33-40 | the bookkeeping facts of a first pass, read for a fresh dispatcher: the unserviced list is the positions not taken, in order |

## Left out

- Input parsing and output: reading the map, the taxis and the requests from
  files, `display()`, `toString()` and the logging. Only the derivation of a
  request's drop window from the input is modelled.
- `schedule4`, the commented-out loop of the constructor, A.java and the
  `ShortestPaths` interface are not part of this model.
- `PickUpTimingConstraintViolation`: it is declared but never thrown by the
  modelled code.
- Floating point: distances are natural numbers. The oracle stands for the
  truncated shortest distance, `(int) distTo`. `Double.POSITIVE_INFINITY` in
  Dijkstra is the `Inf` value of the `Dist` type, and edge weights are integers.
- Unreachable places: the model assumes that every place can reach every
  other, so the oracle gives a finite distance for every pair. The source
  does not promise this. A distance of -1 in the map file means no edge
  (DialARide.java:271-273), and Dijkstra leaves an unreachable place at
  infinity (DijkstraSP.java:23-24). `(int)` of infinity is
  `Integer.MAX_VALUE` (Stop.java:44-47). Then `shortestTime` computes
  `Integer.MAX_VALUE * 2`, which wraps to -2 (Taxi.java:375,
  TaxiSchedule.java:293). The drop window adds `(int)` of infinity to `et`,
  which wraps for `et >= 1` (DialARide.java:308-312). The source can then
  accept a request whose drop cannot be reached. The model cannot express
  such a pair, because its oracle gives a natural number for every pair. The
  members below inherit this gap.
- Routes.Travel: a finite travel time for every pair of places. For an
  unreachable pair the source's travel time is -2.
- Stops.DistToShortest: assumes every pair of places reachable. For an
  unreachable pair the source returns `Integer.MAX_VALUE`.
- Requests.DropWindow, Requests.ReadRequest: assume the drop place reachable
  from the pickup. Otherwise the source's drop window wraps around 2^31.
- Routes.CanPostponeSpec, Routes.Postponed, Routes.PostponeAllFromStop: time
  the pushed-back stops with finite travel times. Across an unreachable leg
  the source times a stop 2 minutes before its predecessor, or at its
  earliest time if that is later.
- Routes.AfterInsertion, Routes.Place: check the legs with finite travel
  times. The source checks an unreachable leg against a travel time of -2.
- TaxiStops.InsertStop, ScheduleStops.InsertStop: time the new stop with a
  finite travel time. When the two places are not connected, the source can
  time it 2 minutes before its predecessor.
- ScheduleStops.Front, ScheduleStops.Back, ScheduleStops.Middle: decide with
  finite travel times. The source's -2 can let a request through.
- Taxis.CheckFromSpec, Taxis.Check: compare the legs with finite travel
  times. The source compares an unreachable leg with -2, so that leg does
  not make `check()` exit unless the stop is timed more than 2 minutes
  before its predecessor.
- Taxis.DistanceTravelled: sums finite distances. The source adds
  `Integer.MAX_VALUE` for each unreachable leg, and the sum wraps.
- Taxis.IdleTime: subtracts finite travel times. The source subtracts -2 for
  each unreachable leg, so it counts 2 more idle minutes there.
- Object identity: `route.indexOf`, `route.remove(stop)` and
  `unservicedRequests.remove(request)` locate objects by reference. The model
  locates stops by position and requests by their index in the sorted list.
- The static id counter of `Taxi` becomes a parameter. Stops carry the id of
  their request, which the caller passes in.
- `Stop.clone`: on immutable values a copy is the value itself, so
  `Stops.Clone` is the identity and states nothing beyond that.
- `System.exit` is modelled as an outcome (`Exited`, `Halted`, `Exit(1)`, `Exit(2)`).
- Dijkstra's queue is modelled abstractly: a duplicate-free list of queued
  vertices whose delMin returns one of least distance. The array-backed
  `IndexMinPQ` is proved separately, with its defects.
- Dijkstra.DelMin, Dijkstra.DijkstraSP: both assume a correct queue. The
  source's `IndexMinPQ.delMin` can return a vertex that is not least
  (`IndexMinPQ.StaleHeapReturnsNonLeast`). It can also leave a deleted vertex
  marked present (`IndexMinPQ.DeleteLastSlotStaysPresent`). If that vertex's
  distance later falls, `update` calls `change` instead of `insert`, and the
  vertex is never settled again. So the distances the source computes are not
  proved shortest; the model proves them shortest only for a correct queue.
- Windows are immutable. `TaxiSchedule` backs up and restores `et` and `lt`
  (TaxiSchedule.java:82-83, 131-132, 161-162), but `Stop` declares them
  `final` and has no `b_et` or `b_lt` field. Nothing else writes them, so the
  restore gives back the values they already had.
- Exceptions in the priority queues are modelled as preconditions. They are
  the array index errors of `change` and `delete` with an absent key, and of
  `insert` into a full array. MinPQ's underflow and out-of-bounds cases are
  modelled as results.
- IndexMinPQ.Min, IndexMinPQ.MinIndex: require a non-empty queue. The source
  does not throw there when the array has a slot 1; it returns whatever slot 1
  still holds. The model makes no promise about that stale value.
- IndexMinPQ.DelMin, IndexMinPQ.DelMinAsWritten: require a non-empty queue.
  On an empty queue the source deletes whatever key slot 1 still holds, and
  the model makes no promise about that.
- IndexMinPQ.Insert: requires the key to be absent. The source accepts a key
  that is already present and stores it in a second slot without an
  exception. The model makes no promise about that duplicate.
- Digraph.AddEdge, Digraph.Adj: require the vertex to be in range. Out of
  range, the source throws an array index exception.
- Requests.CompareTo: does not model the 32-bit wrap-around of the subtraction
  `et - r.et`, because times lie within one day.
- Dispatch.CompareNearest: does not model the 32-bit wrap-around of
  `dist - o.dist`. None is needed: `(int)` of a double saturates, so both
  distances lie in 0 .. 2^31 - 1 even for an unreachable taxi, and their
  difference cannot wrap.
- Taxis.IdleTime: requires a non-empty route, because the source reads the
  last stop and throws on an empty route.
- ScheduleStops.InsertStop: requires a non-negative position, because this
  revision does not check for one and fails on it. Its callers never pass one.
- TaxiStops.InsertStop, ScheduleStops.InsertStop: the Java `assert` that
  position 0 takes a pickup is a precondition.

## Findings

| source | as written | input that shows it | evidently intended | confidence | as-written member | corrected member |
|---|---|---|---|---|---|---|
| Dial-A-Ride/src/org/iiitb/graphs/MinPQ.java:137-148 | `swim` compares the parent with `pq[i]`, which after the first half-exchange holds the moved parent rather than the saved key, so a key rises at most one level | insert 4 into the heap 5, 6, 7: the result is 5, 4, 7, 6 | compare with the saved key `t` | high; not executed | MinPQ.SwimOneLevel | MinPQ.Insert |
| Dial-A-Ride/src/org/iiitb/graphs/MinPQ.java:217-222 | the single-child step of `sink` compares the stale `pq[i]` with `pq[N]` rather than the saved key | delMin on the heap 10, 11, 19, 13, 18 leaves 11, 18, 19, 13 | compare the saved key `t` with `pq[N]` | high; not executed | MinPQ.SinkStaleCompare | MinPQ.DelMin |
| Dial-A-Ride/src/org/iiitb/graphs/MinPQ.java:39-42 | the array constructor sinks while `N` is still 0, so nothing is heapified | the array [2, 1] | set `N` before the sink loop | high; not executed | MinPQ.FromArrayUnordered | MinPQ.FromArray |
| Dial-A-Ride/src/org/iiitb/graphs/MinPQ.java:102-111 | `insert` stores at `++N` before it grows the array, and the constructors and the shrink in `delMin` can leave the array full | any queue built from an array; three keys from an iterable; capacity 3, insert, insert, delMin | grow a full array before the store | high; not executed | MinPQ.FromArrayThenInsert | MinPQ.Insert |
| Dial-A-Ride/src/org/iiitb/graphs/IndexMinPQ.java:98-104 | the single-child step of `sink` compares the item of the stale `pq[i]` rather than that of the saved key | delMin on the heap of items 10, 11, 19, 13, 18 | compare `items[t]` | high; not executed | IndexMinPQ.IndexSinkStaleCompare | IndexMinPQ.DelMin |
| Dial-A-Ride/src/org/iiitb/graphs/IndexMinPQ.java:154-161 | deleting the key in the last slot runs `sink` on the vacated slot, which writes its reverse index back | delMin on a queue holding one key | skip the sink when the deleted slot was the last | high; not executed | IndexMinPQ.DeleteLastSlotStaysPresent | IndexMinPQ.Delete |
| Dial-A-Ride/src/org/iiitb/graphs/IndexMinPQ.java:17-18 | the constructor clears the reverse index only below maxN, so key maxN reads as present | any new queue | clear all maxN + 1 entries | high; not executed | IndexMinPQ.NewMarksLastKey | IndexMinPQ.New |
| Dial-A-Ride/src/org/iiitb/graphs/IndexMinPQ.java:154-161 | `delete` only sinks the key moved into the vacated slot; a key smaller than its new parent is left in place | delete key 4 (item 12, slot 5) from the heap of items 1, 10, 2, 11, 12, 3, 4 | swim, then sink, the moved key | high; not executed | IndexMinPQ.DeleteWithoutSwim | IndexMinPQ.Delete |
| Dial-A-Ride/src/org/iiitb/drp/Taxi.java:42-49 | on an empty route `schedule` inserts the pickup and the drop without comparing a passenger count with the capacity, and the capacity read at DialARide.java:261 has no lower bound; `TaxiSchedule.insertRequest` (TaxiSchedule.java:38-42) does the same | a new taxi of capacity 0 at place 0, every distance 0, and a request at place 0 whose windows are both [0, 10]: it is accepted, and `check()` exits with status 1 | a taxi without a seat refuses every request | medium; not executed | Taxis.ZeroCapacityOverloads | Taxis.ScheduleSeated |
