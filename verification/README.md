# Parking, bus-transfer and road-path programs in Dafny

A model of three small C++ programs:

- **Parking lot** (directory 3). There is an M x N lot whose entrance is at spot (0, 0). Vehicles arrive in input order. Each one parks for a fixed stay, or waits until a spot is free. Two strategies place them:
  - runGreedy takes the free spot nearest the entrance by r + c, breaking ties row-major.
  - runBacktracking is a depth-first search over every placement. It prunes with a lower bound built from the sorted spot distances.

  Both report per-vehicle spot, entry and exit arrays, a total distance and a departure order. main prints a snapshot grid of each result and runs the search only for at most twelve vehicles.
- **Bus transfers** (directory 2). Station names are interned into ids. main builds the line tables and answers queries with one of two solvers:
  - solveMinTransfers: a breadth-first search over lines that finds the fewest changes, then rebuilds the stations ridden with appendSegment.
  - solveWeighted: Dijkstra over (station, line) states, with weight 0 for boarding or staying on a line, BIG = 100000 for a change and 1 per stop. The result decodes as transfers = d / BIG and stops = d % BIG.
- **Roads** (directory 1). main builds undirected adjacency lists, skipping edges whose endpoints are out of range. It checks that both query nodes lie in range. buildPath rebuilds the path from the predecessor array of a shortest-path search.

Every operation is modelled on immutable values:

- The parking simulation threads a state record through pure functions.
- The search returns its incumbent and the restored arrays by value.
- The Dijkstra search is a method over a graph of integer-weighted arcs, built from the state table.
- Proofs connect each operation to an independent reference definition:
  - a feasible timed schedule (Schedule);
  - journeys over lines (MinTransfers);
  - walks of moves between (station, line) states (Weighted);
  - paths along a predecessor array (Roads).

## Model

| member | source | states |
|---|---|---|
| Lot.Occupancy | 3/parking.cpp:100-107 | The occupancy bitmap rebuilt from the parked cars marks a spot exactly when some parked car holds it. |
| Lot.PickGreedySpot | 3/parking.cpp:59-77 | -1 exactly when no spot is free. Otherwise the result is a free spot: no free spot is nearer by r + c, and every free spot before it in row-major order is strictly farther. |
| Lot.NearestFreeUnique | 3/parking.cpp:67-72 | Two spots that both meet that rule are the same spot, so the row-major tie-break fixes the choice. |
| Lot.RowMajorOrder | 3/parking.cpp:71-72 | Comparing (spot / N, spot % N) row-major is comparing the spot indices. |
| Lot.FullIffCount | 3/parking.cpp:194-198 | With cars on distinct spots, the bitmap is full exactly when M*N cars are parked. So the search's count test and greedy's bitmap test agree. |
| Lot.Candidates | 3/parking.cpp:200-217 | The search's candidates are free spots of the lot, include every free spot, and are ascending by distance. |
| Lot.CandidatesPermute | 3/parking.cpp:200-217 | The candidates are the row-major free spots, each exactly once. |
| Lot.CandidateHeadIsGreedy | 3/parking.cpp:200-217 | On a lot with room, the first candidate is the spot pickGreedySpot chooses. |
| Release.EarliestIndex | 3/parking.cpp:33-42 | The selection loop finds -1 exactly for no cars. Otherwise it finds a car that precedes every parked car by (endTime, id). |
| Release.ReleaseByTime | 3/parking.cpp:29-49 | It keeps exactly the cars ending after t, in their order. It releases only parked cars ending by t, listed ascending by (endTime, id). |
| Release.ReleasePermutes | 3/parking.cpp:29-49 | The cars kept and the cars released together are the cars that were parked. |
| Release.StillParkedTwice | 3/parking.cpp:29-49 | Releasing at t and then at a later u leaves what releasing at u alone leaves. |
| Release.EarliestDeparture | 3/parking.cpp:52-56 | INT_MAX when no car is parked. Otherwise it is no later than any parked car's end, and equal to one of them when the ends are below INT_MAX. |
| Release.ReleaseProgress | 3/parking.cpp:125-127 | Advancing to the earliest departure releases at least one car, so the wait loop ends. |
| Schedule.Blank | 3/parking.cpp:85-87 | The three result arrays start with K + 1 entries, all -1. |
| Schedule.Assign | 3/parking.cpp:118-120 | Recording a vehicle sets its three entries and leaves every other vehicle's entries alone. |
| Schedule.UnassignRestores | 3/parking.cpp:230-238 | Recording a vehicle that was unset and then resetting it to -1 gives back the arrays exactly. |
| Schedule.PlacedNoOverlap | 3/parking.h:16-24 | In a schedule placed by the rules, no two vehicles are on one spot at the same instant. |
| Schedule.ActiveIsOccupancy | 3/parking.cpp:99-107 | From the clock on, the cars still parked cover exactly the spots the arrays say vehicles 1..n cover. |
| ExchangeSort.Sort | 3/parking.cpp:208-217 | The exchange sort keeps the length and leaves the sequence ascending under the comparison. |
| ExchangeSort.SortPermutes | 3/parking.cpp:259-265 | The sorted sequence is a permutation of its input. |
| ExchangeSort.SortHead | 3/parking.cpp:287-293 | The sort puts the first minimal element at the front. |
| Greedy.Admit | 3/parking.cpp:109-130 | The wait loop lets the vehicle enter at t or at a parked car's end time. Releases happen first, in (endTime, id) order. The lot was full at every instant it waited, and the spot is the nearest free one at entry. |
| Greedy.AdmitPermutes | 3/parking.cpp:109-130 | The cars kept and released by the wait loop together are the cars that were parked. |
| Greedy.Park | 3/parking.cpp:94-131 | One outer iteration keeps the simulation invariant one vehicle further, and the clock never goes back. |
| Greedy.RunGreedy | 3/parking.cpp:80-138 | Each vehicle enters by the greedy rule, and no two vehicles share a spot at once. The total is the r + c sum of the spots, and every vehicle departs exactly once. |
| GreedyOrder.RunGreedyDepartsInOrder | 3/parking.h:20 | Greedy's departure order is ascending by end time, with ties broken by id. |
| Backtrack.SortedDistances | 3/parking.cpp:257-266 | The sorted spot distances are the M*N distances r + c, reordered ascending. |
| Backtrack.LowerBoundRemain | 3/parking.cpp:154-158 | The bound is the sum of the first min(remain, M*N) sorted distances, and 0 for remain <= 0. |
| Backtrack.Dfs | 3/parking.cpp:161-240 | The search returns the incumbent unchanged or a strictly better one. From a consistent node, every incumbent it records is a complete feasible schedule with its true distance. |
| Backtrack.Explore | 3/parking.cpp:185-240 | The placement part of a node (release, wait on a full lot, or branch) has the same promise. |
| Backtrack.TryCandidates | 3/parking.cpp:219-239 | The branch loop never worsens the incumbent and keeps it feasible. |
| Backtrack.TryOne | 3/parking.cpp:222-238 | One branch never worsens the incumbent. The reset after it gives back exactly the arrays the branch started from. |
| Backtrack.Descend | 3/parking.cpp:225-234 | Searching below one candidate never worsens the incumbent and keeps it feasible. |
| Backtrack.IncumbentNoOverlap | 3/parking.cpp:177-183 | A recorded complete assignment never puts two vehicles on one spot at once. |
| Backtrack.RunBacktracking | 3/parking.cpp:243-299 | Either nothing beat INT_MAX and the arrays are all -1, or the result is a complete feasible schedule whose total is its spots' distance sum. Its departure order lists every vehicle once, by (endTime, id). |
| FirstLeaf.RunBacktrackingNoWorse | 3/parking.cpp:243-299 | The search's total is never above greedy's, because its first descent reproduces greedy's schedule. |
| Departures.DepartureOrder | 3/parking.cpp:282-294 | The ids are ordered ascending by end time, then by id. |
| Departures.DepartureOrderPermutes | 3/parking.cpp:282-294 | The departure order lists every id 1..K exactly once. |
| Report.MakeVehicles | 3/main.cpp:348-352 | The i-th pair read becomes vehicle i (counting from 1) with that arrival and stay. |
| Report.Paint | 3/main.cpp:305-313 | A grid cell holds 0 or the largest drawn id whose spot it is. Every vehicle drawn there is at most that id. |
| Report.PlacedSnapshot | 3/main.cpp:304-321 | For a feasible schedule, cell (r, c) shows vehicle v exactly when v is parked on spot r*N + c at the snapshot instant. |
| Report.BlankSnapshot | 3/main.cpp:304-321 | Arrays still all -1 give an all-zero grid. |
| Report.Summarize | 3/main.cpp:356-374 | A printed report carries the strategy's distance and departure order. Its grid shows v in a cell exactly when v occupies that spot at the instant. |
| Report.RunReport | 3/main.cpp:331-381 | The search report is present exactly when there are at most twelve vehicles. Each report carries its strategy's total and departure order, and its M x N grid shows vehicle v in a cell exactly when v occupies that spot at the snapshot instant. |
| Segment.ScanLast | 2/bus.cpp:30-35 | The scan finds the last occurrence of the station, or -1 exactly when it is absent. |
| Segment.AppendSegment | 2/bus.cpp:29-51 | False with the output unchanged exactly when a station is missing from the line. Otherwise the output is extended to end at the second station, and a run without repeats keeps none. |
| Segment.AppendSegmentSquashes | 2/bus.cpp:29-51 | Appending the stretch between the last occurrences of the two stations equals the squashed concatenation. |
| Segment.AppendAllSquashes | 2/bus.cpp:39-49 | Pushing stations one by one onto a run without repeats gives the squashed concatenation. |
| Segment.ReverseAsWrittenNonEmpty | 2/bus.cpp:124-129 | The swap loop reverses a non-empty vector. |
| Segment.ReverseAsWrittenEmpty | 2/bus.cpp:127-129 | On an empty transfer list the loop as written indexes out of range. |
| Segment.ReverseGuarded | 2/bus.cpp:127-129 | The guarded loop reverses every vector, including the empty one. |
| Stations.GetStationId | 2/main.cpp:14-21 | A known name keeps its id and changes nothing. A new name gets the next id and is recorded in both tables. |
| Stations.InternLine | 2/main.cpp:48-53 | Each id names the station read at its position, and earlier ids keep their names. |
| Stations.ReadLines | 2/main.cpp:43-54 | Every id of lines 1..L names the station read there. Line 0 is empty. The known names are exactly the names on the lines. |
| Stations.StationLinesUpTo | 2/main.cpp:57-63 | Each station's list holds line x as often as the station occurs on x, ascending. |
| Stations.StationLines | 2/main.cpp:56-63 | The full stationLines table lists line x for a station as often as the station occurs on x, so exactly when it is on x, in ascending order. |
| Stations.InLine | 2/main.cpp:65-70 | inLine[i][sid] holds exactly when station sid is on line i. |
| Stations.PosInLine | 2/main.cpp:72-77 | The last position of the station on the line, or -1 when it is not there. This is the index appendSegment's scan finds. |
| MinTransfers.Search | 2/bus.cpp:87-108 | When the queue runs dry no journey exists. On a stop, the goal line is at the front of the queue and passes through the end station. |
| MinTransfers.NoJourney | 2/bus.cpp:88-110 | With an empty queue no journey from start to end exists. |
| MinTransfers.GoalOptimal | 2/bus.cpp:88-94 | When a goal line reaches the front of the queue, no journey uses fewer lines than its depth + 1. |
| MinTransfers.Walk | 2/bus.cpp:115-123 | The walk back records depth + 1 lines, with a transfer station between each consecutive pair, ending on a line through the start station. |
| MinTransfers.WalkBackwards | 2/bus.cpp:115-129 | The walk back, read forwards, is a journey from start to end. |
| MinTransfers.StationSeq | 2/bus.cpp:140-153 | The stations ridden: each line of the journey traversed between the last occurrences of its boarding and leaving stations, forwards or backwards, concatenated, with every station that repeats its predecessor dropped. So it starts at s, ends at e and never repeats a station twice in a row. |
| MinTransfers.SolveMinTransfers | 2/bus.cpp:64-156 | None exactly when no journey exists. Otherwise the result is a journey with the fewest transfers (lines - 1), and its stations are that journey's ride with repeated neighbours dropped, from start to end. |
| StateTable.PackKeyUnpacks | 2/bus.cpp:166-168 | A packed key in range unpacks by division: the station is the quotient by L + 1, the line is the remainder. |
| StateTable.PackKeyInjective | 2/bus.cpp:166-168 | Two keys in range pack to the same number exactly when they are the same key. |
| StateTable.IdOfKey | 2/bus.cpp:186-200 | In the numbering, the id found for a key's packed number is the id of that very key. |
| StateTable.AddLines | 2/bus.cpp:194-201 | The inner loop numbers each new (station, line) key once and keeps old ids. |
| StateTable.AddStations | 2/bus.cpp:193-202 | The outer loop numbers every (station, line) key of the table and lists nothing else. |
| StateTable.Build | 2/bus.cpp:186-202 | State 0 is (start, 0). Every other state is a station with one of its lines. Every (station, line) pair has a state. |
| Dijkstra.Search | 2/bus.cpp:204-261 | The predecessor links witness the distances. When the heap runs dry no goal is reachable. On a stop, no path to a goal costs less than the stopping state's distance. |
| Dijkstra.Round | 2/bus.cpp:212-261 | One round keeps the search invariant, and either settles a state or shrinks the heap. |
| Dijkstra.Relax | 2/bus.cpp:224-260 | After relaxing u, every arc's target is reached no farther than dist[u] plus the arc's weight. An improved state gets u as predecessor and a heap entry at its new distance. Every other state is left as it was. |
| Dijkstra.StaleOk | 2/bus.cpp:216 | Skipping a stale heap entry keeps the invariant. |
| Dijkstra.StopOk | 2/bus.cpp:221 | At the first goal entry taken, no goal is nearer, reached or not. |
| Dijkstra.FrontierBound | 2/bus.cpp:212-216 | A path to a state not yet settled costs at least the least heap distance. |
| Dijkstra.TracePath | 2/bus.cpp:278-286 | The walk back from a reached state, reversed, is a path from the source whose cost is that state's distance. |
| Weighted.Switches | 2/bus.cpp:224-236 | There is one arc per line through the station, to the state on that line. It weighs 0 before boarding or on the same line, BIG otherwise. |
| Weighted.ArcMoves | 2/bus.cpp:224-259 | Every arc of the state graph is a move between the states it joins, at the arc's weight. |
| Weighted.MoveArc | 2/bus.cpp:224-259 | Every move from a state is an arc of the graph. |
| Weighted.FareSplits | 2/bus.cpp:11 | A walk weighs BIG per change of line plus 1 per stop. |
| Weighted.Decodes | 2/bus.cpp:301-302 | With fewer than BIG stops, d / BIG and d % BIG are the walk's changes and stops. |
| Weighted.Lexicographic | 2/bus.cpp:11 | With fewer than BIG stops, one walk weighs no more than another exactly when it has fewer changes, or as many changes and no more stops. |
| Weighted.PathWalks | 2/bus.cpp:224-259 | A path of the state graph from state 0 is a walk from (start, 0) of the same weight. |
| Weighted.WalkPaths | 2/bus.cpp:224-259 | A walk from (start, 0) is a path of the state graph of the same weight. |
| Weighted.States | 2/bus.cpp:186-200 | The table numbers (start, 0) as state 0 and gives every (station, line) pair of the network a state. Every other state is a station on one of its own lines. |
| Weighted.Goal | 2/bus.cpp:221 | A state is a goal exactly when it is the end station on some line. |
| Weighted.PickEnd | 2/bus.cpp:263-276 | Over the end station's lines, it finds the first reached state of strictly least distance, or -1 when none is reached. |
| Weighted.Reach | 2/bus.cpp:204-276 | best is -1 only when no trip exists. Otherwise best is a reached state of the end station on a line, and no trip to the end weighs less. |
| Weighted.Report | 2/bus.cpp:278-302 | The walk back along prev, reversed, is a walk to the best state weighing its distance. Transfers and stops are its quotient and remainder by BIG. Stations and lines are listed with repeats side by side dropped, and line 0 left out. |
| Weighted.Summarize | 2/bus.cpp:288-299 | The station sequence is the route's stations squashed, and the line sequence is its non-zero lines squashed. |
| Weighted.SummarizeRound | 2/bus.cpp:291-298 | A station is pushed unless it repeats the last one. A line is pushed unless it is 0 or repeats the last line pushed. |
| Weighted.SolveWeighted | 2/bus.cpp:170-315 | A station to itself gives 0 transfers, 0 stops and no line. Otherwise None exactly when no trip exists. Else the result is a trip of least weight, weighing transfers * BIG + stops, with its squashed stations and lines. With fewer than BIG stops, these are its changes and stops. |
| TransitQuery.NetOf | 2/main.cpp:56-70 | The tables main builds for the fewest-transfer search are well formed. |
| TransitQuery.TablesOf | 2/main.cpp:56-77 | The tables main builds for the weighted search are well formed and agree with those of the fewest-transfer search. |
| TransitQuery.Query | 2/main.cpp:82-109 | A query is turned away exactly when a name is unknown or its station is on no line. Otherwise type 1 answers with the fewest-transfer search and any other type with the weighted one, each reporting no route exactly when none exists. |
| TransitQuery.KnownStationsRide | 2/main.cpp:86-97 | In the network main reads, every known station is on a line, so a query is turned away exactly when a name is unknown. |
| Roads.BuildGraph | 1/main.cpp:115-124 | Lists 0..N, each node's list holding the entries of the accepted edges at that node, in reading order. |
| Roads.IncidentFrom | 1/main.cpp:120-123 | An entry is on a node's list exactly when some accepted edge read contributes it. |
| Roads.IncidentInRange | 1/main.cpp:120 | Only nodes 1..N have entries, and every entry leads to a node 1..N. |
| Roads.IncidentSymmetric | 1/main.cpp:122-123 | Node x lists y with given attributes exactly as often as y lists x with the same attributes. |
| Roads.Walk | 1/graph.cpp:77-81 | The walk back from t follows prev, stopping at s or at the last node before -1. |
| Roads.BuildPath | 1/graph.cpp:74-89 | Empty, or a path from s to t along prev that meets s only at its start. It is the only such path, and [s] when s == t. |
| Roads.PathsRetraced | 1/main.cpp:76-91 | Every path from s to t along prev is the walk back from t, read forwards. |
| Roads.RankedStops | 1/main.cpp:79-83 | A predecessor array ranked downward lets the walk back stop. |
| Roads.Answer | 1/main.cpp:128-145 | "Invalid nodes" exactly when s or t lies outside 1..N, and "No path" exactly when in range and not found. Otherwise mode 1 is searched exactly for type 2, and the route is empty or a path from s to t. |

## Left out

- Console input, printing, and the clock() timings are left out. Inputs are sequences and results are values. The elapsed times are not modelled.
- The road search (1/graph.cpp dijkstra) works on double weights, as does the congestion clamp at 1/main.cpp:121. Neither is modelled. Its success flag and predecessor array enter buildPath and the query as parameters, and the edge attributes are carried unexamined.
- std::priority_queue picks among entries of equal distance in an order the C++ standard leaves open. The model takes the first such entry. All results are proved for that choice only.
- int overflow in the transit search is not modelled:
  - `dist[u] + add` can overflow beyond about 21474 changes;
  - packKey is computed in 64 bits and is modelled on unbounded integers.
- The distance sentinel INT_MAX is modelled as -1 ("not reached") inside the weighted search.
- Greedy.RunGreedy: HorizonOk requires the latest arrival plus the sum of all non-negative stays to stay below INT_MAX. Some inputs the source computes without overflow are excluded, e.g. two cars of stay INT_MAX - 10 on a 1 x 2 lot. Beyond that bound, runGreedy's `t + duration` is signed int overflow. The model does not follow it, and the release at INT_MAX would also stop treating such a car as finite.
- Backtrack.RunBacktracking: carries the same HorizonOk bound as runGreedy, for the same reason.
- Report.RunReport: carries the same HorizonOk bound, inherited from the two strategies.
- GreedyOrder.RunGreedyDepartsInOrder: also requires that no stay is negative. A car with a negative duration ends before it entered, so the source itself lists it after cars that left later.
- FirstLeaf.RunBacktrackingNoWorse: requires greedy's total plus the lower bound for all vehicles to be below INT_MAX. Otherwise the pruning test can cut the first descent and the search may report INT_MAX.
- Roads.BuildPath: modelled only where the walk back stops, which the StopsWithin requirement states. The loop `while (cur != -1 && cur != s)` at 1/graph.cpp:77-81 never ends on a predecessor cycle that avoids s. The unmodelled double-weight search might leave such a cycle when an edge has negative length, e.g. edges 1-2 of length 1, 2-3 of length -5 and 3-4 of length 1 with query 1 to 4 (not executed).
- Roads.Answer: carries the same StopsWithin requirement when the search succeeds, for the same reason.
- Weighted.Reach: states only that best is -1 when no trip exists. The converse is proved in Weighted.SolveWeighted.
- The greedy-equals-optimal question is not claimed. runBacktracking is proved feasible and no worse than greedy, but not optimal.
- The printing of names and of the "no route" messages, and the Windows console code page, are left out.

## Findings

| source | as written | input that shows it | evidently intended | confidence | as-written member | corrected member |
|---|---|---|---|---|---|---|
| 2/bus.cpp:127 | `for (size_t i = 0, j = transferStations.size() - 1; i < j; ...)` on an empty vector wraps j to SIZE_MAX and swaps out of range | a type-1 query whose fewest-transfer route stays on one line, e.g. two stations of a single line | skip the reversal when there is no transfer station | not executed | Segment.ReverseAsWrittenEmpty | Segment.ReverseGuarded |
