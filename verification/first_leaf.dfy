/** Facts about the first path dfsBacktrack explores: at every vehicle the first candidate is
    the spot pickGreedySpot would take, the child state keeps the search's preconditions, greedy
    only ever adds distance, and the remaining-distance bound grows with the number of vehicles
    left. */
module FirstLeaf {
  import opened Backtrack
  import opened Greedy
  import opened Lot
  import opened Release
  import opened Schedule
  import opened SeqUtil

  /** Greedy only ever adds distance. */
  lemma {:induction false} GreedyGrows(M: int, N: int, cars: seq<Vehicle>, i: nat, st: Sim)
    requires Ready(M, N, cars, i, st)
    ensures st.res.totalDistance <= GreedyFrom(M, N, cars, i, st).res.totalDistance
    decreases |cars| - i
  {
    if i < |cars| {
      ReadyFinite(M, N, cars, i, st);
      var e := Admit(M, N, Max(cars[i].arrive, st.clock), st.active);
      DistBound(N, e.spot);
      GreedyGrows(M, N, cars, i + 1, Park(M, N, cars, i, st));
    }
  }

  /** Every spot distance is non-negative. */
  predicate NonNegative(s: seq<int>) {
    forall k :: 0 <= k < |s| ==> s[k] >= 0
  }

  lemma SortedDistancesNonNegative(M: int, N: int)
    requires ValidLot(M, N)
    ensures NonNegative(SortedDistances(M, N))
  {
    var r := SortedDistances(M, N);
    forall k | 0 <= k < |r| ensures r[k] >= 0 {
      assert r[k] in multiset(AllDistances(M, N));
      var s :| 0 <= s < M * N && AllDistances(M, N)[s] == r[k];
      DistBound(N, s);
    }
  }

  /** With non-negative entries the bound of lowerBoundRemain grows with the number of
      vehicles left and is never negative. */
  lemma {:induction false} BoundFromMonotone(sorted: seq<int>, a: int, b: int, i: nat)
    requires NonNegative(sorted) && a <= b
    ensures 0 <= BoundFrom(sorted, a, i) <= BoundFrom(sorted, b, i)
    decreases |sorted| - i
  {
    if i < |sorted| {
      BoundFromMonotone(sorted, a, b, i + 1);
    }
  }

  lemma BoundMonotone(sorted: seq<int>, a: int, b: int)
    requires NonNegative(sorted) && a <= b
    ensures 0 <= LowerBoundRemain(sorted, a) <= LowerBoundRemain(sorted, b)
  {
    BoundFromMonotone(sorted, a, b, 0);
  }

  /** A lot with a free spot: there is a first candidate, and it is the spot pickGreedySpot
      picks. */
  lemma FirstCandidate(c: Ctx, idx: nat, clock: int, active: seq<ActiveCar>, tab: Tables,
                       t: int, kept: seq<ActiveCar>, cands: seq<int>)
    requires BtReady(c, idx, clock, active, tab) && idx < |c.cars|
    requires DistinctSpots(active)
    requires t == Max(c.cars[idx].arrive, clock) && kept == StillParked(active, t)
    requires |kept| != c.M * c.N && SpotsWithin(kept, c.M * c.N)
    requires cands == Candidates(c.M, c.N, Occupancy(c.M * c.N, kept))
    ensures !Full(Occupancy(c.M * c.N, kept))
    ensures |cands| > 0 && cands[0] == PickGreedySpot(c.M, c.N, Occupancy(c.M * c.N, kept))
  {
    var occ := Occupancy(c.M * c.N, kept);
    StillParkedDistinct(active, t);
    FullIffCount(c.M * c.N, kept);
    var s :| 0 <= s < |occ| && !occ[s];
    CandidateHeadIsGreedy(c.M, c.N, occ);
  }

  /** Parking the vehicle on a free spot keeps the search's preconditions. */
  lemma ChildReady(c: Ctx, idx: nat, clock: int, active: seq<ActiveCar>, tab: Tables,
                   t: int, kept: seq<ActiveCar>, sp: int)
    requires BtReady(c, idx, clock, active, tab) && 0 <= clock && idx < |c.cars|
    requires t == Max(c.cars[idx].arrive, clock) && kept == StillParked(active, t)
    requires 0 <= sp < c.M * c.N
    ensures var car := c.cars[idx];
      && BtReady(c, idx + 1, t, kept + [ActiveCar(car.id, t + car.duration, sp)],
                 Assign(tab, car.id, sp, t, t + car.duration))
      && 0 <= t
  {
    KeptWithin(c, idx, clock, active, tab, t);
    BranchReady(c, idx, t, kept, tab, sp);
  }

  /** Parking the vehicle on a free spot keeps the parked cars on distinct spots. */
  lemma ChildDistinct(active: seq<ActiveCar>, t: int, kept: seq<ActiveCar>, size: nat, car: ActiveCar)
    requires DistinctSpots(active) && kept == StillParked(active, t)
    requires SpotsWithin(kept, size) && 0 <= car.spot < size && !Occupancy(size, kept)[car.spot]
    ensures DistinctSpots(kept + [car])
  {
    StillParkedDistinct(active, t);
    DistinctSnoc(kept, car);
  }

  /** The greedy state that mirrors a search node: same clock, parked cars, arrays and
      distance, with an empty departure list. */
  function Mirror(clock: int, active: seq<ActiveCar>, tab: Tables, curDist: int): Sim {
    Sim(clock, active, ScheduleResult(tab, [], curDist))
  }

  /** Two states that differ at most in the departures listed so far. */
  predicate SameButOrder(a: Sim, b: Sim) {
    && a.clock == b.clock && a.active == b.active
    && a.res.tables == b.res.tables && a.res.totalDistance == b.res.totalDistance
  }

  /** The total distance greedy reaches when it takes over at a search node. */
  function GreedyTotal(c: Ctx, idx: nat, clock: int, active: seq<ActiveCar>, tab: Tables, curDist: int): int
    requires BtReady(c, idx, clock, active, tab) && 0 <= clock
  {
    GreedyFrom(c.M, c.N, c.cars, idx, Mirror(clock, active, tab, curDist)).res.totalDistance
  }

  /** One greedy step ignores the departures listed so far. */
  lemma ParkSame(M: int, N: int, cars: seq<Vehicle>, i: nat, a: Sim, b: Sim)
    requires Ready(M, N, cars, i, a) && i < |cars| && SameButOrder(a, b)
    ensures Ready(M, N, cars, i, b) && SameButOrder(Park(M, N, cars, i, a), Park(M, N, cars, i, b))
  {
    ReadyFinite(M, N, cars, i, a);
  }

  /** Greedy's total does not depend on the departures listed so far. */
  lemma {:induction false} GreedySame(M: int, N: int, cars: seq<Vehicle>, i: nat, a: Sim, b: Sim)
    requires Ready(M, N, cars, i, a) && SameButOrder(a, b)
    ensures Ready(M, N, cars, i, b)
    ensures GreedyFrom(M, N, cars, i, a).res.totalDistance == GreedyFrom(M, N, cars, i, b).res.totalDistance
    decreases |cars| - i
  {
    if i < |cars| {
      ParkSame(M, N, cars, i, a, b);
      GreedySame(M, N, cars, i + 1, Park(M, N, cars, i, a), Park(M, N, cars, i, b));
    }
  }

  /** On a full lot greedy's step waits for the earliest departure exactly as the search
      does: the step from before the wait and the step from after it agree. */
  lemma ParkAfterWait(M: int, N: int, cars: seq<Vehicle>, i: nat, st: Sim, st2: Sim)
    requires Ready(M, N, cars, i, st) && i < |cars| && Ready(M, N, cars, i, st2)
    requires var kept := StillParked(st.active, Max(cars[i].arrive, st.clock));
      && st2.clock == Max(Max(cars[i].arrive, st.clock), EarliestDeparture(kept))
      && st2.active == kept && SpotsWithin(kept, M * N) && Full(Occupancy(M * N, kept))
    requires st2.res.tables == st.res.tables && st2.res.totalDistance == st.res.totalDistance
    ensures SameButOrder(Park(M, N, cars, i, st), Park(M, N, cars, i, st2))
  {
    ReadyFinite(M, N, cars, i, st);
    ReadyFinite(M, N, cars, i, st2);
    var t := Max(cars[i].arrive, st.clock);
    assert Max(cars[i].arrive, st2.clock) == st2.clock;
    var e, e2 := Admit(M, N, t, st.active), Admit(M, N, st2.clock, st2.active);
    var waits := AdmitUnfold(M, N, t, st.active);
    ParkIs(M, N, cars, i, st, e);
    ParkIs(M, N, cars, i, st2, e2);
    EnterSame(N, cars, i, st, st2, e, e2);
  }

  /** The bookkeeping for two entries at the same instant and spot, with the same cars kept,
      agrees up to the departures. */
  lemma EnterSame(N: int, cars: seq<Vehicle>, i: nat, st: Sim, st2: Sim, e: Entry, e2: Entry)
    requires N >= 1 && i < |cars| && IdsInOrder(cars) && Sized(st.res.tables, |cars|)
    requires st2.res.tables == st.res.tables && st2.res.totalDistance == st.res.totalDistance
    requires e.time == e2.time && e.kept == e2.kept && e.spot == e2.spot
    ensures SameButOrder(Enter(N, cars, i, st, e), Enter(N, cars, i, st2, e2))
  {
  }

  /** So taking over before or after the wait gives the same total. */
  lemma GreedyWaits(c: Ctx, idx: nat, clock: int, active: seq<ActiveCar>, tab: Tables, curDist: int, t: int)
    requires BtReady(c, idx, clock, active, tab) && 0 <= clock && DistinctSpots(active) && idx < |c.cars|
    requires t == Max(c.cars[idx].arrive, clock) && |StillParked(active, t)| == c.M * c.N
    ensures var kept := StillParked(active, t);
      var t2 := Max(t, EarliestDeparture(kept));
      && BtReady(c, idx, t2, kept, tab) && 0 <= t2 && DistinctSpots(kept)
      && GreedyTotal(c, idx, clock, active, tab, curDist) == GreedyTotal(c, idx, t2, kept, tab, curDist)
  {
    var kept := StillParked(active, t);
    var t2 := Max(t, EarliestDeparture(kept));
    BtReadyFinite(c, idx, clock, active, tab);
    KeptWithin(c, idx, clock, active, tab, t);
    StillParkedDistinct(active, t);
    FullIffCount(c.M * c.N, kept);
    FullProgress(c, idx, clock, active, tab, t);
    var st, st2 := Mirror(clock, active, tab, curDist), Mirror(t2, kept, tab, curDist);
    ParkAfterWait(c.M, c.N, c.cars, idx, st, st2);
    GreedySame(c.M, c.N, c.cars, idx + 1, Park(c.M, c.N, c.cars, idx, st), Park(c.M, c.N, c.cars, idx, st2));
  }

  /** One step of the greedy loop, with the wait loop's entry named. */
  lemma ParkIs(M: int, N: int, cars: seq<Vehicle>, i: nat, st: Sim, e: Entry)
    requires Ready(M, N, cars, i, st) && i < |cars|
    requires AllFinite(st.active) && e == Admit(M, N, Max(cars[i].arrive, st.clock), st.active)
    ensures Park(M, N, cars, i, st) == Enter(N, cars, i, st, e)
  {
  }

  /** On a lot with room greedy's step parks the vehicle on its nearest free spot, the
      search's first candidate, and reaches the search's child state. */
  lemma ParksOnGreedySpot(c: Ctx, idx: nat, clock: int, active: seq<ActiveCar>, tab: Tables, curDist: int,
                          t: int, sp: int, active': seq<ActiveCar>, tab': Tables, d: int)
    requires BtReady(c, idx, clock, active, tab) && 0 <= clock && idx < |c.cars|
    requires t == Max(c.cars[idx].arrive, clock)
    requires SpotsWithin(StillParked(active, t), c.M * c.N) && !Full(Occupancy(c.M * c.N, StillParked(active, t)))
    requires sp == PickGreedySpot(c.M, c.N, Occupancy(c.M * c.N, StillParked(active, t)))
    requires active' == StillParked(active, t) + [ActiveCar(c.cars[idx].id, t + c.cars[idx].duration, sp)]
    requires tab' == Assign(tab, c.cars[idx].id, sp, t, t + c.cars[idx].duration)
    requires d == curDist + Dist(c.N, sp)
    ensures SameButOrder(Park(c.M, c.N, c.cars, idx, Mirror(clock, active, tab, curDist)), Mirror(t, active', tab', d))
  {
    var (M, N, cars) := (c.M, c.N, c.cars);
    BtReadyFinite(c, idx, clock, active, tab);
    var st := Mirror(clock, active, tab, curDist);
    var e := Entry(t, StillParked(active, t), ReleaseByTime(active, t).1, sp);
    AdmitNow(M, N, t, active, e);
    ParkMirrors(M, N, cars, idx, st, e, t, StillParked(active, t), sp, active', tab', d);
  }

  /** So taking over before or after that step gives the same total. */
  lemma GreedyParks(c: Ctx, idx: nat, clock: int, active: seq<ActiveCar>, tab: Tables, curDist: int,
                    t: int, sp: int, active': seq<ActiveCar>, tab': Tables, d: int)
    requires BtReady(c, idx, clock, active, tab) && 0 <= clock && idx < |c.cars|
    requires t == Max(c.cars[idx].arrive, clock)
    requires SpotsWithin(StillParked(active, t), c.M * c.N) && !Full(Occupancy(c.M * c.N, StillParked(active, t)))
    requires sp == PickGreedySpot(c.M, c.N, Occupancy(c.M * c.N, StillParked(active, t)))
    requires active' == StillParked(active, t) + [ActiveCar(c.cars[idx].id, t + c.cars[idx].duration, sp)]
    requires tab' == Assign(tab, c.cars[idx].id, sp, t, t + c.cars[idx].duration)
    requires BtReady(c, idx + 1, t, active', tab') && 0 <= t && d == curDist + Dist(c.N, sp)
    ensures GreedyTotal(c, idx, clock, active, tab, curDist) == GreedyTotal(c, idx + 1, t, active', tab', d)
  {
    var st := Mirror(clock, active, tab, curDist);
    ParksOnGreedySpot(c, idx, clock, active, tab, curDist, t, sp, active', tab', d);
    GreedySame(c.M, c.N, c.cars, idx + 1, Park(c.M, c.N, c.cars, idx, st), Mirror(t, active', tab', d));
  }

  /** The wait loop with a free spot right after the release. */
  lemma AdmitNow(M: int, N: int, t: int, active: seq<ActiveCar>, e: Entry)
    requires ValidLot(M, N) && AllFinite(active) && SpotsWithin(active, M * N)
    requires SpotsWithin(StillParked(active, t), M * N) && !Full(Occupancy(M * N, StillParked(active, t)))
    requires e == Entry(t, StillParked(active, t), ReleaseByTime(active, t).1,
                        PickGreedySpot(M, N, Occupancy(M * N, StillParked(active, t))))
    ensures Admit(M, N, t, active) == e
  {
    var waits := AdmitUnfold(M, N, t, active);
  }

  /** Greedy's step with the wait loop's entry e, at instant t with the cars kept parked and
      spot sp, gives the search's child state, up to the departures. */
  lemma ParkMirrors(M: int, N: int, cars: seq<Vehicle>, i: nat, st: Sim, e: Entry,
                    t: int, kept: seq<ActiveCar>, sp: int, active': seq<ActiveCar>, tab': Tables, d: int)
    requires Ready(M, N, cars, i, st) && i < |cars|
    requires AllFinite(st.active) && e == Admit(M, N, Max(cars[i].arrive, st.clock), st.active)
    requires e.time == t && e.kept == kept && e.spot == sp
    requires active' == kept + [ActiveCar(cars[i].id, t + cars[i].duration, sp)]
    requires tab' == Assign(st.res.tables, cars[i].id, sp, t, t + cars[i].duration)
    requires d == st.res.totalDistance + Dist(N, sp)
    ensures SameButOrder(Park(M, N, cars, i, st), Mirror(t, active', tab', d))
  {
    ParkIs(M, N, cars, i, st, e);
    EnterMirror(N, cars, i, st, e, t, kept, sp, active', tab', d);
  }

  /** The bookkeeping for that entry, which the step ends with. */
  lemma EnterMirror(N: int, cars: seq<Vehicle>, i: nat, st: Sim, e: Entry,
                    t: int, kept: seq<ActiveCar>, sp: int, active': seq<ActiveCar>, tab': Tables, d: int)
    requires N >= 1 && i < |cars| && IdsInOrder(cars) && Sized(st.res.tables, |cars|)
    requires e.time == t && e.kept == kept && e.spot == sp
    requires active' == kept + [ActiveCar(cars[i].id, t + cars[i].duration, sp)]
    requires tab' == Assign(st.res.tables, cars[i].id, sp, t, t + cars[i].duration)
    requires d == st.res.totalDistance + Dist(N, sp)
    ensures SameButOrder(Enter(N, cars, i, st, e), Mirror(t, active', tab', d))
  {
  }

  /** The pruning tests never fire on greedy's path while the incumbent exceeds greedy's
      total plus the bound for all vehicles. */
  lemma NoPrune(c: Ctx, idx: nat, clock: int, active: seq<ActiveCar>, tab: Tables, curDist: int, best: Incumbent)
    requires BtReady(c, idx, clock, active, tab) && 0 <= clock
    requires NonNegative(c.sorted)
    requires GreedyTotal(c, idx, clock, active, tab, curDist) + LowerBoundRemain(c.sorted, |c.cars|) < best.dist
    ensures curDist <= GreedyTotal(c, idx, clock, active, tab, curDist)
    ensures curDist <= curDist + LowerBoundRemain(c.sorted, |c.cars| - idx) < best.dist
  {
    GreedyGrows(c.M, c.N, c.cars, idx, Mirror(clock, active, tab, curDist));
    BoundMonotone(c.sorted, |c.cars| - idx, |c.cars|);
  }

  /** A node the pruning tests let through, on a full lot: the search waits for the earliest
      departure and carries on from there. */
  lemma DfsWaits(c: Ctx, idx: nat, clock: int, active: seq<ActiveCar>, tab: Tables, curDist: int, best: Incumbent)
    requires BtReady(c, idx, clock, active, tab) && idx < |c.cars|
    requires curDist < best.dist && curDist + LowerBoundRemain(c.sorted, |c.cars| - idx) < best.dist
    requires |StillParked(active, Max(c.cars[idx].arrive, clock))| == c.M * c.N
    ensures var kept := StillParked(active, Max(c.cars[idx].arrive, clock));
      var t2 := Max(Max(c.cars[idx].arrive, clock), EarliestDeparture(kept));
      && BtReady(c, idx, t2, kept, tab)
      && Pending(c, idx, t2, kept) < Pending(c, idx, clock, active)
      && Dfs(c, idx, clock, active, tab, curDist, best) == Dfs(c, idx, t2, kept, tab, curDist, best)
  {
    var t := Max(c.cars[idx].arrive, clock);
    BtReadyFinite(c, idx, clock, active, tab);
    KeptWithin(c, idx, clock, active, tab, t);
    FullProgress(c, idx, clock, active, tab, t);
  }

  /** A node the pruning tests let through, on a lot with room: the search runs the branch
      loop over the free spots. */
  lemma DfsBranches(c: Ctx, idx: nat, clock: int, active: seq<ActiveCar>, tab: Tables, curDist: int, best: Incumbent)
    requires BtReady(c, idx, clock, active, tab) && idx < |c.cars|
    requires curDist < best.dist && curDist + LowerBoundRemain(c.sorted, |c.cars| - idx) < best.dist
    requires |StillParked(active, Max(c.cars[idx].arrive, clock))| != c.M * c.N
    ensures var t := Max(c.cars[idx].arrive, clock);
      BtReady(c, idx, t, StillParked(active, t), tab) && SpotsWithin(StillParked(active, t), c.M * c.N)
    ensures var t := Max(c.cars[idx].arrive, clock);
      var kept := StillParked(active, t);
      var cands := Candidates(c.M, c.N, Occupancy(c.M * c.N, kept));
      && (forall k :: 0 <= k < |cands| ==> 0 <= cands[k] < c.M * c.N)
      && Dfs(c, idx, clock, active, tab, curDist, best) == TryCandidates(c, idx, t, kept, tab, curDist, cands, 0, best)
  {
    var t := Max(c.cars[idx].arrive, clock);
    BtReadyFinite(c, idx, clock, active, tab);
    KeptWithin(c, idx, clock, active, tab, t);
    NodeBranchIf(c, idx, clock, active, tab, curDist, t);
  }

  /** A node on greedy's path that the first descent reaches unpruned: the search's
      preconditions, parked cars on distinct spots, non-negative spot distances, and an
      incumbent above greedy's total plus the bound for all vehicles. */
  predicate DescentReady(c: Ctx, idx: nat, clock: int, active: seq<ActiveCar>, tab: Tables, curDist: int,
                         best: Incumbent) {
    && BtReady(c, idx, clock, active, tab) && 0 <= clock && DistinctSpots(active)
    && NonNegative(c.sorted)
    && GreedyTotal(c, idx, clock, active, tab, curDist) + LowerBoundRemain(c.sorted, |c.cars|) < best.dist
  }

  /** The search from a node on greedy's path returns no more than greedy does from there. */
  predicate NoWorse(c: Ctx, idx: nat, clock: int, active: seq<ActiveCar>, tab: Tables, curDist: int,
                    best: Incumbent)
    requires DescentReady(c, idx, clock, active, tab, curDist, best)
  {
    Dfs(c, idx, clock, active, tab, curDist, best).dist <= GreedyTotal(c, idx, clock, active, tab, curDist)
  }

  /** The first descent: from a node on greedy's path, with an incumbent above greedy's total
      plus the bound, the search follows greedy's choices down to a leaf, so what it returns is
      no worse than greedy. */
  lemma {:induction false} FirstDescent(c: Ctx, idx: nat, clock: int, active: seq<ActiveCar>, tab: Tables,
                                        curDist: int, best: Incumbent)
    requires DescentReady(c, idx, clock, active, tab, curDist, best)
    ensures NoWorse(c, idx, clock, active, tab, curDist, best)
    decreases |c.cars| - idx, 1
  {
    if idx < |c.cars| {
      var clock2, active2 := WaitToRoom(c, idx, clock, active, tab, curDist, best);
      BranchDescent(c, idx, clock2, active2, tab, curDist, best);
    } else {
      LeafDescent(c, idx, clock, active, tab, curDist, best);
    }
  }

  /** The first descent at a complete assignment: the search records greedy's total. */
  lemma LeafDescent(c: Ctx, idx: nat, clock: int, active: seq<ActiveCar>, tab: Tables,
                    curDist: int, best: Incumbent)
    requires DescentReady(c, idx, clock, active, tab, curDist, best)
    requires idx == |c.cars|
    ensures NoWorse(c, idx, clock, active, tab, curDist, best)
  {
    NoPrune(c, idx, clock, active, tab, curDist, best);
  }

  /** The first descent through a lot with room: the search's first branch is greedy's step
      to the nearest free spot, the child keeps the search's preconditions, and greedy from
      the node and from the child agree. */
  lemma {:induction false} BranchDescent(c: Ctx, idx: nat, clock: int, active: seq<ActiveCar>, tab: Tables,
                                         curDist: int, best: Incumbent)
    requires DescentReady(c, idx, clock, active, tab, curDist, best)
    requires idx < |c.cars| && |StillParked(active, Max(c.cars[idx].arrive, clock))| != c.M * c.N
    ensures NoWorse(c, idx, clock, active, tab, curDist, best)
    decreases |c.cars| - idx, 0
  {
    NoPrune(c, idx, clock, active, tab, curDist, best);
    var t := Max(c.cars[idx].arrive, clock);
    var kept := StillParked(active, t);
    KeptSpots(c, idx, clock, active, tab);
    var sp := PickGreedySpot(c.M, c.N, Occupancy(c.M * c.N, kept));
    var active' := kept + [ActiveCar(c.cars[idx].id, t + c.cars[idx].duration, sp)];
    var tab' := Assign(tab, c.cars[idx].id, sp, t, t + c.cars[idx].duration);
    var d := curDist + Dist(c.N, sp);
    GreedyChild(c, idx, clock, active, tab, curDist, t, sp, active', tab', d);
    DfsFirstBranch(c, idx, clock, active, tab, curDist, best, t, sp, active', tab', d);
    FirstDescent(c, idx + 1, t, active', tab', d, best);
  }

  /** While the lot is full at vehicle idx + 1's entry clock, search and greedy both wait for
      the earliest departure; they reach the same node with room, and neither result changes. */
  lemma {:induction false} WaitToRoom(c: Ctx, idx: nat, clock: int, active: seq<ActiveCar>, tab: Tables,
                                      curDist: int, best: Incumbent)
    returns (clock2: int, active2: seq<ActiveCar>)
    requires DescentReady(c, idx, clock, active, tab, curDist, best) && idx < |c.cars|
    ensures DescentReady(c, idx, clock2, active2, tab, curDist, best)
    ensures |StillParked(active2, Max(c.cars[idx].arrive, clock2))| != c.M * c.N
    ensures Dfs(c, idx, clock, active, tab, curDist, best) == Dfs(c, idx, clock2, active2, tab, curDist, best)
    ensures GreedyTotal(c, idx, clock, active, tab, curDist) == GreedyTotal(c, idx, clock2, active2, tab, curDist)
    decreases Pending(c, idx, clock, active)
  {
    if |StillParked(active, Max(c.cars[idx].arrive, clock))| == c.M * c.N {
      var t2, kept := WaitStep(c, idx, clock, active, tab, curDist, best);
      clock2, active2 := WaitToRoom(c, idx, t2, kept, tab, curDist, best);
    } else {
      clock2, active2 := clock, active;
    }
  }

  /** One wait on a full lot: search and greedy advance to the earliest departure alike. */
  lemma WaitStep(c: Ctx, idx: nat, clock: int, active: seq<ActiveCar>, tab: Tables, curDist: int, best: Incumbent)
    returns (t2: int, kept: seq<ActiveCar>)
    requires DescentReady(c, idx, clock, active, tab, curDist, best) && idx < |c.cars|
    requires |StillParked(active, Max(c.cars[idx].arrive, clock))| == c.M * c.N
    ensures DescentReady(c, idx, t2, kept, tab, curDist, best)
    ensures Pending(c, idx, t2, kept) < Pending(c, idx, clock, active)
    ensures Dfs(c, idx, clock, active, tab, curDist, best) == Dfs(c, idx, t2, kept, tab, curDist, best)
    ensures GreedyTotal(c, idx, clock, active, tab, curDist) == GreedyTotal(c, idx, t2, kept, tab, curDist)
  {
    var t := Max(c.cars[idx].arrive, clock);
    kept := StillParked(active, t);
    t2 := Max(t, EarliestDeparture(kept));
    NoPrune(c, idx, clock, active, tab, curDist, best);
    GreedyWaits(c, idx, clock, active, tab, curDist, t);
    DfsWaits(c, idx, clock, active, tab, curDist, best);
  }

  /** The cars still parked once vehicle idx + 1 is due are on spots of the lot. */
  lemma KeptSpots(c: Ctx, idx: nat, clock: int, active: seq<ActiveCar>, tab: Tables)
    requires BtReady(c, idx, clock, active, tab) && idx < |c.cars|
    ensures SpotsWithin(StillParked(active, Max(c.cars[idx].arrive, clock)), c.M * c.N)
  {
    KeptWithin(c, idx, clock, active, tab, Max(c.cars[idx].arrive, clock));
  }

  /** On a lot with room greedy takes spot sp: the child node keeps the search's
      preconditions, and greedy from the node and from the child agree. */
  lemma GreedyChild(c: Ctx, idx: nat, clock: int, active: seq<ActiveCar>, tab: Tables, curDist: int,
                    t: int, sp: int, active': seq<ActiveCar>, tab': Tables, d: int)
    requires BtReady(c, idx, clock, active, tab) && 0 <= clock && DistinctSpots(active) && idx < |c.cars|
    requires t == Max(c.cars[idx].arrive, clock) && |StillParked(active, t)| != c.M * c.N
    requires SpotsWithin(StillParked(active, t), c.M * c.N)
    requires sp == PickGreedySpot(c.M, c.N, Occupancy(c.M * c.N, StillParked(active, t)))
    requires active' == StillParked(active, t) + [ActiveCar(c.cars[idx].id, t + c.cars[idx].duration, sp)]
    requires tab' == Assign(tab, c.cars[idx].id, sp, t, t + c.cars[idx].duration)
    requires d == curDist + Dist(c.N, sp)
    ensures BtReady(c, idx + 1, t, active', tab') && 0 <= t && DistinctSpots(active')
    ensures GreedyTotal(c, idx, clock, active, tab, curDist) == GreedyTotal(c, idx + 1, t, active', tab', d)
  {
    var kept := StillParked(active, t);
    BtReadyFinite(c, idx, clock, active, tab);
    var cands := Candidates(c.M, c.N, Occupancy(c.M * c.N, kept));
    FirstCandidate(c, idx, clock, active, tab, t, kept, cands);
    ChildReady(c, idx, clock, active, tab, t, kept, sp);
    ChildDistinct(active, t, kept, c.M * c.N, ActiveCar(c.cars[idx].id, t + c.cars[idx].duration, sp));
    GreedyParks(c, idx, clock, active, tab, curDist, t, sp, active', tab', d);
  }

  /** A node the pruning tests let through, on a lot with room: the search returns no more
      than its branch on greedy's spot sp, the first candidate. */
  lemma DfsFirstBranch(c: Ctx, idx: nat, clock: int, active: seq<ActiveCar>, tab: Tables, curDist: int,
                       best: Incumbent, t: int, sp: int, active': seq<ActiveCar>, tab': Tables, d: int)
    requires BtReady(c, idx, clock, active, tab) && 0 <= clock && DistinctSpots(active) && idx < |c.cars|
    requires curDist < best.dist && curDist + LowerBoundRemain(c.sorted, |c.cars| - idx) < best.dist
    requires t == Max(c.cars[idx].arrive, clock) && |StillParked(active, t)| != c.M * c.N
    requires SpotsWithin(StillParked(active, t), c.M * c.N)
    requires sp == PickGreedySpot(c.M, c.N, Occupancy(c.M * c.N, StillParked(active, t)))
    requires active' == StillParked(active, t) + [ActiveCar(c.cars[idx].id, t + c.cars[idx].duration, sp)]
    requires tab' == Assign(tab, c.cars[idx].id, sp, t, t + c.cars[idx].duration)
    requires BtReady(c, idx + 1, t, active', tab') && d == curDist + Dist(c.N, sp)
    ensures Dfs(c, idx, clock, active, tab, curDist, best).dist <= Dfs(c, idx + 1, t, active', tab', d, best).dist
  {
    var kept := StillParked(active, t);
    DfsBranches(c, idx, clock, active, tab, curDist, best);
    var cands := Candidates(c.M, c.N, Occupancy(c.M * c.N, kept));
    FirstCandidate(c, idx, clock, active, tab, t, kept, cands);
    FirstBranch(c, idx, t, kept, tab, curDist, cands, best, sp, active', tab', d);
  }

  /** The branch loop returns no more than its first branch, which parks the vehicle on
      candidate sp = cands[0] and reaches the child with parked cars active' and arrays tab'. */
  lemma FirstBranch(c: Ctx, idx: nat, t: int, active: seq<ActiveCar>, tab: Tables, curDist: int,
                    cands: seq<int>, best: Incumbent, sp: int, active': seq<ActiveCar>, tab': Tables, d: int)
    requires BtReady(c, idx, t, active, tab) && idx < |c.cars|
    requires 0 < |cands| && forall k :: 0 <= k < |cands| ==> 0 <= cands[k] < c.M * c.N
    requires sp == cands[0]
    requires active' == active + [ActiveCar(c.cars[idx].id, t + c.cars[idx].duration, sp)]
    requires tab' == Assign(tab, c.cars[idx].id, sp, t, t + c.cars[idx].duration)
    requires BtReady(c, idx + 1, t, active', tab') && d == curDist + Dist(c.N, sp)
    ensures TryCandidates(c, idx, t, active, tab, curDist, cands, 0, best).dist
              <= Dfs(c, idx + 1, t, active', tab', d, best).dist
  {
    LoopFirst(c, idx, t, active, tab, curDist, cands, best);
    DescendFirst(c, idx, t, active, tab, curDist, cands, best, sp, active', tab', d);
  }

  /** The branch loop returns no more than the search below its first candidate. */
  lemma LoopFirst(c: Ctx, idx: nat, t: int, active: seq<ActiveCar>, tab: Tables, curDist: int,
                  cands: seq<int>, best: Incumbent)
    requires BtReady(c, idx, t, active, tab) && idx < |c.cars|
    requires 0 < |cands| && forall k :: 0 <= k < |cands| ==> 0 <= cands[k] < c.M * c.N
    ensures TryCandidates(c, idx, t, active, tab, curDist, cands, 0, best).dist
              <= Descend(c, idx, t, active, tab, curDist, cands, 0, best).dist
  {
    var b := TryOne(c, idx, t, active, tab, curDist, cands, 0, best);
    assert b.best == Descend(c, idx, t, active, tab, curDist, cands, 0, best);
  }

  /** The search below the first candidate is the search from the child node. */
  lemma DescendFirst(c: Ctx, idx: nat, t: int, active: seq<ActiveCar>, tab: Tables, curDist: int,
                     cands: seq<int>, best: Incumbent, sp: int, active': seq<ActiveCar>, tab': Tables, d: int)
    requires BtReady(c, idx, t, active, tab) && idx < |c.cars|
    requires 0 < |cands| && forall k :: 0 <= k < |cands| ==> 0 <= cands[k] < c.M * c.N
    requires sp == cands[0]
    requires active' == active + [ActiveCar(c.cars[idx].id, t + c.cars[idx].duration, sp)]
    requires tab' == Assign(tab, c.cars[idx].id, sp, t, t + c.cars[idx].duration)
    requires BtReady(c, idx + 1, t, active', tab') && d == curDist + Dist(c.N, sp)
    ensures Descend(c, idx, t, active, tab, curDist, cands, 0, best).dist == Dfs(c, idx + 1, t, active', tab', d, best).dist
  {
  }

  /** runBacktracking is never worse than runGreedy: its first descent reproduces greedy's
      schedule, and the incumbent only improves afterwards. This needs greedy's total plus the
      bound for all vehicles below INT_MAX, so that the first descent is not pruned. */
  lemma RunBacktrackingNoWorse(M: int, N: int, cars: seq<Vehicle>)
    requires ValidLot(M, N) && IdsInOrder(cars) && HorizonOk(cars)
    requires RunGreedy(M, N, cars).totalDistance + LowerBoundRemain(SortedDistances(M, N), |cars|) < IntMax
    ensures RunBacktracking(M, N, cars).totalDistance <= RunGreedy(M, N, cars).totalDistance
  {
    var K := |cars|;
    var c := Ctx(M, N, cars, SortedDistances(M, N));
    RootNode(c);
    SortedDistancesNonNegative(M, N);
    assert Mirror(0, [], Blank(K), 0) == Start(K);
    FirstDescent(c, 0, 0, [], Blank(K), 0, Incumbent(IntMax, Blank(K)));
  }
}
