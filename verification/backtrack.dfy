/** runBacktracking: a depth-first branch and bound over the spot of each vehicle in input
    order, with the same clock, release and wait rules as the greedy run. */
module Backtrack {
  import opened Departures
  import opened ExchangeSort
  import opened Lot
  import opened Release
  import opened Schedule
  import opened SeqUtil

  /** The best complete assignment found so far: bestDistance and the three best arrays. */
  datatype Incumbent = Incumbent(dist: int, tables: Tables)

  /** The search context: the lot, the vehicles and allSpotDistancesSorted. */
  datatype Ctx = Ctx(M: int, N: int, cars: seq<Vehicle>, sorted: seq<int>)

  /** The r + c distance of every spot, in row-major order. */
  function AllDistances(M: int, N: int): (r: seq<int>)
    requires ValidLot(M, N)
    ensures |r| == M * N
    ensures forall s :: 0 <= s < M * N ==> r[s] == Dist(N, s)
  {
    seq(M * N, s requires 0 <= s < M * N => Dist(N, s))
  }

  function IntLess(): (less: (int, int) -> bool)
    ensures StrictOrder(less)
    ensures forall a, b :: less(a, b) == (a < b)
  {
    (a: int, b: int) => a < b
  }

  /** allSpotDistancesSorted: all spot distances, exchange-sorted ascending. */
  function SortedDistances(M: int, N: int): (r: seq<int>)
    requires ValidLot(M, N)
    ensures |r| == M * N
    ensures multiset(r) == multiset(AllDistances(M, N))
    ensures forall i, j :: 0 <= i < j < |r| ==> r[i] <= r[j]
  {
    SortPermutes(AllDistances(M, N), IntLess());
    Sort(AllDistances(M, N), IntLess())
  }

  /** The loop of lowerBoundRemain from index i on. */
  function BoundFrom(sorted: seq<int>, remain: int, i: nat): int
    decreases |sorted| - i
  {
    if i < remain && i < |sorted| then sorted[i] + BoundFrom(sorted, remain, i + 1) else 0
  }

  function Sum(s: seq<int>): int {
    if s == [] then 0 else s[0] + Sum(s[1..])
  }

  function Min(a: int, b: int): int {
    if a < b then a else b
  }

  /** lowerBoundRemain: the sum of the first min(remain, |sorted|) entries (none when remain is
      not positive). */
  function LowerBoundRemain(sorted: seq<int>, remain: int): (r: int)
    ensures r == Sum(sorted[..Min(Max(remain, 0), |sorted|)])
  {
    BoundFromSum(sorted, remain, 0);
    BoundFrom(sorted, remain, 0)
  }

  lemma {:induction false} BoundFromSum(sorted: seq<int>, remain: int, i: nat)
    requires i <= |sorted|
    ensures BoundFrom(sorted, remain, i) == Sum(sorted[i..Max(i, Min(Max(remain, 0), |sorted|))])
    decreases |sorted| - i
  {
    var hi := Max(i, Min(Max(remain, 0), |sorted|));
    if i < remain && i < |sorted| {
      BoundFromSum(sorted, remain, i + 1);
      assert sorted[i..hi][1..] == sorted[i + 1..hi];
    } else {
      assert hi == i;
    }
  }

  /** The preconditions the search keeps at every node: a real lot, ids 1..K, instants within
      the horizon, parked cars on spots of the lot. */
  predicate BtReady(c: Ctx, idx: nat, clock: int, active: seq<ActiveCar>, tab: Tables) {
    && ValidLot(c.M, c.N) && IdsInOrder(c.cars) && HorizonOk(c.cars) && idx <= |c.cars|
    && Sized(tab, |c.cars|)
    && SpotsWithin(active, c.M * c.N)
    && (forall a {:trigger a in active} :: a in active ==> a.endTime <= Horizon(c.cars, idx))
    && clock <= Horizon(c.cars, idx)
  }

  lemma BtReadyFinite(c: Ctx, idx: nat, clock: int, active: seq<ActiveCar>, tab: Tables)
    requires BtReady(c, idx, clock, active, tab)
    ensures AllFinite(active)
  {
    HorizonMonotone(c.cars, idx, |c.cars|);
  }

  /** How many cars stay parked once the next vehicle's entry instant is reached: what a full
      lot's advance to the earliest departure reduces. */
  function Pending(c: Ctx, idx: nat, clock: int, active: seq<ActiveCar>): nat {
    if idx < |c.cars| then |StillParked(active, Max(c.cars[idx].arrive, clock))| else 0
  }

  /** dfsBacktrack (parking.cpp:161-240): prune, record a complete assignment, or go on with
      the vehicle's placement. From a consistent state every incumbent it returns is a
      feasible schedule with its true total distance. */
  function Dfs(c: Ctx, idx: nat, clock: int, active: seq<ActiveCar>, tab: Tables, curDist: int,
               best: Incumbent): (r: Incumbent)
    requires BtReady(c, idx, clock, active, tab)
    ensures r.dist <= best.dist
    ensures r == best || r.dist < best.dist
    ensures Sound(c, idx, clock, active, tab, curDist, best, r)
    decreases |c.cars| - idx, Pending(c, idx, clock, active), 2, 0, 0
  {
    var K := |c.cars|;
    if curDist >= best.dist then best
    else if curDist + LowerBoundRemain(c.sorted, K - idx) >= best.dist then best
    else if idx == K then
      LeafOk(c, idx, clock, active, tab, curDist, best);
      Incumbent(curDist, tab)
    else
      Explore(c, idx, clock, active, tab, curDist, best)
  }

  /** The placement part of dfsBacktrack (parking.cpp:190-240): release the cars gone by the
      vehicle's entry clock, wait for the earliest departure on a full lot, or branch on the
      free spots. */
  function Explore(c: Ctx, idx: nat, clock: int, active: seq<ActiveCar>, tab: Tables, curDist: int,
                   best: Incumbent): (r: Incumbent)
    requires BtReady(c, idx, clock, active, tab) && idx < |c.cars|
    ensures r.dist <= best.dist
    ensures r == best || r.dist < best.dist
    ensures Sound(c, idx, clock, active, tab, curDist, best, r)
    decreases |c.cars| - idx, Pending(c, idx, clock, active), 1, 0, 0
  {
    BtReadyFinite(c, idx, clock, active, tab);
    var t := Max(c.cars[idx].arrive, clock);
    var kept := StillParked(active, t);
    KeptWithin(c, idx, clock, active, tab, t);
    if |kept| == c.M * c.N then
      var t2 := Max(t, EarliestDeparture(kept));
      FullProgress(c, idx, clock, active, tab, t);
      NodeFullIf(c, idx, clock, active, tab, curDist, t);
      Dfs(c, idx, t2, kept, tab, curDist, best)
    else
      var cands := Candidates(c.M, c.N, Occupancy(c.M * c.N, kept));
      NodeBranchIf(c, idx, clock, active, tab, curDist, t);
      TryCandidates(c, idx, t, kept, tab, curDist, cands, 0, best)
  }

  lemma KeptWithin(c: Ctx, idx: nat, clock: int, active: seq<ActiveCar>, tab: Tables, t: int)
    requires BtReady(c, idx, clock, active, tab) && idx < |c.cars|
    requires t == Max(c.cars[idx].arrive, clock)
    ensures t <= Horizon(c.cars, idx) && c.M * c.N >= 1
    ensures AllFinite(StillParked(active, t))
    ensures BtReady(c, idx, t, StillParked(active, t), tab)
    ensures StillParked(active, t) != [] ==> BtReady(c, idx, Max(t, EarliestDeparture(StillParked(active, t))), StillParked(active, t), tab)
  {
    StillParkedMembers(active, t);
    MulAtLeast(c.N, c.M);
    HorizonMonotone(c.cars, idx, |c.cars|);
    var kept := StillParked(active, t);
    if kept != [] {
      var e := EarliestDeparture(kept);
      assert kept[0] in kept;
    }
  }

  /** The branch loop of dfsBacktrack (parking.cpp:219-239) from candidate ci on: try the
      candidate, then go on with the next one from the arrays the branch left behind. */
  function TryCandidates(c: Ctx, idx: nat, t: int, active: seq<ActiveCar>, tab: Tables, curDist: int,
                         cands: seq<int>, ci: nat, best: Incumbent): (r: Incumbent)
    requires BtReady(c, idx, t, active, tab) && idx < |c.cars|
    requires ci <= |cands| && forall k :: 0 <= k < |cands| ==> 0 <= cands[k] < c.M * c.N
    ensures r.dist <= best.dist
    ensures r == best || r.dist < best.dist
    ensures Branch(c, idx, t, active, tab, curDist, cands) && IncumbentOk(c, best) ==> IncumbentOk(c, r)
    decreases |c.cars| - idx, 0, 0, |cands| - ci, 2
  {
    if ci == |cands| then best
    else
      var b := TryOne(c, idx, t, active, tab, curDist, cands, ci, best);
      TryCandidates(c, idx, t, active, b.tables, curDist, cands, ci + 1, b.best)
  }

  /** What one branch hands back to the loop: the incumbent after the search below, and the
      three arrays after the vehicle's entries are reset to -1. */
  datatype Branched = Branched(best: Incumbent, tables: Tables)

  /** One round of the branch loop (parking.cpp:222-236): search with vehicle idx+1 on
      candidate ci, then reset its three entries. From a consistent state the reset gives
      back exactly the arrays the round started from. */
  function TryOne(c: Ctx, idx: nat, t: int, active: seq<ActiveCar>, tab: Tables, curDist: int,
                  cands: seq<int>, ci: nat, best: Incumbent): (r: Branched)
    requires BtReady(c, idx, t, active, tab) && idx < |c.cars|
    requires ci < |cands| && forall k :: 0 <= k < |cands| ==> 0 <= cands[k] < c.M * c.N
    ensures Sized(r.tables, |c.cars|)
    ensures r.best.dist <= best.dist
    ensures r.best == best || r.best.dist < best.dist
    ensures Branch(c, idx, t, active, tab, curDist, cands) ==> r.tables == tab
    ensures Branch(c, idx, t, active, tab, curDist, cands) && IncumbentOk(c, best) ==> IncumbentOk(c, r.best)
    decreases |c.cars| - idx, 0, 0, |cands| - ci, 1
  {
    var car := c.cars[idx];
    RestoredIf(c, idx, t, active, tab, curDist, cands, ci);
    Branched(Descend(c, idx, t, active, tab, curDist, cands, ci, best),
             Unassign(Assign(tab, car.id, cands[ci], t, t + car.duration), car.id))
  }

  /** Vehicle idx+1 goes on candidate ci from t, its car joins the parked ones, and the
      search goes on with the next vehicle. */
  function Descend(c: Ctx, idx: nat, t: int, active: seq<ActiveCar>, tab: Tables, curDist: int,
                   cands: seq<int>, ci: nat, best: Incumbent): (r: Incumbent)
    requires BtReady(c, idx, t, active, tab) && idx < |c.cars|
    requires ci < |cands| && forall k :: 0 <= k < |cands| ==> 0 <= cands[k] < c.M * c.N
    ensures r.dist <= best.dist
    ensures r == best || r.dist < best.dist
    ensures Branch(c, idx, t, active, tab, curDist, cands) && IncumbentOk(c, best) ==> IncumbentOk(c, r)
    decreases |c.cars| - idx, 0, 0, |cands| - ci, 0
  {
    var car := c.cars[idx];
    var sp := cands[ci];
    BranchReady(c, idx, t, active, tab, sp);
    var r := Dfs(c, idx + 1, t, active + [ActiveCar(car.id, t + car.duration, sp)],
                 Assign(tab, car.id, sp, t, t + car.duration), curDist + Dist(c.N, sp), best);
    DescendOk(c, idx, t, active, tab, curDist, cands, ci, best, r);
    r
  }

  lemma BranchReady(c: Ctx, idx: nat, t: int, active: seq<ActiveCar>, tab: Tables, sp: int)
    requires BtReady(c, idx, t, active, tab) && idx < |c.cars| && 0 <= sp < c.M * c.N
    ensures var car := c.cars[idx];
      BtReady(c, idx + 1, t, active + [ActiveCar(car.id, t + car.duration, sp)],
              Assign(tab, car.id, sp, t, t + car.duration))
  {
    var car := c.cars[idx];
    assert Horizon(c.cars, idx + 1) == Horizon(c.cars, idx) + Max(car.duration, 0);
    var a' := active + [ActiveCar(car.id, t + car.duration, sp)];
    assert forall a {:trigger a in a'} :: a in a' ==> a in active || a == a'[|a'| - 1];
  }

  /** Vehicles 1..idx are placed by the timing rule with total distance curDist; the parked
      cars are those of them the arrays say have not left by the clock, on distinct spots. */
  ghost predicate Settled(c: Ctx, idx: nat, clock: int, active: seq<ActiveCar>, tab: Tables, curDist: int) {
    && BtReady(c, idx, clock, active, tab)
    && Placed(c.M, c.N, c.cars, tab, idx)
    && (forall j :: 0 <= j < idx ==> TimedAt(c.M, c.N, c.cars, tab, j))
    && 0 <= clock && PrevClock(tab, idx) <= clock
    && Matches(tab, idx, active)
    && Covers(tab, idx, clock, active)
    && DistinctSpots(active)
    && curDist == SumDist(c.N, tab, idx)
  }

  /** Vehicle idx+1 has found the lot full from its entry clock up to (not including) t. */
  ghost predicate WaitedUntil(c: Ctx, idx: nat, tab: Tables, t: int)
    requires ValidLot(c.M, c.N) && Sized(tab, |c.cars|) && idx < |c.cars|
  {
    forall u :: Max(c.cars[idx].arrive, PrevClock(tab, idx)) <= u < t ==> Full(OccupancyAt(c.M * c.N, tab, idx, u))
  }

  /** The state at a call of dfsBacktrack. */
  ghost predicate Node(c: Ctx, idx: nat, clock: int, active: seq<ActiveCar>, tab: Tables, curDist: int) {
    && Settled(c, idx, clock, active, tab, curDist)
    && (idx < |c.cars| ==> WaitedUntil(c, idx, tab, Max(c.cars[idx].arrive, clock)))
  }

  /** The state of the branch loop: released at t, the lot not full, candidates free. */
  ghost predicate Branch(c: Ctx, idx: nat, t: int, active: seq<ActiveCar>, tab: Tables, curDist: int, cands: seq<int>) {
    && Settled(c, idx, t, active, tab, curDist)
    && idx < |c.cars| && c.cars[idx].arrive <= t
    && WaitedUntil(c, idx, tab, t)
    && (forall a {:trigger a in active} :: a in active ==> a.endTime > t)
    && (forall k :: 0 <= k < |cands| ==> 0 <= cands[k] < c.M * c.N && !Occupancy(c.M * c.N, active)[cands[k]])
  }

  /** What the search promises from a node: if the node is consistent and the incumbent it
      was handed is acceptable, the incumbent it returns is acceptable too. */
  ghost predicate Sound(c: Ctx, idx: nat, clock: int, active: seq<ActiveCar>, tab: Tables, curDist: int,
                        best: Incumbent, r: Incumbent)
    requires ValidLot(c.M, c.N)
  {
    Node(c, idx, clock, active, tab, curDist) && IncumbentOk(c, best) ==> IncumbentOk(c, r)
  }

  /** A stored incumbent: the initial one (bestDistance INT_MAX, arrays all -1), or a complete
      assignment by the timing rules whose distance is the sum of its spots' distances. */
  ghost predicate IncumbentOk(c: Ctx, inc: Incumbent)
    requires ValidLot(c.M, c.N)
  {
    || (inc.dist == IntMax && inc.tables == Blank(|c.cars|))
    || (&& Placed(c.M, c.N, c.cars, inc.tables, |c.cars|)
        && (forall j :: 0 <= j < |c.cars| ==> TimedAt(c.M, c.N, c.cars, inc.tables, j))
        && inc.dist == SumDist(c.N, inc.tables, |c.cars|)
        && inc.dist < IntMax)
  }

  lemma KeptFacts(c: Ctx, idx: nat, clock: int, active: seq<ActiveCar>, tab: Tables, curDist: int, t: int)
    requires Node(c, idx, clock, active, tab, curDist) && idx < |c.cars|
    requires t == Max(c.cars[idx].arrive, clock)
    ensures var kept := StillParked(active, t);
      && SpotsWithin(kept, c.M * c.N) && DistinctSpots(kept) && AllFinite(kept)
      && (forall a {:trigger a in kept} :: a in kept ==> a.endTime > t)
      && Matches(tab, idx, kept)
      && Covers(tab, idx, t, kept)
      && (Full(Occupancy(c.M * c.N, kept)) <==> |kept| == c.M * c.N)
  {
    var kept := StillParked(active, t);
    KeptWithin(c, idx, clock, active, tab, t);
    StillParkedMembers(active, t);
    StillParkedDistinct(active, t);
    FullIffCount(c.M * c.N, kept);
  }

  /** A full lot: the search calls itself for the same vehicle at the earliest departure. */
  lemma NodeFull(c: Ctx, idx: nat, clock: int, active: seq<ActiveCar>, tab: Tables, curDist: int, t: int)
    requires Node(c, idx, clock, active, tab, curDist) && idx < |c.cars|
    requires t == Max(c.cars[idx].arrive, clock)
    requires |StillParked(active, t)| == c.M * c.N
    ensures var kept := StillParked(active, t);
      Node(c, idx, Max(t, EarliestDeparture(kept)), kept, tab, curDist)
  {
    var kept := StillParked(active, t);
    KeptFacts(c, idx, clock, active, tab, curDist, t);
    KeptWithin(c, idx, clock, active, tab, t);
    var t2 := Max(t, EarliestDeparture(kept));
    forall u | Max(c.cars[idx].arrive, PrevClock(tab, idx)) <= u < t2
      ensures Full(OccupancyAt(c.M * c.N, tab, idx, u))
    {
      if t <= u {
        ActiveIsOccupancy(c.M, c.N, c.cars, tab, idx, clock, active, u);
        StillParkedTwice(active, t, u);
        StillParkedAll(kept, u);
      }
    }
    assert Covers(tab, idx, t2, kept);
  }

  /** A lot with room: the search branches on the sorted free spots. */
  lemma NodeBranch(c: Ctx, idx: nat, clock: int, active: seq<ActiveCar>, tab: Tables, curDist: int, t: int)
    requires Node(c, idx, clock, active, tab, curDist) && idx < |c.cars|
    requires t == Max(c.cars[idx].arrive, clock)
    requires |StillParked(active, t)| != c.M * c.N
    ensures var kept := StillParked(active, t);
      && SpotsWithin(kept, c.M * c.N)
      && Branch(c, idx, t, kept, tab, curDist, Candidates(c.M, c.N, Occupancy(c.M * c.N, kept)))
  {
    KeptFacts(c, idx, clock, active, tab, curDist, t);
    KeptWithin(c, idx, clock, active, tab, t);
  }

  /** The spot tried is free of vehicles 1..idx at the branch instant. */
  lemma ChildFree(c: Ctx, idx: nat, t: int, active: seq<ActiveCar>, tab: Tables, curDist: int,
                  cands: seq<int>, ci: nat)
    requires Branch(c, idx, t, active, tab, curDist, cands) && ci < |cands|
    ensures !OccupancyAt(c.M * c.N, tab, idx, t)[cands[ci]]
    ensures !OccupiedBy(active, cands[ci])
  {
    ActiveIsOccupancy(c.M, c.N, c.cars, tab, idx, t, active, t);
    StillParkedAll(active, t);
  }

  lemma ChildPlaced(c: Ctx, idx: nat, t: int, active: seq<ActiveCar>, tab: Tables, curDist: int,
                    cands: seq<int>, ci: nat)
    requires Branch(c, idx, t, active, tab, curDist, cands) && ci < |cands|
    ensures var car := c.cars[idx];
      Placed(c.M, c.N, c.cars, Assign(tab, idx + 1, cands[ci], t, t + car.duration), idx + 1)
  {
    ChildFree(c, idx, t, active, tab, curDist, cands, ci);
    PlacedFreeExtend(c.M, c.N, c.cars, tab, idx, cands[ci], t);
  }

  lemma ChildTimed(c: Ctx, idx: nat, t: int, active: seq<ActiveCar>, tab: Tables, curDist: int,
                   cands: seq<int>, ci: nat)
    requires Branch(c, idx, t, active, tab, curDist, cands) && ci < |cands|
    ensures var tab' := Assign(tab, idx + 1, cands[ci], t, t + c.cars[idx].duration);
      forall j :: 0 <= j < idx + 1 ==> TimedAt(c.M, c.N, c.cars, tab', j)
  {
    var tab' := Assign(tab, idx + 1, cands[ci], t, t + c.cars[idx].duration);
    assert Agree(tab, tab', idx);
    forall j | 0 <= j < idx ensures TimedAt(c.M, c.N, c.cars, tab', j) {
      assert Agree(tab, tab', j + 1);
      TimedAtFrame(c.M, c.N, c.cars, tab, tab', j);
    }
    ChildFree(c, idx, t, active, tab, curDist, cands, ci);
    forall u | Max(c.cars[idx].arrive, PrevClock(tab', idx)) <= u < t
      ensures Full(OccupancyAt(c.M * c.N, tab', idx, u))
    {
      OccupancyAtFrame(c.M * c.N, tab, tab', idx, u);
    }
    OccupancyAtFrame(c.M * c.N, tab, tab', idx, t);
    assert TimedAt(c.M, c.N, c.cars, tab', idx);
  }

  lemma ChildActive(c: Ctx, idx: nat, t: int, active: seq<ActiveCar>, tab: Tables, curDist: int,
                    cands: seq<int>, ci: nat)
    requires Branch(c, idx, t, active, tab, curDist, cands) && ci < |cands|
    ensures var car := c.cars[idx];
      var tab' := Assign(tab, idx + 1, cands[ci], t, t + car.duration);
      var active' := active + [ActiveCar(idx + 1, t + car.duration, cands[ci])];
      && Matches(tab', idx + 1, active')
      && Covers(tab', idx + 1, t, active')
      && DistinctSpots(active')
  {
    ChildFree(c, idx, t, active, tab, curDist, cands, ci);
    SnocTracked(tab, idx, t, active, cands[ci], t + c.cars[idx].duration);
  }

  /** Trying a free spot: the child call of dfsBacktrack starts from a consistent state. */
  lemma BranchChild(c: Ctx, idx: nat, t: int, active: seq<ActiveCar>, tab: Tables, curDist: int,
                    cands: seq<int>, ci: nat)
    requires Branch(c, idx, t, active, tab, curDist, cands) && ci < |cands|
    ensures var car := c.cars[idx];
      Node(c, idx + 1, t, active + [ActiveCar(car.id, t + car.duration, cands[ci])],
           Assign(tab, car.id, cands[ci], t, t + car.duration), curDist + Dist(c.N, cands[ci]))
  {
    var car := c.cars[idx];
    var sp := cands[ci];
    var tab' := Assign(tab, car.id, sp, t, t + car.duration);
    assert car.id == idx + 1;
    BranchReady(c, idx, t, active, tab, sp);
    ChildPlaced(c, idx, t, active, tab, curDist, cands, ci);
    ChildTimed(c, idx, t, active, tab, curDist, cands, ci);
    ChildActive(c, idx, t, active, tab, curDist, cands, ci);
    SumDistFrame(c.N, tab, tab', idx);
  }

  /** A complete assignment that beats the incumbent becomes the new incumbent. */
  lemma LeafOk(c: Ctx, idx: nat, clock: int, active: seq<ActiveCar>, tab: Tables, curDist: int, best: Incumbent)
    requires BtReady(c, idx, clock, active, tab) && idx == |c.cars| && curDist < best.dist
    ensures Sound(c, idx, clock, active, tab, curDist, best, Incumbent(curDist, tab))
  {
  }

  lemma NodeFullIf(c: Ctx, idx: nat, clock: int, active: seq<ActiveCar>, tab: Tables, curDist: int, t: int)
    requires BtReady(c, idx, clock, active, tab) && idx < |c.cars|
    requires t == Max(c.cars[idx].arrive, clock)
    requires |StillParked(active, t)| == c.M * c.N
    ensures AllFinite(StillParked(active, t))
    ensures var kept := StillParked(active, t);
      Node(c, idx, clock, active, tab, curDist) ==> Node(c, idx, Max(t, EarliestDeparture(kept)), kept, tab, curDist)
  {
    KeptWithin(c, idx, clock, active, tab, t);
    if Node(c, idx, clock, active, tab, curDist) {
      NodeFull(c, idx, clock, active, tab, curDist, t);
    }
  }

  lemma NodeBranchIf(c: Ctx, idx: nat, clock: int, active: seq<ActiveCar>, tab: Tables, curDist: int, t: int)
    requires BtReady(c, idx, clock, active, tab) && idx < |c.cars|
    requires t == Max(c.cars[idx].arrive, clock)
    requires |StillParked(active, t)| != c.M * c.N
    ensures SpotsWithin(StillParked(active, t), c.M * c.N)
    ensures var kept := StillParked(active, t);
      Node(c, idx, clock, active, tab, curDist) ==>
        Branch(c, idx, t, kept, tab, curDist, Candidates(c.M, c.N, Occupancy(c.M * c.N, kept)))
  {
    KeptWithin(c, idx, clock, active, tab, t);
    if Node(c, idx, clock, active, tab, curDist) {
      NodeBranch(c, idx, clock, active, tab, curDist, t);
    }
  }

  /** The child's result is acceptable whenever the branch is: what Descend promises. */
  lemma DescendOk(c: Ctx, idx: nat, t: int, active: seq<ActiveCar>, tab: Tables, curDist: int,
                  cands: seq<int>, ci: nat, best: Incumbent, r: Incumbent)
    requires BtReady(c, idx, t, active, tab) && idx < |c.cars|
    requires ci < |cands| && forall k :: 0 <= k < |cands| ==> 0 <= cands[k] < c.M * c.N
    requires var car := c.cars[idx];
      Sound(c, idx + 1, t, active + [ActiveCar(car.id, t + car.duration, cands[ci])],
            Assign(tab, car.id, cands[ci], t, t + car.duration), curDist + Dist(c.N, cands[ci]), best, r)
    ensures Branch(c, idx, t, active, tab, curDist, cands) && IncumbentOk(c, best) ==> IncumbentOk(c, r)
  {
    if Branch(c, idx, t, active, tab, curDist, cands) {
      BranchChild(c, idx, t, active, tab, curDist, cands, ci);
    }
  }

  /** State restoration: resetting the vehicle's three entries to -1 after a branch gives back
      exactly the arrays the branch started from (parking.cpp:234-236). */
  lemma RestoredIf(c: Ctx, idx: nat, t: int, active: seq<ActiveCar>, tab: Tables, curDist: int,
                   cands: seq<int>, ci: nat)
    requires BtReady(c, idx, t, active, tab) && idx < |c.cars| && ci < |cands|
    ensures var car := c.cars[idx];
      Branch(c, idx, t, active, tab, curDist, cands) ==>
        Unassign(Assign(tab, car.id, cands[ci], t, t + car.duration), car.id) == tab
  {
    var car := c.cars[idx];
    if Branch(c, idx, t, active, tab, curDist, cands) {
      UnassignRestores(tab, car.id, cands[ci], t, t + car.duration);
    }
  }

  /** Advancing a full lot to its earliest departure frees a spot before the next try. */
  lemma FullProgress(c: Ctx, idx: nat, clock: int, active: seq<ActiveCar>, tab: Tables, t: int)
    requires BtReady(c, idx, clock, active, tab) && idx < |c.cars|
    requires t == Max(c.cars[idx].arrive, clock)
    requires |StillParked(active, t)| == c.M * c.N
    ensures var kept := StillParked(active, t);
      var t2 := Max(t, EarliestDeparture(kept));
      && BtReady(c, idx, t2, kept, tab)
      && Pending(c, idx, t2, kept) < Pending(c, idx, clock, active)
  {
    var kept := StillParked(active, t);
    BtReadyFinite(c, idx, clock, active, tab);
    KeptWithin(c, idx, clock, active, tab, t);
    var t2 := Max(t, EarliestDeparture(kept));
    ReleaseProgress(kept, t2);
    assert Max(c.cars[idx].arrive, t2) == t2;
  }

  /** The root call: no vehicle placed, the clock at 0, the lot empty, the arrays all -1. */
  lemma RootNode(c: Ctx)
    requires ValidLot(c.M, c.N) && IdsInOrder(c.cars) && HorizonOk(c.cars)
    ensures BtReady(c, 0, 0, [], Blank(|c.cars|))
    ensures Node(c, 0, 0, [], Blank(|c.cars|), 0)
    ensures IncumbentOk(c, Incumbent(IntMax, Blank(|c.cars|)))
  {
  }

  /** A stored complete assignment never puts two parked vehicles on one spot. */
  lemma IncumbentNoOverlap(c: Ctx, inc: Incumbent)
    requires ValidLot(c.M, c.N) && IncumbentOk(c, inc)
    ensures Sized(inc.tables, |c.cars|)
    ensures inc.dist != IntMax ==> NoOverlap(inc.tables, |c.cars|)
  {
    if inc.dist != IntMax {
      PlacedNoOverlap(c.M, c.N, c.cars, inc.tables, |c.cars|);
    }
  }

  /** runBacktracking (main.cpp:246-302): search from the root with the incumbent at INT_MAX
      and all -1 arrays, then report the incumbent's arrays and distance and the vehicles
      ordered by end time. Either no assignment beat INT_MAX and the arrays are still all -1,
      or the result is a complete feasible schedule by the timing rule whose total is its
      spots' distance sum. */
  function RunBacktracking(M: int, N: int, cars: seq<Vehicle>): (r: ScheduleResult)
    requires ValidLot(M, N) && IdsInOrder(cars) && HorizonOk(cars)
    ensures Sized(r.tables, |cars|)
    ensures || (r.totalDistance == IntMax && r.tables == Blank(|cars|))
            || (&& Placed(M, N, cars, r.tables, |cars|)
                && (forall j :: 0 <= j < |cars| ==> TimedAt(M, N, cars, r.tables, j))
                && NoOverlap(r.tables, |cars|)
                && r.totalDistance == SumDist(N, r.tables, |cars|)
                && r.totalDistance < IntMax)
    ensures multiset(r.departureOrder) == multiset(OneTo(|cars|))
    ensures ByDeparture(r.tables, r.departureOrder)
  {
    var K := |cars|;
    var c := Ctx(M, N, cars, SortedDistances(M, N));
    RootNode(c);
    var best := Dfs(c, 0, 0, [], Blank(K), 0, Incumbent(IntMax, Blank(K)));
    IncumbentNoOverlap(c, best);
    DepartureOrderPermutes(best.tables, cars);
    ScheduleResult(best.tables, DepartureOrder(best.tables, cars), best.dist)
  }
}
