/** What a schedule is: the per-vehicle result arrays of parking.h, and the rules every
    schedule the two strategies produce obeys. Vehicle ids are 1..K in input order, so the
    arrays have K + 1 entries and entry 0 is never used. */
module Schedule {
  import opened Lot
  import opened Release
  import opened SeqUtil

  /** spotOf[v], parkTimeOf[v], endTimeOf[v]: the spot r*N + c of vehicle v and the instants it
      entered and left; -1 in all three while v has not been parked. */
  datatype Tables = Tables(spotOf: seq<int>, parkTimeOf: seq<int>, endTimeOf: seq<int>)

  /** A strategy's outcome; the elapsed time of the source is not modelled. */
  datatype ScheduleResult = ScheduleResult(tables: Tables, departureOrder: seq<int>, totalDistance: int)

  function Max(a: int, b: int): int {
    if a < b then b else a
  }

  predicate Sized(tab: Tables, K: nat) {
    |tab.spotOf| == K + 1 && |tab.parkTimeOf| == K + 1 && |tab.endTimeOf| == K + 1
  }

  predicate Unset(tab: Tables, v: int)
    requires 0 <= v < |tab.spotOf| && v < |tab.parkTimeOf| && v < |tab.endTimeOf|
  {
    tab.spotOf[v] == -1 && tab.parkTimeOf[v] == -1 && tab.endTimeOf[v] == -1
  }

  /** The three arrays as `assign(K + 1, -1)` creates them. */
  function Blank(K: nat): (tab: Tables)
    ensures Sized(tab, K)
    ensures forall v :: 0 <= v <= K ==> Unset(tab, v)
  {
    var none := seq(K + 1, _ => -1);
    Tables(none, none, none)
  }

  /** Records vehicle v at a spot and interval, leaving every other vehicle's entries alone. */
  function Assign(tab: Tables, v: int, spot: int, park: int, end: int): (r: Tables)
    requires 0 <= v < |tab.spotOf| && v < |tab.parkTimeOf| && v < |tab.endTimeOf|
    ensures |r.spotOf| == |tab.spotOf| && |r.parkTimeOf| == |tab.parkTimeOf| && |r.endTimeOf| == |tab.endTimeOf|
    ensures r.spotOf[v] == spot && r.parkTimeOf[v] == park && r.endTimeOf[v] == end
    ensures forall w :: 0 <= w < |tab.spotOf| && w != v ==> r.spotOf[w] == tab.spotOf[w]
    ensures forall w :: 0 <= w < |tab.parkTimeOf| && w != v ==> r.parkTimeOf[w] == tab.parkTimeOf[w]
    ensures forall w :: 0 <= w < |tab.endTimeOf| && w != v ==> r.endTimeOf[w] == tab.endTimeOf[w]
  {
    Tables(tab.spotOf[v := spot], tab.parkTimeOf[v := park], tab.endTimeOf[v := end])
  }

  /** The reset after a branch of the search: all three entries of v back to -1. */
  function Unassign(tab: Tables, v: int): (r: Tables)
    requires 0 <= v < |tab.spotOf| && v < |tab.parkTimeOf| && v < |tab.endTimeOf|
    ensures |r.spotOf| == |tab.spotOf| && |r.parkTimeOf| == |tab.parkTimeOf| && |r.endTimeOf| == |tab.endTimeOf|
    ensures Unset(r, v)
  {
    Assign(tab, v, -1, -1, -1)
  }

  /** Resetting a vehicle that was unset before it was assigned restores the arrays exactly. */
  lemma UnassignRestores(tab: Tables, v: int, spot: int, park: int, end: int)
    requires 0 <= v < |tab.spotOf| && v < |tab.parkTimeOf| && v < |tab.endTimeOf|
    requires Unset(tab, v)
    ensures Unassign(Assign(tab, v, spot, park, end), v) == tab
  {
    var r := Unassign(Assign(tab, v, spot, park, end), v);
    assert r.spotOf == tab.spotOf;
    assert r.parkTimeOf == tab.parkTimeOf;
    assert r.endTimeOf == tab.endTimeOf;
  }

  /** Vehicle ids are 1, 2, ..., K in input order, as the input reader numbers them. */
  predicate IdsInOrder(cars: seq<Vehicle>) {
    forall i :: 0 <= i < |cars| ==> cars[i].id == i + 1
  }

  /** Vehicle v (1-based) has a spot of the lot, entered no earlier than its arrival and
      never before instant 0, and left exactly `duration` after entering. */
  predicate ParkedOk(M: int, N: int, cars: seq<Vehicle>, tab: Tables, v: int)
    requires Sized(tab, |cars|) && 1 <= v <= |cars|
  {
    && 0 <= tab.spotOf[v] < M * N
    && 0 <= tab.parkTimeOf[v]
    && cars[v - 1].arrive <= tab.parkTimeOf[v]
    && tab.endTimeOf[v] == tab.parkTimeOf[v] + cars[v - 1].duration
  }

  /** The first n vehicles are placed by the timing rules, in input order, each on a spot its
      predecessors on that spot have left; vehicles n+1..K are still unset. */
  predicate Placed(M: int, N: int, cars: seq<Vehicle>, tab: Tables, n: nat) {
    && n <= |cars| && Sized(tab, |cars|)
    && Unset(tab, 0)
    && (forall v :: 1 <= v <= n ==> ParkedOk(M, N, cars, tab, v))
    && (forall v, w :: 1 <= v < w <= n ==> tab.parkTimeOf[v] <= tab.parkTimeOf[w])
    && (forall v, w :: 1 <= v < w <= n && tab.spotOf[v] == tab.spotOf[w] ==> tab.endTimeOf[v] <= tab.parkTimeOf[w])
    && (forall v :: n < v <= |cars| ==> Unset(tab, v))
  }

  /** Vehicle v is on the lot at instant u: it entered at or before u and has not left. */
  predicate PresentAt(tab: Tables, v: int, u: int)
    requires 0 <= v < |tab.parkTimeOf| && v < |tab.endTimeOf|
  {
    tab.parkTimeOf[v] <= u < tab.endTimeOf[v]
  }

  /** No two vehicles are ever on the same spot at the same instant. */
  ghost predicate NoOverlap(tab: Tables, n: nat)
    requires n < |tab.spotOf| && n < |tab.parkTimeOf| && n < |tab.endTimeOf|
  {
    forall v, w, u :: 1 <= v <= n && 1 <= w <= n && v != w && PresentAt(tab, v, u) && PresentAt(tab, w, u)
      ==> tab.spotOf[v] != tab.spotOf[w]
  }

  lemma PlacedNoOverlap(M: int, N: int, cars: seq<Vehicle>, tab: Tables, n: nat)
    requires Placed(M, N, cars, tab, n)
    ensures NoOverlap(tab, n)
  {
  }

  /** Which spots vehicles 1..n cover at instant u. */
  function OccupancyAt(size: nat, tab: Tables, n: nat, u: int): (occ: seq<bool>)
    requires n < |tab.spotOf| && n < |tab.parkTimeOf| && n < |tab.endTimeOf|
    ensures |occ| == size
    ensures forall s :: 0 <= s < size ==>
      (occ[s] <==> exists v :: 1 <= v <= n && tab.spotOf[v] == s && PresentAt(tab, v, u))
  {
    seq(size, s => exists v :: 1 <= v <= n && tab.spotOf[v] == s && PresentAt(tab, v, u))
  }

  /** The total r + c distance of the spots of vehicles 1..n. */
  function SumDist(N: int, tab: Tables, n: nat): int
    requires N >= 1 && n < |tab.spotOf|
  {
    if n == 0 then 0 else SumDist(N, tab, n - 1) + Dist(N, tab.spotOf[n])
  }

  lemma {:induction false} SumDistFrame(N: int, a: Tables, b: Tables, n: nat)
    requires N >= 1 && n < |a.spotOf| && n < |b.spotOf|
    requires forall v :: 1 <= v <= n ==> a.spotOf[v] == b.spotOf[v]
    ensures SumDist(N, a, n) == SumDist(N, b, n)
    decreases n
  {
    if n > 0 {
      SumDistFrame(N, a, b, n - 1);
    }
  }

  lemma {:induction false} SumDistNonNegative(N: int, tab: Tables, n: nat)
    requires N >= 1 && n < |tab.spotOf|
    requires forall v :: 1 <= v <= n ==> 0 <= tab.spotOf[v]
    ensures SumDist(N, tab, n) >= 0
    decreases n
  {
    if n > 0 {
      SumDistNonNegative(N, tab, n - 1);
      DistBound(N, tab.spotOf[n]);
    }
  }

  /** The entry clock for vehicle i+1: the previous vehicle's entry instant, 0 for the first. */
  function PrevClock(tab: Tables, i: nat): int
    requires i < |tab.parkTimeOf|
  {
    if i == 0 then 0 else tab.parkTimeOf[i]
  }

  /** The timing rule both strategies follow for vehicle i+1 (0-based position i): starting
      from max(arrive, clock) it waits exactly while the lot is full of earlier vehicles, then
      enters on a spot no earlier vehicle holds at that instant. */
  ghost predicate TimedAt(M: int, N: int, cars: seq<Vehicle>, tab: Tables, i: nat)
    requires ValidLot(M, N) && Sized(tab, |cars|) && i < |cars|
  {
    var v := i + 1;
    var t0 := Max(cars[i].arrive, PrevClock(tab, i));
    && t0 <= tab.parkTimeOf[v]
    && (forall u :: t0 <= u < tab.parkTimeOf[v] ==> Full(OccupancyAt(M * N, tab, i, u)))
    && 0 <= tab.spotOf[v] < M * N
    && !OccupancyAt(M * N, tab, i, tab.parkTimeOf[v])[tab.spotOf[v]]
  }

  /** The greedy rule: the timing rule, and the spot is the nearest free one, the first in
      row-major order among equals. */
  ghost predicate ChosenAt(M: int, N: int, cars: seq<Vehicle>, tab: Tables, i: nat)
    requires ValidLot(M, N) && Sized(tab, |cars|) && i < |cars|
  {
    && TimedAt(M, N, cars, tab, i)
    && IsNearestFree(N, OccupancyAt(M * N, tab, i, tab.parkTimeOf[i + 1]), tab.spotOf[i + 1])
  }

  /** A complete greedy schedule: placed, and every vehicle chosen by the greedy rule. */
  ghost predicate GreedySchedule(M: int, N: int, cars: seq<Vehicle>, tab: Tables)
    requires ValidLot(M, N)
  {
    && Placed(M, N, cars, tab, |cars|)
    && (forall i :: 0 <= i < |cars| ==> ChosenAt(M, N, cars, tab, i))
  }

  /** max(0, latest arrival among the first n vehicles). */
  function MaxArrive(cars: seq<Vehicle>, n: nat): (r: int)
    requires n <= |cars|
    ensures r >= 0
    ensures forall i :: 0 <= i < n ==> cars[i].arrive <= r
  {
    if n == 0 then 0 else Max(MaxArrive(cars, n - 1), cars[n - 1].arrive)
  }

  /** Sum of the non-negative parts of the first n durations. */
  function TotalStay(cars: seq<Vehicle>, n: nat): (r: int)
    requires n <= |cars|
    ensures r >= 0
  {
    if n == 0 then 0 else TotalStay(cars, n - 1) + Max(cars[n - 1].duration, 0)
  }

  /** No instant of the first n placements lies beyond this: the latest arrival plus all the
      stays before it. */
  function Horizon(cars: seq<Vehicle>, n: nat): int
    requires n <= |cars|
  {
    MaxArrive(cars, |cars|) + TotalStay(cars, n)
  }

  lemma {:induction false} HorizonMonotone(cars: seq<Vehicle>, a: nat, b: nat)
    requires a <= b <= |cars|
    ensures Horizon(cars, a) <= Horizon(cars, b)
    decreases b - a
  {
    if a < b {
      HorizonMonotone(cars, a, b - 1);
    }
  }

  /** Every instant the run computes fits in an `int` below the INT_MAX sentinel. */
  predicate HorizonOk(cars: seq<Vehicle>) {
    Horizon(cars, |cars|) < IntMax
  }

  /** Vehicles 0..n have the same entries in both tables. */
  predicate Agree(a: Tables, b: Tables, n: nat)
    requires n < |a.spotOf| && n < |a.parkTimeOf| && n < |a.endTimeOf|
    requires n < |b.spotOf| && n < |b.parkTimeOf| && n < |b.endTimeOf|
  {
    forall v :: 0 <= v <= n ==>
      a.spotOf[v] == b.spotOf[v] && a.parkTimeOf[v] == b.parkTimeOf[v] && a.endTimeOf[v] == b.endTimeOf[v]
  }

  lemma OccupancyAtFrame(size: nat, a: Tables, b: Tables, n: nat, u: int)
    requires n < |a.spotOf| && n < |a.parkTimeOf| && n < |a.endTimeOf|
    requires n < |b.spotOf| && n < |b.parkTimeOf| && n < |b.endTimeOf|
    requires Agree(a, b, n)
    ensures OccupancyAt(size, a, n, u) == OccupancyAt(size, b, n, u)
  {
    var oa, ob := OccupancyAt(size, a, n, u), OccupancyAt(size, b, n, u);
    forall s | 0 <= s < size ensures oa[s] == ob[s] {
      if oa[s] {
        var v :| 1 <= v <= n && a.spotOf[v] == s && PresentAt(a, v, u);
        assert b.spotOf[v] == s && PresentAt(b, v, u);
      }
      if ob[s] {
        var v :| 1 <= v <= n && b.spotOf[v] == s && PresentAt(b, v, u);
        assert a.spotOf[v] == s && PresentAt(a, v, u);
      }
    }
  }

  /** Whether vehicle i+1 obeyed the greedy rule depends only on vehicles 1..i+1. */
  lemma ChosenAtFrame(M: int, N: int, cars: seq<Vehicle>, a: Tables, b: Tables, i: nat)
    requires ValidLot(M, N) && Sized(a, |cars|) && Sized(b, |cars|) && i < |cars|
    requires Agree(a, b, i + 1)
    requires ChosenAt(M, N, cars, a, i)
    ensures ChosenAt(M, N, cars, b, i)
  {
    assert Agree(a, b, i);
    forall u ensures OccupancyAt(M * N, a, i, u) == OccupancyAt(M * N, b, i, u) {
      OccupancyAtFrame(M * N, a, b, i, u);
    }
  }

  /** Every placed vehicle entered no later than the last one. */
  lemma PlacedBeforeClock(M: int, N: int, cars: seq<Vehicle>, tab: Tables, n: nat, w: int)
    requires Placed(M, N, cars, tab, n) && 1 <= w <= n
    ensures tab.parkTimeOf[w] <= PrevClock(tab, n)
  {
  }

  /** Placing vehicle n+1 on a spot free at its entry instant keeps the first n+1 placed. */
  lemma PlacedFreeExtend(M: int, N: int, cars: seq<Vehicle>, tab: Tables, n: nat, spot: int, time: int)
    requires Placed(M, N, cars, tab, n) && n < |cars|
    requires 0 <= spot < M * N
    requires 0 <= time && cars[n].arrive <= time && PrevClock(tab, n) <= time
    requires !OccupancyAt(M * N, tab, n, time)[spot]
    ensures Placed(M, N, cars, Assign(tab, n + 1, spot, time, time + cars[n].duration), n + 1)
  {
    forall w | 1 <= w <= n && tab.spotOf[w] == spot ensures tab.endTimeOf[w] <= time {
      PlacedBeforeClock(M, N, cars, tab, n, w);
      if time < tab.endTimeOf[w] {
        assert PresentAt(tab, w, time);
      }
    }
    PlacedExtend(M, N, cars, tab, n, spot, time);
  }

  /** Placing vehicle n+1 by the rules keeps the first n+1 placed: it enters no earlier than
      its arrival, instant 0 and its predecessor, on a spot every earlier holder has left. */
  lemma PlacedExtend(M: int, N: int, cars: seq<Vehicle>, tab: Tables, n: nat, spot: int, time: int)
    requires Placed(M, N, cars, tab, n) && n < |cars|
    requires 0 <= spot < M * N
    requires 0 <= time && cars[n].arrive <= time && PrevClock(tab, n) <= time
    requires forall w :: 1 <= w <= n && tab.spotOf[w] == spot ==> tab.endTimeOf[w] <= time
    ensures Placed(M, N, cars, Assign(tab, n + 1, spot, time, time + cars[n].duration), n + 1)
  {
    var tab' := Assign(tab, n + 1, spot, time, time + cars[n].duration);
    forall w | 1 <= w <= n + 1 ensures ParkedOk(M, N, cars, tab', w) {
      if w <= n {
        assert ParkedOk(M, N, cars, tab, w);
      }
    }
    forall v, w | 1 <= v < w <= n + 1 ensures tab'.parkTimeOf[v] <= tab'.parkTimeOf[w] {
      PlacedBeforeClock(M, N, cars, tab, n, v);
      if w <= n {
        assert tab.parkTimeOf[v] <= tab.parkTimeOf[w];
      }
    }
    forall v, w | 1 <= v < w <= n + 1 && tab'.spotOf[v] == tab'.spotOf[w]
      ensures tab'.endTimeOf[v] <= tab'.parkTimeOf[w]
    {
      if w <= n {
        assert tab.spotOf[v] == tab.spotOf[w];
      }
    }
    assert Unset(tab', 0);
    forall v | n + 1 < v <= |cars| ensures Unset(tab', v) {
      assert Unset(tab, v);
    }
  }

  lemma TimedAtFrame(M: int, N: int, cars: seq<Vehicle>, a: Tables, b: Tables, i: nat)
    requires ValidLot(M, N) && Sized(a, |cars|) && Sized(b, |cars|) && i < |cars|
    requires Agree(a, b, i + 1)
    requires TimedAt(M, N, cars, a, i)
    ensures TimedAt(M, N, cars, b, i)
  {
    assert Agree(a, b, i);
    forall u ensures OccupancyAt(M * N, a, i, u) == OccupancyAt(M * N, b, i, u) {
      OccupancyAtFrame(M * N, a, b, i, u);
    }
  }

  /** Every parked car is one of vehicles 1..n, with the end time and spot the arrays record. */
  predicate Matches(tab: Tables, n: nat, active: seq<ActiveCar>)
    requires n < |tab.spotOf| && n < |tab.endTimeOf|
  {
    forall c {:trigger c in active} :: c in active ==> 1 <= c.id <= n && c.endTime == tab.endTimeOf[c.id] && c.spot == tab.spotOf[c.id]
  }

  /** Every vehicle among 1..n that has not left by the clock is still parked. */
  predicate Covers(tab: Tables, n: nat, clock: int, active: seq<ActiveCar>)
    requires n < |tab.spotOf| && n < |tab.endTimeOf|
  {
    forall v :: 1 <= v <= n && tab.endTimeOf[v] > clock ==> ActiveCar(v, tab.endTimeOf[v], tab.spotOf[v]) in active
  }

  /** Parking vehicle n + 1 on a spot no parked car holds, and recording it in the arrays,
      keeps the parked cars in step with the arrays. */
  lemma SnocTracked(tab: Tables, n: nat, t: int, active: seq<ActiveCar>, spot: int, end: int)
    requires n + 1 < |tab.spotOf| && n + 1 < |tab.parkTimeOf| && n + 1 < |tab.endTimeOf|
    requires Matches(tab, n, active) && Covers(tab, n, t, active) && DistinctSpots(active)
    requires !OccupiedBy(active, spot)
    ensures var tab' := Assign(tab, n + 1, spot, t, end);
      var active' := active + [ActiveCar(n + 1, end, spot)];
      && Matches(tab', n + 1, active')
      && Covers(tab', n + 1, t, active')
      && DistinctSpots(active')
  {
    var tab' := Assign(tab, n + 1, spot, t, end);
    var last := ActiveCar(n + 1, end, spot);
    var active' := active + [last];
    DistinctSnoc(active, last);
    assert forall a {:trigger a in active'} :: a in active' ==> a in active || a == last;
    forall w | 1 <= w <= n + 1 && tab'.endTimeOf[w] > t
      ensures ActiveCar(w, tab'.endTimeOf[w], tab'.spotOf[w]) in active'
    {
      if w <= n {
        assert ActiveCar(w, tab.endTimeOf[w], tab.spotOf[w]) in active;
      } else {
        assert active'[|active'| - 1] == ActiveCar(w, tab'.endTimeOf[w], tab'.spotOf[w]);
      }
    }
  }

  /** Releasing the cars that have left by u >= clock keeps the rest in step with the arrays. */
  lemma KeptTracked(tab: Tables, n: nat, clock: int, active: seq<ActiveCar>, u: int)
    requires n < |tab.spotOf| && n < |tab.endTimeOf|
    requires Matches(tab, n, active) && Covers(tab, n, clock, active) && DistinctSpots(active)
    requires clock <= u
    ensures Matches(tab, n, StillParked(active, u))
    ensures Covers(tab, n, u, StillParked(active, u))
    ensures DistinctSpots(StillParked(active, u))
  {
    StillParkedMembers(active, u);
    StillParkedDistinct(active, u);
  }

  /** At any instant from the clock on, the cars still parked cover exactly the spots the
      arrays say vehicles 1..n cover. */
  lemma ActiveIsOccupancy(M: int, N: int, cars: seq<Vehicle>, tab: Tables, n: nat, clock: int,
                          active: seq<ActiveCar>, u: int)
    requires ValidLot(M, N) && Placed(M, N, cars, tab, n) && PrevClock(tab, n) <= clock <= u
    requires SpotsWithin(active, M * N) && Matches(tab, n, active) && Covers(tab, n, clock, active)
    ensures SpotsWithin(StillParked(active, u), M * N)
    ensures Occupancy(M * N, StillParked(active, u)) == OccupancyAt(M * N, tab, n, u)
  {
    StillParkedMembers(active, u);
    var kept := StillParked(active, u);
    var a, b := Occupancy(M * N, kept), OccupancyAt(M * N, tab, n, u);
    forall s | 0 <= s < M * N ensures a[s] == b[s] {
      if a[s] {
        var c :| c in kept && c.spot == s;
        PlacedBeforeClock(M, N, cars, tab, n, c.id);
        assert tab.spotOf[c.id] == s && PresentAt(tab, c.id, u);
      }
      if b[s] {
        var v :| 1 <= v <= n && tab.spotOf[v] == s && PresentAt(tab, v, u);
        var c := ActiveCar(v, tab.endTimeOf[v], tab.spotOf[v]);
        assert c in active;
        assert c in kept;
      }
    }
  }
}
