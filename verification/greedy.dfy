/** runGreedy: vehicles in input order, each entering at max(arrival, clock), waiting for the
    earliest departure while the lot is full, and taking the nearest free spot. */
module Greedy {
  import opened Lot
  import opened Release
  import opened Schedule
  import opened SeqUtil

  /** Where and when a vehicle gets in: the entry instant, the cars still parked then, the cars
      released on the way (in release order) and the spot. */
  datatype Entry = Entry(time: int, kept: seq<ActiveCar>, gone: seq<ActiveCar>, spot: int)

  /** Releasing before t leaves no car ending by t. */
  lemma KeptAfter(active: seq<ActiveCar>, t: int)
    ensures forall c {:trigger c in StillParked(active, t)} :: c in StillParked(active, t) ==> c in active && c.endTime > t
  {
    StillParkedMembers(active, t);
  }

  lemma SortedJoin(a: seq<ActiveCar>, b: seq<ActiveCar>, t: int)
    requires SortedByDeparture(a) && SortedByDeparture(b)
    requires forall c {:trigger c in a} :: c in a ==> c.endTime <= t
    requires forall c {:trigger c in b} :: c in b ==> c.endTime > t
    ensures SortedByDeparture(a + b)
  {
    var ab := a + b;
    forall i, j | 0 <= i < j < |ab| ensures Precedes(ab[i], ab[j]) {
      if j < |a| {
        assert ab[i] == a[i] && ab[j] == a[j];
      } else if i >= |a| {
        assert ab[i] == b[i - |a|] && ab[j] == b[j - |a|];
      } else {
        assert ab[i] in a && ab[j] in b;
      }
    }
  }

  /** A full lot holds at least one car. */
  lemma FullHasCar(size: nat, active: seq<ActiveCar>)
    requires size >= 1 && SpotsWithin(active, size)
    requires Full(Occupancy(size, active))
    ensures active != []
  {
    assert Occupancy(size, active)[0];
  }

  /** What the wait loop promises when started at instant t with the cars in `active`: the
      vehicle enters at t or at some car's end time, after everything ending by then has been
      released in (endTime, id) order; the lot was full at every instant it waited; it takes
      the nearest free spot of the lot as left at its entry instant. */
  ghost predicate EntryOk(M: int, N: int, t: int, active: seq<ActiveCar>, e: Entry)
    requires ValidLot(M, N) && SpotsWithin(active, M * N)
  {
    && t <= e.time
    && (e.time == t || exists c {:trigger c in active} :: c in active && c.endTime == e.time)
    && e.kept == StillParked(active, e.time)
    && (forall c {:trigger c in e.gone} :: c in e.gone ==> c in active && c.endTime <= e.time)
    && SortedByDeparture(e.gone)
    && (forall u :: t <= u < e.time ==> AllFull(M * N, active, u))
    && 0 <= e.spot < M * N && SpotsWithin(e.kept, M * N)
    && IsNearestFree(N, Occupancy(M * N, e.kept), e.spot)
  }

  /** The wait loop of runGreedy (parking.cpp:99-130): release at t, try to pick a spot, and
      while none is free advance t to the earliest departure and release again. */
  function Admit(M: int, N: int, t: int, active: seq<ActiveCar>): (e: Entry)
    requires ValidLot(M, N) && AllFinite(active) && SpotsWithin(active, M * N)
    ensures EntryOk(M, N, t, active, e)
    decreases |StillParked(active, t)|
  {
    var r := ReleaseByTime(active, t);
    AdmitReleased(M, N, t, active);
    var spot := PickGreedySpot(M, N, Occupancy(M * N, r.0));
    if spot != -1 then
      AdmitNow(M, N, t, active);
      Entry(t, r.0, r.1, spot)
    else
      AdmitWaits(M * N, t, r.0);
      var e := Admit(M, N, Max(t, EarliestDeparture(r.0)), r.0);
      AdmitStep(M, N, t, active, r.0, r.1, e);
      Entry(e.time, e.kept, r.1 + e.gone, e.spot)
  }

  /** The cars kept by a release are cars of the lot, with finite end times. */
  lemma AdmitReleased(M: int, N: int, t: int, active: seq<ActiveCar>)
    requires ValidLot(M, N) && AllFinite(active) && SpotsWithin(active, M * N)
    ensures AllFinite(ReleaseByTime(active, t).0) && SpotsWithin(ReleaseByTime(active, t).0, M * N)
  {
    KeptAfter(active, t);
  }

  /** A free spot right after the release: the vehicle enters at t. */
  lemma AdmitNow(M: int, N: int, t: int, active: seq<ActiveCar>)
    requires ValidLot(M, N) && AllFinite(active) && SpotsWithin(active, M * N)
    requires SpotsWithin(ReleaseByTime(active, t).0, M * N)
    requires PickGreedySpot(M, N, Occupancy(M * N, ReleaseByTime(active, t).0)) != -1
    ensures EntryOk(M, N, t, active, Entry(t, ReleaseByTime(active, t).0, ReleaseByTime(active, t).1,
                                         PickGreedySpot(M, N, Occupancy(M * N, ReleaseByTime(active, t).0))))
  {
  }

  /** A full lot: some car is parked, and advancing to the earliest departure releases at
      least one of them. */
  lemma AdmitWaits(size: nat, t: int, kept: seq<ActiveCar>)
    requires size >= 1 && AllFinite(kept) && SpotsWithin(kept, size) && Full(Occupancy(size, kept))
    ensures kept != []
    ensures |StillParked(kept, Max(t, EarliestDeparture(kept)))| < |kept|
  {
    FullHasCar(size, kept);
    ReleaseProgress(kept, Max(t, EarliestDeparture(kept)));
  }

  /** The recursive case of the wait loop: the entry found from the earliest departure on is
      the entry from t, once the first batch of releases is put in front. */
  lemma AdmitStep(M: int, N: int, t: int, active: seq<ActiveCar>, kept: seq<ActiveCar>,
                  gone: seq<ActiveCar>, e: Entry)
    requires ValidLot(M, N) && SpotsWithin(active, M * N)
    requires kept == StillParked(active, t)
    requires forall c {:trigger c in gone} :: c in gone ==> c in active && c.endTime <= t
    requires SortedByDeparture(gone)
    requires kept != [] && AllFinite(kept) && SpotsWithin(kept, M * N) && Full(Occupancy(M * N, kept))
    requires EntryOk(M, N, Max(t, EarliestDeparture(kept)), kept, e)
    ensures EntryOk(M, N, t, active, Entry(e.time, e.kept, gone + e.gone, e.spot))
  {
    var t2 := Max(t, EarliestDeparture(kept));
    AdmitStepTime(t, active, kept, t2, e.time);
    StillParkedTwice(active, t, e.time);
    AdmitStepGone(t, active, kept, gone, e.time, e.gone);
    AdmitStepFull(M * N, t, active, kept, t2, e.time);
  }

  /** The wait loop loses no car: the cars left parked at entry and the cars released on the
      way are, together, the cars parked when it started. */
  lemma {:induction false} AdmitPermutes(M: int, N: int, t: int, active: seq<ActiveCar>)
    requires ValidLot(M, N) && AllFinite(active) && SpotsWithin(active, M * N)
    ensures var e := Admit(M, N, t, active);
      multiset(e.kept) + multiset(e.gone) == multiset(active)
    decreases |StillParked(active, t)|
  {
    var r := ReleaseByTime(active, t);
    ReleasePermutes(active, t);
    AdmitReleased(M, N, t, active);
    var waits := AdmitUnfold(M, N, t, active);
    if waits {
      AdmitWaits(M * N, t, r.0);
      var t2 := Max(t, EarliestDeparture(r.0));
      AdmitPermutes(M, N, t2, r.0);
      JoinPermutes(Admit(M, N, t2, r.0).kept, Admit(M, N, t2, r.0).gone, r.0, r.1, active);
    }
  }

  /** One turn of the wait loop: either the vehicle enters right after the release, or the
      entry is the one found from the earliest departure with this release's cars in front. */
  lemma AdmitUnfold(M: int, N: int, t: int, active: seq<ActiveCar>) returns (waits: bool)
    requires ValidLot(M, N) && AllFinite(active) && SpotsWithin(active, M * N)
    ensures var r := ReleaseByTime(active, t);
      var e := Admit(M, N, t, active);
      && AllFinite(r.0) && SpotsWithin(r.0, M * N)
      && waits == Full(Occupancy(M * N, r.0))
      && (!waits ==> e == Entry(t, r.0, r.1, PickGreedySpot(M, N, Occupancy(M * N, r.0))))
      && (waits ==> var e2 := Admit(M, N, Max(t, EarliestDeparture(r.0)), r.0);
                    e == Entry(e2.time, e2.kept, r.1 + e2.gone, e2.spot))
  {
    var r := ReleaseByTime(active, t);
    AdmitReleased(M, N, t, active);
    waits := PickGreedySpot(M, N, Occupancy(M * N, r.0)) == -1;
  }

  lemma JoinPermutes(kept2: seq<ActiveCar>, gone2: seq<ActiveCar>, kept: seq<ActiveCar>,
                     gone: seq<ActiveCar>, active: seq<ActiveCar>)
    requires multiset(kept2) + multiset(gone2) == multiset(kept)
    requires multiset(kept) + multiset(gone) == multiset(active)
    ensures multiset(kept2) + multiset(gone + gone2) == multiset(active)
  {
    assert multiset(gone + gone2) == multiset(gone) + multiset(gone2);
  }

  /** The lot is full at instant u once everything ending by u has left. */
  ghost predicate AllFull(size: nat, active: seq<ActiveCar>, u: int)
    requires SpotsWithin(active, size)
  {
    KeptAfter(active, u);
    Full(Occupancy(size, StillParked(active, u)))
  }

  /** The recursive case of the wait loop: where the later entry's instant comes from. */
  lemma AdmitStepTime(t: int, active: seq<ActiveCar>, kept: seq<ActiveCar>, t2: int, time: int)
    requires kept == StillParked(active, t) && kept != [] && AllFinite(kept)
    requires t2 == Max(t, EarliestDeparture(kept)) && t2 <= time
    requires time == t2 || exists c {:trigger c in kept} :: c in kept && c.endTime == time
    ensures time == t || exists c {:trigger c in active} :: c in active && c.endTime == time
  {
    KeptAfter(active, t);
    if time != t2 {
      var c :| c in kept && c.endTime == time;
      assert c in active;
    } else if t2 != t {
      var c :| c in kept && c.endTime == t2;
      assert c in active;
    }
  }

  /** The recursive case of the wait loop: the two batches of releases form one. */
  lemma AdmitStepGone(t: int, active: seq<ActiveCar>, kept: seq<ActiveCar>, gone: seq<ActiveCar>,
                      time: int, gone2: seq<ActiveCar>)
    requires kept == StillParked(active, t)
    requires forall c {:trigger c in gone} :: c in gone ==> c in active && c.endTime <= t
    requires SortedByDeparture(gone) && SortedByDeparture(gone2)
    requires forall c {:trigger c in gone2} :: c in gone2 ==> c in kept && c.endTime <= time
    requires t <= time
    ensures forall c {:trigger c in gone + gone2} :: c in gone + gone2 ==> c in active && c.endTime <= time
    ensures SortedByDeparture(gone + gone2)
  {
    KeptAfter(active, t);
    SortedJoin(gone, gone2, t);
  }

  /** The recursive case of the wait loop: the lot was full throughout the wait. */
  lemma AdmitStepFull(size: nat, t: int, active: seq<ActiveCar>, kept: seq<ActiveCar>, t2: int, time: int)
    requires SpotsWithin(active, size)
    requires kept == StillParked(active, t) && SpotsWithin(kept, size)
    requires Full(Occupancy(size, kept))
    requires t2 == Max(t, EarliestDeparture(kept)) && t2 <= time
    requires forall u :: t2 <= u < time ==> AllFull(size, kept, u)
    ensures forall u :: t <= u < time ==> AllFull(size, active, u)
  {
    forall u | t <= u < time ensures AllFull(size, active, u) {
      StillParkedTwice(active, t, u);
      if u < t2 {
        StillParkedAll(kept, u);
      } else {
        assert AllFull(size, kept, u);
      }
    }
  }

  /** The simulation state between vehicles: the clock, the parked cars, the result so far. */
  datatype Sim = Sim(clock: int, active: seq<ActiveCar>, res: ScheduleResult)

  /** What the outer loop needs before handling position i: a real lot, ids 1..K, a clock
      and end times within the horizon, result arrays of K + 1 entries. */
  predicate Ready(M: int, N: int, cars: seq<Vehicle>, i: nat, st: Sim) {
    && ValidLot(M, N) && IdsInOrder(cars) && i <= |cars| && HorizonOk(cars)
    && Sized(st.res.tables, |cars|)
    && SpotsWithin(st.active, M * N)
    && (forall c {:trigger c in st.active} :: c in st.active ==> c.endTime <= Horizon(cars, i))
    && 0 <= st.clock <= Horizon(cars, i)
  }

  lemma ReadyFinite(M: int, N: int, cars: seq<Vehicle>, i: nat, st: Sim)
    requires Ready(M, N, cars, i, st)
    ensures AllFinite(st.active)
  {
    HorizonMonotone(cars, i, |cars|);
  }

  /** One iteration of the outer loop of runGreedy (parking.cpp:95-130) for the vehicle at
      position i: it enters at max(arrive, clock) or after waiting, takes the spot the wait
      loop found, and the clock moves to its entry instant. */
  function Park(M: int, N: int, cars: seq<Vehicle>, i: nat, st: Sim): (r: Sim)
    requires Ready(M, N, cars, i, st) && i < |cars|
    ensures Ready(M, N, cars, i + 1, r)
    ensures st.clock <= r.clock
  {
    ReadyFinite(M, N, cars, i, st);
    var t := Max(cars[i].arrive, st.clock);
    var e := Admit(M, N, t, st.active);
    ParkReady(M, N, cars, i, st, t, e);
    Enter(N, cars, i, st, e)
  }

  /** The bookkeeping once the spot is known (parking.cpp:112-122). */
  function Enter(N: int, cars: seq<Vehicle>, i: nat, st: Sim, e: Entry): Sim
    requires N >= 1 && i < |cars| && IdsInOrder(cars) && Sized(st.res.tables, |cars|)
  {
    var car := cars[i];
    var endT := e.time + car.duration;
    var tab := Assign(st.res.tables, car.id, e.spot, e.time, endT);
    Sim(e.time, e.kept + [ActiveCar(car.id, endT, e.spot)],
        ScheduleResult(tab, st.res.departureOrder + Ids(e.gone), st.res.totalDistance + Dist(N, e.spot)))
  }

  lemma ParkReady(M: int, N: int, cars: seq<Vehicle>, i: nat, st: Sim, t: int, e: Entry)
    requires Ready(M, N, cars, i, st) && i < |cars|
    requires t == Max(cars[i].arrive, st.clock)
    requires EntryOk(M, N, t, st.active, e)
    ensures Ready(M, N, cars, i + 1, Enter(N, cars, i, st, e))
    ensures st.clock <= Enter(N, cars, i, st, e).clock
  {
    assert Horizon(cars, i + 1) == Horizon(cars, i) + Max(cars[i].duration, 0);
    if e.time != t {
      var c :| c in st.active && c.endTime == e.time;
    }
    KeptAfter(st.active, e.time);
    var r := Enter(N, cars, i, st, e);
    assert forall c {:trigger c in r.active} :: c in r.active ==> c in e.kept || c == r.active[|r.active| - 1];
  }

  /** The outer loop from position i to the end. */
  function GreedyFrom(M: int, N: int, cars: seq<Vehicle>, i: nat, st: Sim): (r: Sim)
    requires Ready(M, N, cars, i, st)
    decreases |cars| - i
  {
    if i == |cars| then st
    else
      var next := Park(M, N, cars, i, st);
      GreedyFrom(M, N, cars, i + 1, next)
  }

  function Start(K: nat): Sim {
    Sim(0, [], ScheduleResult(Blank(K), [], 0))
  }

  /** runGreedy: the outer loop over all vehicles, then a release at INT_MAX that empties
      the lot into the departure order. The result is a greedy schedule in the sense of
      ChosenAt, never puts two vehicles on one spot at once, charges the r + c distance of
      every vehicle's spot, and lists every vehicle exactly once as departed. */
  function RunGreedy(M: int, N: int, cars: seq<Vehicle>): (r: ScheduleResult)
    requires ValidLot(M, N) && IdsInOrder(cars) && HorizonOk(cars)
    ensures GreedySchedule(M, N, cars, r.tables)
    ensures NoOverlap(r.tables, |cars|)
    ensures r.totalDistance == SumDist(N, r.tables, |cars|)
    ensures multiset(r.departureOrder) == multiset(OneTo(|cars|))
  {
    var st := GreedyFrom(M, N, cars, 0, Start(|cars|));
    InvStart(M, N, cars);
    GreedyFromInv(M, N, cars, 0, Start(|cars|));
    ReadyFinite(M, N, cars, |cars|, st);
    var (kept, gone) := ReleaseByTime(st.active, IntMax);
    FinalFlush(st.active);
    PlacedNoOverlap(M, N, cars, st.res.tables, |cars|);
    ScheduleResult(st.res.tables, st.res.departureOrder + Ids(gone), st.res.totalDistance)
  }

  /** The release at INT_MAX lets every car go. */
  lemma FinalFlush(active: seq<ActiveCar>)
    requires AllFinite(active)
    ensures ReleaseByTime(active, IntMax).0 == []
    ensures multiset(Ids(ReleaseByTime(active, IntMax).1)) == multiset(Ids(active))
  {
    var (kept, gone) := ReleaseByTime(active, IntMax);
    ReleasePermutes(active, IntMax);
    StillParkedNone(active, IntMax);
    assert kept + gone == gone;
    MapPermutation((c: ActiveCar) => c.id, gone, active);
  }

  /** The loop invariant of runGreedy after the first i vehicles. */
  ghost predicate Inv(M: int, N: int, cars: seq<Vehicle>, i: nat, st: Sim) {
    Tracked(M, N, cars, i, st) && Departed(i, st)
  }

  /** Every id 1..i has either departed or is still parked, exactly once. */
  predicate Departed(i: nat, st: Sim) {
    multiset(st.res.departureOrder) + multiset(Ids(st.active)) == multiset(OneTo(i))
  }

  /** The invariant about the tables, the clock and the parked cars. */
  ghost predicate Tracked(M: int, N: int, cars: seq<Vehicle>, i: nat, st: Sim) {
    && Ready(M, N, cars, i, st)
    && Placed(M, N, cars, st.res.tables, i)
    && (forall j :: 0 <= j < i ==> ChosenAt(M, N, cars, st.res.tables, j))
    && st.clock == PrevClock(st.res.tables, i)
    && Matches(st.res.tables, i, st.active)
    && Covers(st.res.tables, i, st.clock, st.active)
    && DistinctSpots(st.active)
    && st.res.totalDistance == SumDist(N, st.res.tables, i)
  }

  lemma InvStart(M: int, N: int, cars: seq<Vehicle>)
    requires ValidLot(M, N) && IdsInOrder(cars) && HorizonOk(cars)
    ensures Inv(M, N, cars, 0, Start(|cars|))
  {
  }

  lemma InvOccupancy(M: int, N: int, cars: seq<Vehicle>, i: nat, st: Sim, u: int)
    requires Tracked(M, N, cars, i, st) && st.clock <= u
    ensures SpotsWithin(StillParked(st.active, u), M * N)
    ensures Occupancy(M * N, StillParked(st.active, u)) == OccupancyAt(M * N, st.res.tables, i, u)
  {
    ActiveIsOccupancy(M, N, cars, st.res.tables, i, st.clock, st.active, u);
  }

  /** The common hypothesis of the step lemmas: the invariant before position i, and the
      wait loop's entry for it. */
  ghost predicate StepHyp(M: int, N: int, cars: seq<Vehicle>, i: nat, st: Sim, e: Entry) {
    && Tracked(M, N, cars, i, st) && i < |cars|
    && EntryOk(M, N, Max(cars[i].arrive, st.clock), st.active, e)
  }

  /** The spot the vehicle takes is free of vehicles 1..i at its entry instant. */
  lemma StepFree(M: int, N: int, cars: seq<Vehicle>, i: nat, st: Sim, e: Entry)
    requires StepHyp(M, N, cars, i, st, e)
    ensures !OccupancyAt(M * N, st.res.tables, i, e.time)[e.spot]
    ensures IsNearestFree(N, OccupancyAt(M * N, st.res.tables, i, e.time), e.spot)
  {
    InvOccupancy(M, N, cars, i, st, e.time);
  }

  lemma StepAgree(M: int, N: int, cars: seq<Vehicle>, i: nat, st: Sim, e: Entry)
    requires StepHyp(M, N, cars, i, st, e)
    ensures Agree(st.res.tables, Enter(N, cars, i, st, e).res.tables, i)
  {
  }

  lemma StepPlaced(M: int, N: int, cars: seq<Vehicle>, i: nat, st: Sim, e: Entry)
    requires Ready(M, N, cars, i, st) && i < |cars|
    requires Placed(M, N, cars, st.res.tables, i)
    requires 0 <= e.time && cars[i].arrive <= e.time && PrevClock(st.res.tables, i) <= e.time
    requires 0 <= e.spot < M * N && !OccupancyAt(M * N, st.res.tables, i, e.time)[e.spot]
    ensures Placed(M, N, cars, Enter(N, cars, i, st, e).res.tables, i + 1)
  {
    PlacedFreeExtend(M, N, cars, st.res.tables, i, e.spot, e.time);
  }

  lemma StepChosen(M: int, N: int, cars: seq<Vehicle>, i: nat, st: Sim, e: Entry)
    requires StepHyp(M, N, cars, i, st, e)
    ensures forall j :: 0 <= j < i + 1 ==> ChosenAt(M, N, cars, Enter(N, cars, i, st, e).res.tables, j)
  {
    var tab := st.res.tables;
    var tab' := Enter(N, cars, i, st, e).res.tables;
    StepAgree(M, N, cars, i, st, e);
    forall j | 0 <= j < i ensures ChosenAt(M, N, cars, tab', j) {
      assert Agree(tab, tab', j + 1);
      ChosenAtFrame(M, N, cars, tab, tab', j);
    }
    StepFree(M, N, cars, i, st, e);
    var t := Max(cars[i].arrive, st.clock);
    forall u | t <= u < e.time ensures Full(OccupancyAt(M * N, tab', i, u)) {
      assert AllFull(M * N, st.active, u);
      InvOccupancy(M, N, cars, i, st, u);
      OccupancyAtFrame(M * N, tab, tab', i, u);
    }
    OccupancyAtFrame(M * N, tab, tab', i, e.time);
    assert ChosenAt(M, N, cars, tab', i);
  }

  lemma StepActive(M: int, N: int, cars: seq<Vehicle>, i: nat, st: Sim, e: Entry)
    requires Ready(M, N, cars, i, st)
    requires i < |cars|
    requires Matches(st.res.tables, i, st.active)
    requires Covers(st.res.tables, i, st.clock, st.active)
    requires DistinctSpots(st.active)
    requires st.clock <= e.time
    requires e.kept == StillParked(st.active, e.time)
    requires SpotsWithin(e.kept, M * N)
    requires IsNearestFree(N, Occupancy(M * N, e.kept), e.spot)
    ensures var r := Enter(N, cars, i, st, e);
      && r.clock == PrevClock(r.res.tables, i + 1)
      && Matches(r.res.tables, i + 1, r.active)
      && Covers(r.res.tables, i + 1, r.clock, r.active)
      && DistinctSpots(r.active)
  {
    var tab := st.res.tables;
    var end := e.time + cars[i].duration;
    assert cars[i].id == i + 1;
    KeptTracked(tab, i, st.clock, st.active, e.time);
    SnocTracked(tab, i, e.time, e.kept, e.spot, end);
    assert Enter(N, cars, i, st, e).active == e.kept + [ActiveCar(i + 1, end, e.spot)];
    assert Enter(N, cars, i, st, e).res.tables == Assign(tab, i + 1, e.spot, e.time, end);
  }

  lemma StepDepart(M: int, N: int, cars: seq<Vehicle>, i: nat, st: Sim, e: Entry)
    requires StepHyp(M, N, cars, i, st, e)
    requires Departed(i, st)
    requires multiset(e.kept) + multiset(e.gone) == multiset(st.active)
    ensures Departed(i + 1, Enter(N, cars, i, st, e))
  {
    var r := Enter(N, cars, i, st, e);
    var f := (c: ActiveCar) => c.id;
    var car := ActiveCar(i + 1, e.time + cars[i].duration, e.spot);
    MapPermutation(f, e.kept + e.gone, st.active);
    MapAppend(f, e.kept, e.gone);
    MapAppend(f, e.kept, [car]);
    assert Ids(e.kept + e.gone) == Ids(e.kept) + Ids(e.gone);
    assert Ids(r.active) == Ids(e.kept) + [i + 1];
    assert OneTo(i + 1) == OneTo(i) + [i + 1];
  }

  lemma StepTotal(M: int, N: int, cars: seq<Vehicle>, i: nat, st: Sim, e: Entry)
    requires Ready(M, N, cars, i, st) && i < |cars|
    requires st.res.totalDistance == SumDist(N, st.res.tables, i)
    ensures var r := Enter(N, cars, i, st, e);
      r.res.totalDistance == SumDist(N, r.res.tables, i + 1)
  {
    var r := Enter(N, cars, i, st, e);
    SumDistFrame(N, st.res.tables, r.res.tables, i);
  }

  /** One vehicle keeps the invariant. */
  lemma ParkInv(M: int, N: int, cars: seq<Vehicle>, i: nat, st: Sim)
    requires Inv(M, N, cars, i, st) && i < |cars|
    ensures Inv(M, N, cars, i + 1, Park(M, N, cars, i, st))
  {
    ReadyFinite(M, N, cars, i, st);
    var t := Max(cars[i].arrive, st.clock);
    var e := Admit(M, N, t, st.active);
    assert Park(M, N, cars, i, st) == Enter(N, cars, i, st, e);
    ParkReady(M, N, cars, i, st, t, e);
    StepFree(M, N, cars, i, st, e);
    StepPlaced(M, N, cars, i, st, e);
    StepChosen(M, N, cars, i, st, e);
    StepActive(M, N, cars, i, st, e);
    AdmitPermutes(M, N, t, st.active);
    StepDepart(M, N, cars, i, st, e);
    StepTotal(M, N, cars, i, st, e);
  }

  lemma {:induction false} GreedyFromInv(M: int, N: int, cars: seq<Vehicle>, i: nat, st: Sim)
    requires Inv(M, N, cars, i, st)
    ensures Inv(M, N, cars, |cars|, GreedyFrom(M, N, cars, i, st))
    decreases |cars| - i
  {
    if i < |cars| {
      var next := Park(M, N, cars, i, st);
      ParkInv(M, N, cars, i, st);
      GreedyFromInv(M, N, cars, i + 1, next);
      assert GreedyFrom(M, N, cars, i, st) == GreedyFrom(M, N, cars, i + 1, next);
    }
  }
}
