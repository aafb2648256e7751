/** The departure order runGreedy builds (parking.cpp:99, 127, 133): the ids pushed by the
    successive releases come out ascending by (endTime, id), provided no stay is negative. */
module GreedyOrder {
  import opened Lot
  import opened Release
  import opened Schedule
  import opened Departures
  import opened Greedy

  /** The departed vehicle with id x and end time end leaves before parked car c. */
  predicate LeavesBefore(end: int, x: int, c: ActiveCar) {
    end < c.endTime || (end == c.endTime && x < c.id)
  }

  /** Every departed id is among vehicles 1..i, listed by departure, left by the clock and
      before every car still parked. */
  predicate DepartedInOrder(i: nat, st: Sim)
    requires i < |st.res.tables.endTimeOf|
  {
    var tab, order := st.res.tables, st.res.departureOrder;
    && ByDeparture(tab, order)
    && (forall k :: 0 <= k < |order| ==> 1 <= order[k] <= i && tab.endTimeOf[order[k]] <= st.clock)
    && (forall k, c {:trigger order[k], c in st.active} :: 0 <= k < |order| && c in st.active ==>
          LeavesBefore(tab.endTimeOf[order[k]], order[k], c))
  }

  predicate NoNegativeStay(cars: seq<Vehicle>) {
    forall i :: 0 <= i < |cars| ==> cars[i].duration >= 0
  }

  /** Appending a release's batch, sorted and made of parked cars that the arrays describe,
      keeps the order sorted when everything listed before leaves before the parked cars. */
  lemma AppendBatch(tab: Tables, order: seq<int>, active: seq<ActiveCar>, gone: seq<ActiveCar>)
    requires ByDeparture(tab, order)
    requires forall c {:trigger c in gone} :: c in gone ==>
      c in active && 0 <= c.id < |tab.endTimeOf| && c.endTime == tab.endTimeOf[c.id]
    requires SortedByDeparture(gone)
    requires forall k, c {:trigger order[k], c in active} :: 0 <= k < |order| && c in active ==>
      LeavesBefore(tab.endTimeOf[order[k]], order[k], c)
    ensures ByDeparture(tab, order + Ids(gone))
  {
    var o := order + Ids(gone);
    forall k | |order| <= k < |o| ensures 0 <= o[k] < |tab.endTimeOf| {
      assert gone[k - |order|] in gone;
    }
    forall a, b | 0 <= a < b < |o|
      ensures || tab.endTimeOf[o[a]] < tab.endTimeOf[o[b]]
              || (tab.endTimeOf[o[a]] == tab.endTimeOf[o[b]] && o[a] <= o[b])
    {
      if b >= |order| {
        var g := gone[b - |order|];
        assert g in gone && o[b] == g.id;
        if a >= |order| {
          assert Precedes(gone[a - |order|], g);
          assert gone[a - |order|] in gone;
        } else {
          assert LeavesBefore(tab.endTimeOf[order[a]], order[a], g);
        }
      }
    }
  }

  /** Parking vehicle i + 1 keeps the departed ids in departure order. */
  lemma ParkInOrder(M: int, N: int, cars: seq<Vehicle>, i: nat, st: Sim)
    requires Inv(M, N, cars, i, st) && i < |cars| && cars[i].duration >= 0
    requires DepartedInOrder(i, st)
    ensures DepartedInOrder(i + 1, Park(M, N, cars, i, st))
  {
    ReadyFinite(M, N, cars, i, st);
    var t := Max(cars[i].arrive, st.clock);
    var e := Admit(M, N, t, st.active);
    assert Park(M, N, cars, i, st) == Enter(N, cars, i, st, e);
    assert cars[i].id == i + 1;
    KeptAfter(st.active, e.time);
    EnterInOrder(i, st, e, cars[i].duration, Park(M, N, cars, i, st));
  }

  /** The bookkeeping of one entry at e.time, for a vehicle with id i + 1 and a stay d >= 0,
      after the releases in e.gone. */
  lemma EnterInOrder(i: nat, st: Sim, e: Entry, d: int, r: Sim)
    requires i + 1 < |st.res.tables.spotOf| && i + 1 < |st.res.tables.parkTimeOf|
    requires i + 1 < |st.res.tables.endTimeOf|
    requires DepartedInOrder(i, st) && Matches(st.res.tables, i, st.active) && d >= 0
    requires st.clock <= e.time
    requires forall c {:trigger c in e.gone} :: c in e.gone ==> c in st.active && c.endTime <= e.time
    requires SortedByDeparture(e.gone)
    requires forall c {:trigger c in e.kept} :: c in e.kept ==> c in st.active && c.endTime > e.time
    requires r.clock == e.time && r.active == e.kept + [ActiveCar(i + 1, e.time + d, e.spot)]
    requires r.res.tables == Assign(st.res.tables, i + 1, e.spot, e.time, e.time + d)
    requires r.res.departureOrder == st.res.departureOrder + Ids(e.gone)
    ensures DepartedInOrder(i + 1, r)
  {
    var tab, tab' := st.res.tables, r.res.tables;
    var order := st.res.departureOrder;
    var car := ActiveCar(i + 1, e.time + d, e.spot);
    var active' := r.active;
    forall k | 0 <= k < |order|
      ensures tab'.endTimeOf[order[k]] == tab.endTimeOf[order[k]]
    {
    }
    AppendBatch(tab', order, st.active, e.gone);
    var o := order + Ids(e.gone);
    forall k | |order| <= k < |o|
      ensures 1 <= o[k] <= i + 1 && tab'.endTimeOf[o[k]] <= e.time
    {
      assert e.gone[k - |order|] in e.gone;
    }
    forall k, c {:trigger o[k], c in active'} | 0 <= k < |o| && c in active'
      ensures LeavesBefore(tab'.endTimeOf[o[k]], o[k], c)
    {
      if k >= |order| {
        var g := e.gone[k - |order|];
        assert g in e.gone && o[k] == g.id;
      }
      if c != car {
        assert c in e.kept;
      }
    }
  }

  /** The outer loop from position i on keeps the departed ids in departure order. */
  lemma {:induction false} GreedyFromInOrder(M: int, N: int, cars: seq<Vehicle>, i: nat, st: Sim)
    requires Inv(M, N, cars, i, st) && DepartedInOrder(i, st) && NoNegativeStay(cars)
    ensures Inv(M, N, cars, |cars|, GreedyFrom(M, N, cars, i, st))
    ensures DepartedInOrder(|cars|, GreedyFrom(M, N, cars, i, st))
    decreases |cars| - i
  {
    if i < |cars| {
      var next := Park(M, N, cars, i, st);
      ParkInv(M, N, cars, i, st);
      ParkInOrder(M, N, cars, i, st);
      GreedyFromInOrder(M, N, cars, i + 1, next);
      assert GreedyFrom(M, N, cars, i, st) == GreedyFrom(M, N, cars, i + 1, next);
    }
  }

  /** runGreedy reports its departures ascending by end time and, on equal end times, by id,
      as the final release at INT_MAX appends the cars still parked in that order. Without
      negative stays only: a car with a negative duration departs at an instant already past. */
  lemma RunGreedyDepartsInOrder(M: int, N: int, cars: seq<Vehicle>)
    requires ValidLot(M, N) && IdsInOrder(cars) && HorizonOk(cars) && NoNegativeStay(cars)
    ensures ByDeparture(RunGreedy(M, N, cars).tables, RunGreedy(M, N, cars).departureOrder)
  {
    var st0 := Start(|cars|);
    InvStart(M, N, cars);
    GreedyFromInOrder(M, N, cars, 0, st0);
    var st := GreedyFrom(M, N, cars, 0, st0);
    ReadyFinite(M, N, cars, |cars|, st);
    var gone := ReleaseByTime(st.active, IntMax).1;
    assert RunGreedy(M, N, cars).tables == st.res.tables;
    assert RunGreedy(M, N, cars).departureOrder == st.res.departureOrder + Ids(gone);
    AppendBatch(st.res.tables, st.res.departureOrder, st.active, gone);
  }
}
