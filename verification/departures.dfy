/** The departure order runBacktracking reports (main.cpp:285-297): the pairs
    (endTimeOf[vid], vid) of all vehicles, exchange-sorted by end time and then by id, keeping
    only the ids. */
module Departures {
  import opened ExchangeSort
  import opened Lot
  import opened Schedule
  import opened SeqUtil

  /** The comparison of the departure sort: earlier end time first, then smaller id. */
  function ByEndThenId(): (less: ((int, int), (int, int)) -> bool)
    ensures StrictOrder(less)
    ensures forall a, b :: less(a, b) == (a.0 < b.0 || (a.0 == b.0 && a.1 < b.1))
  {
    (a: (int, int), b: (int, int)) => a.0 < b.0 || (a.0 == b.0 && a.1 < b.1)
  }

  /** The `ends` vector before sorting, in input order. */
  function EndPairs(tab: Tables, cars: seq<Vehicle>): (r: seq<(int, int)>)
    requires IdsInOrder(cars) && Sized(tab, |cars|)
    ensures |r| == |cars|
    ensures forall k :: 0 <= k < |r| ==> r[k] == (tab.endTimeOf[k + 1], k + 1)
  {
    seq(|cars|, k requires 0 <= k < |cars| => (tab.endTimeOf[cars[k].id], cars[k].id))
  }

  function Second(p: (int, int)): int {
    p.1
  }

  /** The order lists ids with a recorded end time, ascending by end time and, among equal
      end times, by id. */
  predicate ByDeparture(tab: Tables, order: seq<int>) {
    && (forall k :: 0 <= k < |order| ==> 0 <= order[k] < |tab.endTimeOf|)
    && (forall i, j :: 0 <= i < j < |order| ==>
         || tab.endTimeOf[order[i]] < tab.endTimeOf[order[j]]
         || (tab.endTimeOf[order[i]] == tab.endTimeOf[order[j]] && order[i] <= order[j]))
  }

  /** Every vehicle's id once the pairs are sorted: ascending by end time, ties by id. */
  function DepartureOrder(tab: Tables, cars: seq<Vehicle>): (r: seq<int>)
    requires IdsInOrder(cars) && Sized(tab, |cars|)
    ensures |r| == |cars|
    ensures forall k :: 0 <= k < |r| ==> 1 <= r[k] <= |cars|
    ensures ByDeparture(tab, r)
  {
    var ends := EndPairs(tab, cars);
    var sorted := Sort(ends, ByEndThenId());
    SortedPairsTrack(tab, cars, ends, sorted);
    Map(Second, sorted)
  }

  /** After sorting, every pair still pairs an id 1..K with that vehicle's end time. */
  lemma SortedPairsTrack(tab: Tables, cars: seq<Vehicle>, ends: seq<(int, int)>, sorted: seq<(int, int)>)
    requires IdsInOrder(cars) && Sized(tab, |cars|)
    requires ends == EndPairs(tab, cars) && sorted == Sort(ends, ByEndThenId())
    ensures forall k :: 0 <= k < |sorted| ==>
      1 <= sorted[k].1 <= |cars| && sorted[k].0 == tab.endTimeOf[sorted[k].1]
  {
    SortPermutes(ends, ByEndThenId());
    forall k | 0 <= k < |sorted|
      ensures 1 <= sorted[k].1 <= |cars| && sorted[k].0 == tab.endTimeOf[sorted[k].1]
    {
      assert sorted[k] in multiset(ends);
      var j :| 0 <= j < |ends| && ends[j] == sorted[k];
    }
  }

  /** The departure order lists every id 1..K exactly once. */
  lemma DepartureOrderPermutes(tab: Tables, cars: seq<Vehicle>)
    requires IdsInOrder(cars) && Sized(tab, |cars|)
    ensures multiset(DepartureOrder(tab, cars)) == multiset(OneTo(|cars|))
  {
    var ends := EndPairs(tab, cars);
    var sorted := Sort(ends, ByEndThenId());
    SortPermutes(ends, ByEndThenId());
    MapPermutation(Second, sorted, ends);
    assert Map(Second, ends) == OneTo(|cars|);
  }
}
