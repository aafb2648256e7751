/** The release engine: evicting every car whose stay has ended by a given instant, in
    (endTime, id) order, and the earliest pending departure. */
module Release {
  import opened Lot
  import opened SeqUtil

  /** Every end time is below the sentinel; a car ending at INT_MAX would make the scan read
      `active[-1]`. */
  predicate AllFinite(active: seq<ActiveCar>) {
    forall c {:trigger c in active} :: c in active ==> c.endTime < IntMax
  }

  /** Departure order: earlier end time first, smaller id on equal end times. */
  predicate Precedes(a: ActiveCar, b: ActiveCar) {
    a.endTime < b.endTime || (a.endTime == b.endTime && a.id <= b.id)
  }

  predicate SortedByDeparture(s: seq<ActiveCar>) {
    forall i, j {:trigger Precedes(s[i], s[j])} :: 0 <= i < j < |s| ==> Precedes(s[i], s[j])
  }

  /** Among the first `bound` cars, k precedes all and every earlier car comes strictly later. */
  predicate EarliestBelow(s: seq<ActiveCar>, k: int, bound: int) {
    && 0 <= k < bound <= |s|
    && (forall j :: 0 <= j < bound ==> Precedes(s[k], s[j]))
    && (forall j :: 0 <= j < k ==> !Precedes(s[j], s[k]))
  }

  /** The selection loop of releaseByTime from index i on, with its running best. */
  function ScanEarliest(active: seq<ActiveCar>, i: nat, bestEnd: int, bestIdx: int): (r: int)
    requires AllFinite(active) && i <= |active|
    requires (bestIdx == -1) == (i == 0)
    requires bestIdx == -1 ==> bestEnd == IntMax
    requires bestIdx != -1 ==> EarliestBelow(active, bestIdx, i) && bestEnd == active[bestIdx].endTime
    ensures (r == -1) == (|active| == 0)
    ensures r != -1 ==> EarliestBelow(active, r, |active|)
    decreases |active| - i
  {
    if i == |active| then bestIdx
    else
    assert active[i] in active;
    if active[i].endTime < bestEnd then
      ScanEarliest(active, i + 1, active[i].endTime, i)
    else if active[i].endTime == bestEnd && active[i].id < active[bestIdx].id then
      ScanEarliest(active, i + 1, bestEnd, i)
    else
      ScanEarliest(active, i + 1, bestEnd, bestIdx)
  }

  /** The index the selection loop settles on: -1 only for an empty active set. */
  function EarliestIndex(active: seq<ActiveCar>): (k: int)
    requires AllFinite(active)
    ensures (k == -1) == (|active| == 0)
    ensures k != -1 ==> EarliestBelow(active, k, |active|)
  {
    ScanEarliest(active, 0, IntMax, -1)
  }

  /** The cars still parked after instant t, in their original relative order. */
  function StillParked(s: seq<ActiveCar>, t: int): (r: seq<ActiveCar>)
    ensures |r| <= |s|
  {
    if s == [] then [] else (if s[0].endTime > t then [s[0]] else []) + StillParked(s[1..], t)
  }

  lemma {:induction false} StillParkedAppend(a: seq<ActiveCar>, b: seq<ActiveCar>, t: int)
    ensures StillParked(a + b, t) == StillParked(a, t) + StillParked(b, t)
    decreases |a|
  {
    if a == [] {
      assert a + b == b;
    } else {
      var ab := a + b;
      assert ab[0] == a[0] && ab[1..] == a[1..] + b;
      StillParkedAppend(a[1..], b, t);
      var head := if a[0].endTime > t then [a[0]] else [];
      assert StillParked(ab, t) == head + StillParked(a[1..] + b, t);
      assert StillParked(a, t) == head + StillParked(a[1..], t);
    }
  }

  lemma {:induction false} StillParkedAll(s: seq<ActiveCar>, t: int)
    requires forall c {:trigger c in s} :: c in s ==> c.endTime > t
    ensures StillParked(s, t) == s
    decreases |s|
  {
    if s != [] {
      assert s[0] in s;
      assert forall c {:trigger c in s[1..]} :: c in s[1..] ==> c in s;
      StillParkedAll(s[1..], t);
    }
  }

  lemma {:induction false} StillParkedNone(s: seq<ActiveCar>, t: int)
    requires forall c {:trigger c in s} :: c in s ==> c.endTime <= t
    ensures StillParked(s, t) == []
    decreases |s|
  {
    if s != [] {
      assert s[0] in s;
      assert forall c {:trigger c in s[1..]} :: c in s[1..] ==> c in s;
      StillParkedNone(s[1..], t);
    }
  }

  lemma {:induction false} StillParkedShrinks(s: seq<ActiveCar>, t: int)
    requires exists c {:trigger c in s} :: c in s && c.endTime <= t
    ensures |StillParked(s, t)| < |s|
    decreases |s|
  {
    if s[0].endTime > t {
      var c :| c in s && c.endTime <= t;
      assert c in s[1..];
      StillParkedShrinks(s[1..], t);
    }
  }

  /** A car is still parked after t exactly when it was active and ends after t. */
  lemma {:induction false} StillParkedMembers(s: seq<ActiveCar>, t: int)
    ensures forall c {:trigger c in StillParked(s, t)} {:trigger c in s} :: c in StillParked(s, t) <==> c in s && c.endTime > t
    decreases |s|
  {
    if s != [] {
      StillParkedMembers(s[1..], t);
      assert forall c {:trigger c in s} {:trigger c in s[1..]} :: c in s <==> c == s[0] || c in s[1..];
    }
  }

  /** Releasing at t and then at a later u leaves what releasing at u alone leaves. */
  lemma {:induction false} StillParkedTwice(s: seq<ActiveCar>, t: int, u: int)
    requires t <= u
    ensures StillParked(StillParked(s, t), u) == StillParked(s, u)
    decreases |s|
  {
    if s != [] {
      var tail := StillParked(s[1..], t);
      StillParkedTwice(s[1..], t, u);
      if s[0].endTime > t {
        var p := [s[0]] + tail;
        assert StillParked(s, t) == p;
        assert p != [] && p[0] == s[0] && p[1..] == tail;
      } else {
        assert StillParked(s, t) == [] + tail == tail;
        assert StillParked(s, u) == [] + StillParked(s[1..], u);
      }
    }
  }

  lemma StillParkedRemove(s: seq<ActiveCar>, k: nat, t: int)
    requires k < |s| && s[k].endTime <= t
    ensures StillParked(RemoveAt(s, k), t) == StillParked(s, t)
  {
    assert s == s[..k] + [s[k]] + s[k + 1..];
    StillParkedAppend(s[..k] + [s[k]], s[k + 1..], t);
    StillParkedAppend(s[..k], [s[k]], t);
    StillParkedAppend(s[..k], s[k + 1..], t);
  }

  function Ids(s: seq<ActiveCar>): (r: seq<int>)
    ensures |r| == |s|
    ensures forall k :: 0 <= k < |s| ==> r[k] == s[k].id
  {
    Map((c: ActiveCar) => c.id, s)
  }

  lemma EarliestPrecedesAll(active: seq<ActiveCar>, k: int)
    requires EarliestBelow(active, k, |active|)
    ensures forall c {:trigger c in active} :: c in active ==> Precedes(active[k], c)
  {
    forall c | c in active ensures Precedes(active[k], c) {
      var j :| 0 <= j < |active| && active[j] == c;
    }
  }

  /** The car released first precedes everything released after it. */
  lemma ReleaseStep(active: seq<ActiveCar>, k: int, gone: seq<ActiveCar>)
    requires EarliestBelow(active, k, |active|)
    requires forall c {:trigger c in gone} :: c in gone ==> c in active
    requires SortedByDeparture(gone)
    ensures SortedByDeparture([active[k]] + gone)
  {
    EarliestPrecedesAll(active, k);
    var g := [active[k]] + gone;
    forall i, j | 0 <= i < j < |g| ensures Precedes(g[i], g[j]) {
      if i == 0 {
        assert g[j] == gone[j - 1];
        assert g[j] in gone;
      } else {
        assert g[i] == gone[i - 1] && g[j] == gone[j - 1];
      }
    }
  }

  /** releaseByTime: repeatedly evict the (endTime, id)-earliest car while it ends by t.
      Returns the cars kept and the cars released, the latter in release order. */
  function ReleaseByTime(active: seq<ActiveCar>, t: int): (r: (seq<ActiveCar>, seq<ActiveCar>))
    requires AllFinite(active)
    ensures r.0 == StillParked(active, t)
    ensures forall c {:trigger c in r.1} :: c in r.1 ==> c in active && c.endTime <= t
    ensures SortedByDeparture(r.1)
    decreases |active|
  {
    var k := EarliestIndex(active);
    if k != -1 && active[k].endTime <= t then
      var rest := RemoveAt(active, k);
      var sub := ReleaseByTime(rest, t);
      StillParkedRemove(active, k, t);
      ReleaseStep(active, k, sub.1);
      (sub.0, [active[k]] + sub.1)
    else
      NoneDue(active, k, t);
      (active, [])
  }

  /** The cars kept and the cars released are, together, the cars that were parked. */
  lemma {:induction false} ReleasePermutes(active: seq<ActiveCar>, t: int)
    requires AllFinite(active)
    ensures multiset(ReleaseByTime(active, t).0) + multiset(ReleaseByTime(active, t).1) == multiset(active)
    decreases |active|
  {
    var k := EarliestIndex(active);
    if k != -1 && active[k].endTime <= t {
      var rest := RemoveAt(active, k);
      ReleasePermutes(rest, t);
      RemoveAtMultiset(active, k);
      var sub := ReleaseByTime(rest, t);
      assert ReleaseByTime(active, t) == (sub.0, [active[k]] + sub.1);
      assert multiset([active[k]] + sub.1) == multiset{active[k]} + multiset(sub.1);
    }
  }

  lemma NoneDue(active: seq<ActiveCar>, k: int, t: int)
    requires (k == -1) == (|active| == 0)
    requires k != -1 ==> EarliestBelow(active, k, |active|) && active[k].endTime > t
    ensures StillParked(active, t) == active
  {
    if k != -1 {
      EarliestPrecedesAll(active, k);
    }
    StillParkedAll(active, t);
  }

  /** The ids pushed onto the departure order by one release. */
  lemma ReleasedIds(active: seq<ActiveCar>, t: int)
    requires AllFinite(active)
    ensures var (kept, gone) := ReleaseByTime(active, t);
      multiset(Ids(kept)) + multiset(Ids(gone)) == multiset(Ids(active))
  {
    var (kept, gone) := ReleaseByTime(active, t);
    ReleasePermutes(active, t);
    MapPermutation((c: ActiveCar) => c.id, kept + gone, active);
    MapAppend((c: ActiveCar) => c.id, kept, gone);
  }

  /** The minimum loop of earliestDepartureTime from index i on. */
  function EarliestFrom(active: seq<ActiveCar>, i: nat, best: int): (r: int)
    requires i <= |active|
    ensures r <= best
    decreases |active| - i
  {
    if i == |active| then best
    else EarliestFrom(active, i + 1, if active[i].endTime < best then active[i].endTime else best)
  }

  /** The loop's result is no later than any end time from index i on, and is either the
      starting value or one of those end times. */
  lemma {:induction false} EarliestFromBounds(active: seq<ActiveCar>, i: nat, best: int)
    requires i <= |active|
    ensures forall j :: i <= j < |active| ==> EarliestFrom(active, i, best) <= active[j].endTime
    ensures var r := EarliestFrom(active, i, best);
      r == best || exists j :: i <= j < |active| && active[j].endTime == r
    decreases |active| - i
  {
    if i < |active| {
      var best' := if active[i].endTime < best then active[i].endTime else best;
      EarliestFromBounds(active, i + 1, best');
      var r := EarliestFrom(active, i, best);
      assert r == EarliestFrom(active, i + 1, best');
      if r != best && r == best' {
        assert active[i].endTime == r;
      }
    }
  }

  /** earliestDepartureTime: the smallest end time among the active cars, INT_MAX if none. */
  function EarliestDeparture(active: seq<ActiveCar>): (r: int)
    ensures r <= IntMax
    ensures active == [] ==> r == IntMax
    ensures forall c {:trigger c in active} :: c in active ==> r <= c.endTime
    ensures active != [] && AllFinite(active) ==> exists c {:trigger c in active} :: c in active && c.endTime == r
  {
    assert forall j :: 0 <= j < |active| ==> active[j] in active;
    EarliestFromBounds(active, 0, IntMax);
    EarliestFrom(active, 0, IntMax)
  }

  /** Advancing to (or past) the earliest departure releases at least one car. */
  lemma ReleaseProgress(active: seq<ActiveCar>, t: int)
    requires active != [] && AllFinite(active)
    requires EarliestDeparture(active) <= t
    ensures |StillParked(active, t)| < |active|
  {
    StillParkedShrinks(active, t);
  }

  lemma DistinctCons(c: ActiveCar, s: seq<ActiveCar>)
    requires DistinctSpots(s) && !OccupiedBy(s, c.spot)
    ensures DistinctSpots([c] + s)
  {
    assert ([c] + s)[1..] == s;
  }

  /** Releasing cars keeps the remaining spots distinct. */
  lemma {:induction false} StillParkedDistinct(s: seq<ActiveCar>, t: int)
    requires DistinctSpots(s)
    ensures DistinctSpots(StillParked(s, t))
    decreases |s|
  {
    if s != [] {
      DistinctTail(s);
      StillParkedDistinct(s[1..], t);
      StillParkedMembers(s[1..], t);
      var rest := StillParked(s[1..], t);
      if s[0].endTime > t {
        assert !OccupiedBy(rest, s[0].spot);
        DistinctCons(s[0], rest);
        assert StillParked(s, t) == [s[0]] + rest;
      } else {
        assert StillParked(s, t) == [] + rest == rest;
      }
    }
  }

  lemma {:induction false} DistinctSnoc(s: seq<ActiveCar>, c: ActiveCar)
    requires DistinctSpots(s) && !OccupiedBy(s, c.spot)
    ensures DistinctSpots(s + [c])
    decreases |s|
  {
    if s != [] {
      var r := s + [c];
      assert r[0] == s[0] && r[1..] == s[1..] + [c];
      assert s[0] in s;
      assert forall x {:trigger x in s[1..]} :: x in s[1..] ==> x in s;
      DistinctSnoc(s[1..], c);
      assert forall x {:trigger x in r[1..]} :: x in r[1..] ==> x in s[1..] || x == c;
    } else {
      assert [] + [c] == [c] && [c][1..] == [];
    }
  }
}
