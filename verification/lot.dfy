/** The lot: vehicles, active reservations, spot distances, the occupancy bitmap and the
    choice of the nearest free spot. A spot is the index r*N + c of row r and column c of
    an M x N grid whose entrance is at (0, 0). */
module Lot {
  import opened ExchangeSort

  /** `numeric_limits<int>::max()`, the source's "no bound / never" sentinel. */
  const IntMax: int := 0x7fff_ffff
  const IntMin: int := -0x8000_0000

  predicate IsInt32(x: int) {
    IntMin <= x <= IntMax
  }

  /** A vehicle as read from the input: ids are 1, 2, ... in input order. */
  datatype Vehicle = Vehicle(id: int, arrive: int, duration: int)

  /** A vehicle that is parked and not yet released. */
  datatype ActiveCar = ActiveCar(id: int, endTime: int, spot: int)

  /** At least one spot, and the spot count M*N is itself an `int`. */
  predicate ValidLot(M: int, N: int) {
    1 <= M && 1 <= N && M * N <= IntMax
  }

  /** Distance from the entrance of the spot in row r, column c. */
  function SpotDist(r: int, c: int): int {
    r + c
  }

  /** Distance of spot index `spot`, decomposed as the source does (`spot / N`, `spot % N`). */
  function Dist(N: int, spot: int): int
    requires N >= 1
  {
    SpotDist(spot / N, spot % N)
  }

  lemma DistBound(N: int, spot: int)
    requires N >= 1 && spot >= 0
    ensures 0 <= Dist(N, spot) <= spot
  {
    var q, r := spot / N, spot % N;
    assert spot == N * q + r && 0 <= r < N;
    QuotientNonNegative(N, q, r);
    MulGrows(N, q);
  }

  /** N*q grows with q: it is at least q itself. */
  lemma {:induction false} MulGrows(N: int, q: int)
    requires N >= 1 && q >= 0
    ensures N * q >= q
    decreases q
  {
    if q > 0 {
      MulGrows(N, q - 1);
      assert N * q == N * (q - 1) + N;
    }
  }

  /** A negative quotient would make N*q + r negative. */
  lemma {:induction false} QuotientNonNegative(N: int, q: int, r: int)
    requires N >= 1 && 0 <= r < N && N * q + r >= 0
    ensures q >= 0
  {
    if q < 0 {
      MulBelow(N, q);
    }
  }

  lemma {:induction false} MulBelow(N: int, q: int)
    requires N >= 1 && q <= -1
    ensures N * q <= -N
    decreases -q
  {
    if q < -1 {
      MulBelow(N, q + 1);
      assert N * q == N * (q + 1) - N;
    }
  }

  lemma MulAtLeast(N: int, x: int)
    requires N >= 1
    ensures x >= 1 ==> N * x >= N
  {
    if x >= 1 {
      MulGrows(N, x - 1);
      assert N * x == N * (x - 1) + N;
    }
  }

  lemma DivMonotone(N: int, a: int, b: int)
    requires N >= 1 && 0 <= a <= b
    ensures a / N <= b / N
  {
    var qa, qb := a / N, b / N;
    var ra, rb := a % N, b % N;
    assert a == N * qa + ra && b == N * qb + rb;
    assert N * (qa - qb) == (a - ra) - (b - rb);
    MulAtLeast(N, qa - qb);
  }

  /** Row-major order of (row, column) pairs is the order of the spot indices. */
  lemma RowMajorOrder(N: int, a: int, b: int)
    requires N >= 1 && 0 <= a < b
    ensures a / N < b / N || (a / N == b / N && a % N < b % N)
  {
    DivMonotone(N, a, b);
    var qa, qb := a / N, b / N;
    assert a == N * qa + a % N && b == N * qb + b % N;
  }

  /** Some active car occupies spot s. */
  predicate OccupiedBy(active: seq<ActiveCar>, s: int) {
    exists c {:trigger c in active} :: c in active && c.spot == s
  }

  predicate SpotsWithin(active: seq<ActiveCar>, size: int) {
    forall c {:trigger c in active} :: c in active ==> 0 <= c.spot < size
  }

  /** Marks the spot of each active car, in order, on top of `occ`. */
  function Mark(occ: seq<bool>, active: seq<ActiveCar>): (r: seq<bool>)
    requires SpotsWithin(active, |occ|)
    ensures |r| == |occ|
    ensures forall s :: 0 <= s < |occ| ==> (r[s] <==> occ[s] || OccupiedBy(active, s))
    decreases |active|
  {
    if active == [] then occ
    else
      assert active[0] in active;
      assert forall c {:trigger c in active} {:trigger c in active[1..]} :: c in active <==> c == active[0] || c in active[1..];
      Mark(occ[active[0].spot := true], active[1..])
  }

  /** The bitmap is rebuilt from scratch from the active set: cleared, then marked. */
  function Occupancy(size: nat, active: seq<ActiveCar>): (occ: seq<bool>)
    requires SpotsWithin(active, size)
    ensures |occ| == size
    ensures forall s :: 0 <= s < size ==> (occ[s] <==> OccupiedBy(active, s))
  {
    Mark(seq(size, _ => false), active)
  }

  /** `s` is free, no free spot is nearer, and every free spot before it is strictly farther. */
  predicate NearestFreeBelow(N: int, occ: seq<bool>, s: int, bound: int)
    requires N >= 1 && bound <= |occ|
  {
    && 0 <= s < bound && !occ[s]
    && (forall j :: 0 <= j < bound && !occ[j] ==> Dist(N, s) <= Dist(N, j))
    && (forall j :: 0 <= j < s && !occ[j] ==> Dist(N, j) > Dist(N, s))
  }

  predicate IsNearestFree(N: int, occ: seq<bool>, s: int)
    requires N >= 1
  {
    NearestFreeBelow(N, occ, s, |occ|)
  }

  lemma NearestFreeUnique(N: int, occ: seq<bool>, a: int, b: int)
    requires N >= 1
    requires IsNearestFree(N, occ, a) && IsNearestFree(N, occ, b)
    ensures a == b
  {
  }

  /** No two parked cars share a spot. */
  /** No two parked cars share a spot: each car's spot is held by none of the cars after it. */
  predicate DistinctSpots(active: seq<ActiveCar>)
    decreases |active|
  {
    active == [] || (!OccupiedBy(active[1..], active[0].spot) && DistinctSpots(active[1..]))
  }

  function SpotSet(active: seq<ActiveCar>): (r: set<int>)
    ensures forall x :: x in r <==> OccupiedBy(active, x)
    decreases |active|
  {
    if active == [] then {}
    else
      assert active[0] in active;
      assert forall c {:trigger c in active} {:trigger c in active[1..]} :: c in active <==> c == active[0] || c in active[1..];
      {active[0].spot} + SpotSet(active[1..])
  }

  lemma DistinctTail(active: seq<ActiveCar>)
    requires active != [] && DistinctSpots(active)
    ensures DistinctSpots(active[1..]) && active[0].spot !in SpotSet(active[1..])
  {
  }

  /** The recursive definition says exactly that spots at different positions differ. */
  lemma {:induction false} DistinctSpotsPairs(active: seq<ActiveCar>)
    ensures DistinctSpots(active) <==> forall a, b :: 0 <= a < b < |active| ==> active[a].spot != active[b].spot
    decreases |active|
  {
    if active != [] {
      var rest := active[1..];
      DistinctSpotsPairs(rest);
      assert forall k :: 0 <= k < |rest| ==> rest[k] == active[k + 1];
      if forall a, b :: 0 <= a < b < |active| ==> active[a].spot != active[b].spot {
        forall c | c in rest ensures c.spot != active[0].spot {
          var k :| 0 <= k < |rest| && rest[k] == c;
        }
      }
      if DistinctSpots(active) {
        forall a, b | 0 <= a < b < |active| ensures active[a].spot != active[b].spot {
          assert active[b] in rest;
        }
      }
    }
  }

  lemma {:induction false} SpotSetCard(active: seq<ActiveCar>)
    ensures |SpotSet(active)| <= |active|
    ensures DistinctSpots(active) ==> |SpotSet(active)| == |active|
    decreases |active|
  {
    if active != [] {
      SpotSetCard(active[1..]);
      if DistinctSpots(active) {
        DistinctTail(active);
      }
    }
  }

  function Range(n: nat): (r: set<int>)
    ensures forall x :: x in r <==> 0 <= x < n
    ensures |r| == n
  {
    if n == 0 then {} else Range(n - 1) + {n - 1}
  }

  lemma SubsetCard(a: set<int>, b: set<int>)
    requires a <= b
    ensures |a| <= |b|
    ensures |a| == |b| ==> a == b
  {
    assert b == a + (b - a);
    assert a * (b - a) == {};
  }

  /** A lot with more spots than parked cars has a free spot. */
  lemma FewerCarsNotFull(n: nat, active: seq<ActiveCar>)
    requires SpotsWithin(active, n) && |active| < n
    ensures !Full(Occupancy(n, active))
  {
    var occ := Occupancy(n, active);
    SpotSetCard(active);
    var missing := Range(n) - SpotSet(active);
    assert |missing| > 0 by {
      assert Range(n) <= missing + SpotSet(active);
      assert |missing + SpotSet(active)| <= |missing| + |SpotSet(active)|;
      SubsetCard(Range(n), missing + SpotSet(active));
    }
    var x :| x in missing;
    assert !occ[x];
  }

  /** With distinct spots, the lot is full exactly when it holds as many cars as spots. */
  lemma FullIffCount(n: nat, active: seq<ActiveCar>)
    requires SpotsWithin(active, n) && DistinctSpots(active)
    ensures |active| <= n
    ensures Full(Occupancy(n, active)) <==> |active| == n
  {
    var occ := Occupancy(n, active);
    SpotSetCard(active);
    SubsetCard(SpotSet(active), Range(n));
    if |active| == n {
      assert SpotSet(active) == Range(n);
      assert Full(occ);
    }
    if |active| < n {
      FewerCarsNotFull(n, active);
    }
  }

  /** No spot is free. */
  predicate Full(occ: seq<bool>) {
    forall j :: 0 <= j < |occ| ==> occ[j]
  }

  /** The row-major scan of pickGreedySpot from index idx on, with its running best. */
  function PickFrom(M: int, N: int, occ: seq<bool>, idx: nat, best: int, bestD: int): (r: int)
    requires ValidLot(M, N) && |occ| == M * N && idx <= M * N
    requires best == -1 ==> bestD == IntMax && forall j :: 0 <= j < idx ==> occ[j]
    requires best != -1 ==> NearestFreeBelow(N, occ, best, idx) && bestD == Dist(N, best)
    ensures r == -1 <==> Full(occ)
    ensures r != -1 ==> IsNearestFree(N, occ, r)
    decreases M * N - idx
  {
    if idx == M * N then best
    else if occ[idx] then PickFrom(M, N, occ, idx + 1, best, bestD)
    else
      var r, c := idx / N, idx % N;
      var d := SpotDist(r, c);
      DistBound(N, idx);
      if d < bestD then
        PickFrom(M, N, occ, idx + 1, idx, d)
      else if d == bestD && best != -1 then
        var br, bc := best / N, best % N;
        RowMajorOrder(N, best, idx);
        // The tie-break never fires: a later index is never row-major-before an earlier one.
        if r < br || (r == br && c < bc) then assert false; idx
        else PickFrom(M, N, occ, idx + 1, best, bestD)
      else
        PickFrom(M, N, occ, idx + 1, best, bestD)
  }

  /** pickGreedySpot: -1 when every spot is taken, otherwise the first (row-major) free spot
      of minimal distance r + c. */
  function PickGreedySpot(M: int, N: int, occ: seq<bool>): (r: int)
    requires ValidLot(M, N) && |occ| == M * N
    ensures r == -1 <==> Full(occ)
    ensures r != -1 ==> IsNearestFree(N, occ, r)
  {
    PickFrom(M, N, occ, 0, -1, IntMax)
  }

  /** The free spots from idx on, in row-major order. */
  function FreeFrom(occ: seq<bool>, idx: nat): (r: seq<int>)
    requires idx <= |occ|
    ensures forall k :: 0 <= k < |r| ==> idx <= r[k] < |occ| && !occ[r[k]]
    ensures forall s :: idx <= s < |occ| && !occ[s] ==> s in r
    decreases |occ| - idx
  {
    if idx == |occ| then []
    else if occ[idx] then FreeFrom(occ, idx + 1)
    else [idx] + FreeFrom(occ, idx + 1)
  }

  /** The scan lists the free spots in ascending (row-major) order. */
  lemma {:induction false} FreeFromAscending(occ: seq<bool>, idx: nat)
    requires idx <= |occ|
    ensures forall k, m :: 0 <= k < m < |FreeFrom(occ, idx)| ==> FreeFrom(occ, idx)[k] < FreeFrom(occ, idx)[m]
    decreases |occ| - idx
  {
    if idx < |occ| {
      FreeFromAscending(occ, idx + 1);
      var rest := FreeFrom(occ, idx + 1);
      if !occ[idx] {
        var r := [idx] + rest;
        forall k, m | 0 <= k < m < |r| ensures r[k] < r[m] {
          assert r[m] == rest[m - 1];
          if k > 0 {
            assert r[k] == rest[k - 1];
          }
        }
      }
    }
  }

  /** Strictly nearer to the entrance: the comparison the candidate sort uses. */
  function Nearer(N: int): (less: (int, int) -> bool)
    requires N >= 1
    ensures StrictOrder(less) && NegativelyTransitive(less)
    ensures forall a, b :: less(a, b) == (Dist(N, a) < Dist(N, b))
  {
    (a: int, b: int) => Dist(N, a) < Dist(N, b)
  }

  /** The branching order of the search: the free spots, exchange-sorted by distance. */
  function Candidates(M: int, N: int, occ: seq<bool>): (r: seq<int>)
    requires ValidLot(M, N) && |occ| == M * N
    ensures forall k :: 0 <= k < |r| ==> 0 <= r[k] < |occ| && !occ[r[k]]
    ensures forall s :: 0 <= s < |occ| && !occ[s] ==> s in r
    ensures forall i, j :: 0 <= i < j < |r| ==> Dist(N, r[i]) <= Dist(N, r[j])
  {
    var free := FreeFrom(occ, 0);
    var r := Sort(free, Nearer(N));
    SortPermutes(free, Nearer(N));
    forall k | 0 <= k < |r|
      ensures 0 <= r[k] < |occ| && !occ[r[k]]
    {
      assert r[k] in multiset(free);
    }
    forall s | 0 <= s < |occ| && !occ[s]
      ensures s in r
    {
      assert s in multiset(r);
    }
    r
  }

  /** The candidates are the free spots, each exactly once: a reordering of the row-major scan. */
  lemma CandidatesPermute(M: int, N: int, occ: seq<bool>)
    requires ValidLot(M, N) && |occ| == M * N
    ensures multiset(Candidates(M, N, occ)) == multiset(FreeFrom(occ, 0))
  {
    assert Candidates(M, N, occ) == Sort(FreeFrom(occ, 0), Nearer(N));
    SortPermutes(FreeFrom(occ, 0), Nearer(N));
  }

  /** The first minimal free spot in row-major order is the nearest free spot. */
  lemma FirstMinimalFreeIsNearest(N: int, occ: seq<bool>, q: int)
    requires N >= 1
    requires FirstMinimal(FreeFrom(occ, 0), Nearer(N), q)
    ensures IsNearestFree(N, occ, FreeFrom(occ, 0)[q])
  {
    var free := FreeFrom(occ, 0);
    var less := Nearer(N);
    var h := free[q];
    FreeFromAscending(occ, 0);
    forall j | 0 <= j < |occ| && !occ[j]
      ensures Dist(N, h) <= Dist(N, j)
    {
      var k :| 0 <= k < |free| && free[k] == j;
      assert !less(free[k], free[q]);
    }
    forall j | 0 <= j < h && !occ[j]
      ensures Dist(N, j) > Dist(N, h)
    {
      var k :| 0 <= k < |free| && free[k] == j;
      assert k < q;
      assert less(free[q], free[k]);
    }
  }

  /** The first branch the search tries is the spot pickGreedySpot chooses. */
  lemma CandidateHeadIsGreedy(M: int, N: int, occ: seq<bool>)
    requires ValidLot(M, N) && |occ| == M * N
    requires exists s :: 0 <= s < |occ| && !occ[s]
    ensures |Candidates(M, N, occ)| > 0
    ensures Candidates(M, N, occ)[0] == PickGreedySpot(M, N, occ)
  {
    var free := FreeFrom(occ, 0);
    var s :| 0 <= s < |occ| && !occ[s];
    assert s in free;
    var less := Nearer(N);
    var q := SortHead(free, less);
    FirstMinimalFreeIsNearest(N, occ, q);
    assert Candidates(M, N, occ) == Sort(free, less);
    var g := PickGreedySpot(M, N, occ);
    NearestFreeUnique(N, occ, free[q], g);
  }
}
