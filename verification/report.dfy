/** What main.cpp reports for each strategy (main.cpp:304-378): the vehicles numbered from the
    input, the occupancy grid at the snapshot instant, the departure order, and the gate that
    runs the search only for small inputs. */
module Report {
  import opened Backtrack
  import opened Greedy
  import opened Lot
  import opened Schedule
  import opened Wrappers

  /** The search is exponential, so main runs it only up to this many vehicles. */
  const SearchLimit: nat := 12

  /** main.cpp:348-351: the i-th (arrive, duration) pair read becomes vehicle i, counting from 1. */
  function MakeVehicles(input: seq<(int, int)>): (cars: seq<Vehicle>)
    ensures |cars| == |input| && IdsInOrder(cars)
    ensures forall i :: 0 <= i < |cars| ==> cars[i].arrive == input[i].0 && cars[i].duration == input[i].1
  {
    seq(|input|, i requires 0 <= i < |input| => Vehicle(i + 1, input[i].0, input[i].1))
  }

  /** The three arrays have entries for vehicles 0..k. */
  predicate Covering(tab: Tables, k: nat) {
    k < |tab.spotOf| && k < |tab.parkTimeOf| && k < |tab.endTimeOf|
  }

  /** Every recorded spot of vehicles 1..k is a cell of a grid with `size` cells. */
  predicate SpotsIn(tab: Tables, k: nat, size: nat)
    requires Covering(tab, k)
  {
    forall v :: 1 <= v <= k ==> tab.spotOf[v] == -1 || 0 <= tab.spotOf[v] < size
  }

  /** printSnapshot draws vehicle v at instant u: none of its entries is the -1 sentinel and
      u lies in [parkTime, endTime). */
  predicate Shown(tab: Tables, v: int, u: int)
    requires 0 <= v && Covering(tab, v)
  {
    && tab.spotOf[v] != -1 && tab.parkTimeOf[v] != -1 && tab.endTimeOf[v] != -1
    && tab.parkTimeOf[v] <= u < tab.endTimeOf[v]
  }

  /** The grid once the loop of printSnapshot (main.cpp:305-313) has visited vehicles 1..k: a
      cell holds 0 when no visited vehicle is drawn on it, and otherwise the largest id drawn
      there, since a later vehicle overwrites an earlier one. */
  function Paint(size: nat, tab: Tables, k: nat, u: int): (grid: seq<int>)
    requires Covering(tab, k) && SpotsIn(tab, k, size)
    ensures |grid| == size
    ensures forall s :: 0 <= s < size ==> 0 <= grid[s] <= k
    ensures forall s :: 0 <= s < size && grid[s] != 0 ==> Shown(tab, grid[s], u) && tab.spotOf[grid[s]] == s
    ensures forall s, v :: 0 <= s < size && 1 <= v <= k && Shown(tab, v, u) && tab.spotOf[v] == s ==> v <= grid[s]
  {
    if k == 0 then seq(size, _ => 0)
    else
      var g := Paint(size, tab, k - 1, u);
      if Shown(tab, k, u) then g[tab.spotOf[k] := k] else g
  }

  /** When no two drawn vehicles share a spot, a cell shows exactly the vehicle drawn on it. */
  lemma PaintExact(size: nat, tab: Tables, k: nat, u: int)
    requires Covering(tab, k) && SpotsIn(tab, k, size)
    requires forall v, w :: (1 <= v <= k && 1 <= w <= k && v != w && Shown(tab, v, u) && Shown(tab, w, u)
      ==> tab.spotOf[v] != tab.spotOf[w])
    ensures var g := Paint(size, tab, k, u);
      forall s, v :: 0 <= s < size && 1 <= v <= k ==> (g[s] == v <==> Shown(tab, v, u) && tab.spotOf[v] == s)
  {
    var g := Paint(size, tab, k, u);
    forall s, v | 0 <= s < size && 1 <= v <= k && Shown(tab, v, u) && tab.spotOf[v] == s
      ensures g[s] == v
    {
      var w := g[s];
      assert 1 <= w <= k && Shown(tab, w, u) && tab.spotOf[w] == s;
    }
  }

  /** The spot index of row r, column c. */
  function Cell(N: int, r: int, c: int): int {
    r * N + c
  }

  /** The cell grid printSnapshot prints: M rows of N cells, cell (r, c) being spot r*N + c. */
  function Snapshot(M: int, N: int, tab: Tables, u: int): (rows: seq<seq<int>>)
    requires ValidLot(M, N) && |tab.spotOf| >= 1
    requires Covering(tab, |tab.spotOf| - 1) && SpotsIn(tab, |tab.spotOf| - 1, M * N)
    ensures |rows| == M
    ensures forall r :: 0 <= r < M ==> |rows[r]| == N
    ensures forall r, c :: 0 <= r < M && 0 <= c < N ==>
      0 <= Cell(N, r, c) < M * N && rows[r][c] == Paint(M * N, tab, |tab.spotOf| - 1, u)[Cell(N, r, c)]
  {
    var grid := Paint(M * N, tab, |tab.spotOf| - 1, u);
    CellIndices(M, N);
    seq(M, r requires 0 <= r < M => seq(N, c requires 0 <= c < N => grid[Cell(N, r, c)]))
  }

  /** Row r, column c of an M x N lot is a spot index below M*N. */
  lemma CellIndices(M: int, N: int)
    requires ValidLot(M, N)
    ensures forall r, c :: 0 <= r < M && 0 <= c < N ==> 0 <= Cell(N, r, c) < M * N
  {
    forall r, c | 0 <= r < M && 0 <= c < N
      ensures 0 <= Cell(N, r, c) < M * N
    {
      MulLess(N, r, M);
    }
  }

  /** r*N + N <= M*N whenever r < M. */
  lemma {:induction false} MulLess(N: int, r: int, M: int)
    requires N >= 1 && 0 <= r < M
    ensures 0 <= r * N && r * N + N <= M * N
    decreases M - r
  {
    if r + 1 < M {
      MulLess(N, r + 1, M);
      assert (r + 1) * N == r * N + N;
    } else {
      assert M * N == r * N + N;
    }
  }

  /** For a schedule built by the timing rules, printSnapshot draws a vehicle exactly when it
      is on the lot: an end time of -1 can only come from a negative stay, which is never
      current anyway. */
  lemma PlacedShown(M: int, N: int, cars: seq<Vehicle>, tab: Tables, u: int)
    requires ValidLot(M, N) && Placed(M, N, cars, tab, |cars|)
    ensures Covering(tab, |cars|) && SpotsIn(tab, |cars|, M * N)
    ensures forall v :: 1 <= v <= |cars| ==> (Shown(tab, v, u) <==> PresentAt(tab, v, u))
  {
    forall v | 1 <= v <= |cars|
      ensures 0 <= tab.spotOf[v] < M * N && 0 <= tab.parkTimeOf[v]
    {
      assert ParkedOk(M, N, cars, tab, v);
    }
  }

  /** The snapshot of a feasible schedule: cell (r, c) shows vehicle v exactly when v is parked
      on spot r*N + c at instant u, and 0 exactly when no vehicle is. */
  lemma PlacedSnapshot(M: int, N: int, cars: seq<Vehicle>, tab: Tables, u: int)
    requires ValidLot(M, N) && Placed(M, N, cars, tab, |cars|)
    ensures Covering(tab, |tab.spotOf| - 1) && SpotsIn(tab, |tab.spotOf| - 1, M * N)
    ensures var rows := Snapshot(M, N, tab, u);
      forall r, c, v :: 0 <= r < M && 0 <= c < N && 1 <= v <= |cars| ==>
        (rows[r][c] == v <==> tab.spotOf[v] == Cell(N, r, c) && PresentAt(tab, v, u))
    ensures var rows := Snapshot(M, N, tab, u);
      forall r, c :: 0 <= r < M && 0 <= c < N ==>
        (rows[r][c] == 0 <==> forall v :: 1 <= v <= |cars| ==> !(tab.spotOf[v] == Cell(N, r, c) && PresentAt(tab, v, u)))
  {
    PlacedShown(M, N, cars, tab, u);
    PlacedNoOverlap(M, N, cars, tab, |cars|);
    PaintExact(M * N, tab, |cars|, u);
  }

  /** Arrays never written, as the search reports when no schedule beat INT_MAX, give an
      all-zero snapshot. */
  lemma BlankSnapshot(M: int, N: int, K: nat, u: int)
    requires ValidLot(M, N)
    ensures Covering(Blank(K), K) && SpotsIn(Blank(K), K, M * N)
    ensures var rows := Snapshot(M, N, Blank(K), u);
      forall r, c :: 0 <= r < M && 0 <= c < N ==> rows[r][c] == 0
  {
    var tab := Blank(K);
    assert forall v :: 1 <= v <= K ==> Unset(tab, v);
    assert forall v :: 1 <= v <= K ==> !Shown(tab, v, u);
  }

  /** One strategy's report: total distance, snapshot and departure order. */
  datatype Summary = Summary(total: int, rows: seq<seq<int>>, departures: seq<int>)

  /** Both reports of main: greedy always, the search only when K <= 12. */
  datatype Outcome = Outcome(greedy: Summary, search: Option<Summary>)

  /** A report's snapshot is M x N and every cell holds 0 or a vehicle id 1..K. */
  predicate Shaped(M: int, N: int, K: nat, s: Summary) {
    && |s.rows| == M
    && (forall r :: 0 <= r < M ==> |s.rows[r]| == N)
    && (forall r, c :: 0 <= r < M && 0 <= c < N ==> 0 <= s.rows[r][c] <= K)
  }

  /** s reports result res of K vehicles at instant u: its distance and departure order, and
      an M x N snapshot whose cell shows vehicle v exactly when v occupies that spot at u. */
  predicate Reports(M: int, N: int, K: nat, res: ScheduleResult, u: int, s: Summary)
    requires Shaped(M, N, K, s) && Sized(res.tables, K)
  {
    && s.total == res.totalDistance && s.departures == res.departureOrder
    && forall r, c, v :: 0 <= r < M && 0 <= c < N && 1 <= v <= K ==>
      (s.rows[r][c] == v <==> res.tables.spotOf[v] == Cell(N, r, c) && PresentAt(res.tables, v, u))
  }

  /** The report of a feasible or never-written result. */
  function Summarize(M: int, N: int, cars: seq<Vehicle>, res: ScheduleResult, u: int): (s: Summary)
    requires ValidLot(M, N)
    requires Placed(M, N, cars, res.tables, |cars|) || res.tables == Blank(|cars|)
    ensures Shaped(M, N, |cars|, s)
    ensures Sized(res.tables, |cars|)
    ensures Reports(M, N, |cars|, res, u, s)
  {
    if Placed(M, N, cars, res.tables, |cars|) then
      PlacedSnapshot(M, N, cars, res.tables, u);
      Summary(res.totalDistance, Snapshot(M, N, res.tables, u), res.departureOrder)
    else
      BlankSnapshot(M, N, |cars|, u);
      assert forall v :: 1 <= v <= |cars| ==> !PresentAt(res.tables, v, u);
      Summary(res.totalDistance, Snapshot(M, N, res.tables, u), res.departureOrder)
  }

  /** main (main.cpp:331-378) on lot M x N, the pairs read and snapshot instant u. The search
      report is present exactly when there are at most twelve vehicles; each report carries its
      strategy's total and departure order, and its M x N snapshot shows a vehicle in a cell
      exactly when that vehicle occupies the spot at u. */
  function RunReport(M: int, N: int, input: seq<(int, int)>, u: int): (o: Outcome)
    requires ValidLot(M, N) && HorizonOk(MakeVehicles(input))
    ensures o.search.Some? <==> |input| <= SearchLimit
    ensures Shaped(M, N, |input|, o.greedy)
    ensures o.search.Some? ==> Shaped(M, N, |input|, o.search.value)
    ensures Reports(M, N, |input|, RunGreedy(M, N, MakeVehicles(input)), u, o.greedy)
    ensures o.search.Some? ==> Reports(M, N, |input|, RunBacktracking(M, N, MakeVehicles(input)), u, o.search.value)
  {
    var cars := MakeVehicles(input);
    var g := RunGreedy(M, N, cars);
    var gs := Summarize(M, N, cars, g, u);
    if |cars| <= SearchLimit then
      var b := RunBacktracking(M, N, cars);
      Outcome(gs, Some(Summarize(M, N, cars, b, u)))
    else
      Outcome(gs, None)
  }
}
