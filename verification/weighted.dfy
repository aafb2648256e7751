/** solveWeighted (bus.cpp:170-315): the fewest line changes first and then the fewest stops,
    found by a shortest-path search over (station, line) states in which a change of line
    costs BIG and a ride of one stop costs 1. The search loop is Dijkstra.Search; this module
    builds the states and their moves, picks the end state, rebuilds the route and reports
    it. */
module Weighted {
  import opened Wrappers
  import opened SeqUtil
  import opened Segment
  import opened Stations
  import opened StateTable
  import opened Dijkstra

  /** The weight of one change of line (bus.cpp:11). */
  const BIG: int := 100000

  /** The tables solveWeighted reads: lineStations (line 0 unused), stationLines and
      posInLine. */
  datatype Tables = Tables(lines: seq<seq<int>>, stationLines: seq<seq<int>>, posInLine: seq<seq<int>>)

  /** The tables describe the lines as main builds them (main.cpp:55-77): a station lists
      exactly the lines it is on, and posInLine holds a station's last position on a line. */
  ghost predicate TablesOk(tb: Tables) {
    && LinesWithin(tb.lines, |tb.stationLines|)
    && (forall sid, x {:trigger x in tb.stationLines[sid]} {:trigger sid in tb.lines[x]} ::
          0 <= sid < |tb.stationLines| ==>
          (x in tb.stationLines[sid] <==> 1 <= x < |tb.lines| && sid in tb.lines[x]))
    && |tb.posInLine| == |tb.lines|
    && (forall i :: 0 <= i < |tb.lines| ==> |tb.posInLine[i]| == |tb.stationLines|)
    && (forall i, sid :: 1 <= i < |tb.lines| && 0 <= sid < |tb.stationLines| ==>
          tb.posInLine[i][sid] == LastIndex(tb.lines[i], sid))
  }

  /** The tables main builds from the lines are well formed. */
  lemma BuiltTablesOk(S: nat, ls: seq<seq<int>>)
    requires LinesWithin(ls, S)
    ensures TablesOk(Tables(ls, StationLines(S, ls), PosInLine(S, ls)))
  {
  }

  /** Every line a station lists is one of 1..L. */
  lemma TablesLines(tb: Tables)
    requires TablesOk(tb)
    ensures forall sid :: 0 <= sid < |tb.stationLines| ==> LinesUpTo(tb.stationLines[sid], |tb.lines| - 1)
  {
    forall sid, j | 0 <= sid < |tb.stationLines| && 0 <= j < |tb.stationLines[sid]|
      ensures 1 <= tb.stationLines[sid][j] <= |tb.lines| - 1
    {
      assert tb.stationLines[sid][j] in tb.stationLines[sid];
    }
  }

  /** The numbered states of one search: L, stateId and idToKey. */
  datatype Space = Space(L: int, ids: map<int, int>, keys: seq<Key>)

  /** sp is the state table of a search from s (StateTable.Build): the start state (s, 0)
      is state 0; every other state is a station with one of its lines, and every station
      has a state for each of its lines. */
  ghost predicate Built(tb: Tables, sp: Space, s: int) {
    && TablesOk(tb) && 0 <= s < |tb.stationLines| && sp.L == |tb.lines| - 1
    && Numbering(sp.L, sp.ids, sp.keys) && |sp.keys| > 0 && sp.keys[0] == Key(s, 0)
    && (forall i :: 1 <= i < |sp.keys| ==>
          0 <= sp.keys[i].station < |tb.stationLines| && sp.keys[i].line in tb.stationLines[sp.keys[i].station])
    && (forall sid, l {:trigger l in tb.stationLines[sid]} :: 0 <= sid < |tb.stationLines| && l in tb.stationLines[sid] ==>
          PackKey(Key(sid, l), sp.L) in sp.ids)
  }

  /** The id stateId gives the state of station sid on line l, a line through it. */
  function Id(tb: Tables, sp: Space, s: int, sid: int, l: int): (r: int)
    requires Built(tb, sp, s) && 0 <= sid < |tb.stationLines| && l in tb.stationLines[sid]
    ensures 0 <= r < |sp.keys| && sp.keys[r] == Key(sid, l)
  {
    TablesLines(tb);
    IdOfKey(sp.L, sp.ids, sp.keys, Key(sid, l));
    sp.ids[PackKey(Key(sid, l), sp.L)]
  }

  /** The weight of switching from line `line` to line l2 at a station (bus.cpp:226-228):
      nothing before boarding or on the same line, BIG for a change. */
  function SwitchCost(line: int, l2: int): int {
    if line == 0 then 0 else if l2 != line then BIG else 0
  }

  /** The arcs of the loop at bus.cpp:224-236 from station sid on line `line`: one per line
      through the station, in list order. */
  function Switches(tb: Tables, sp: Space, s: int, sid: int, line: int): (r: seq<Arc>)
    requires Built(tb, sp, s) && 0 <= sid < |tb.stationLines|
    ensures |r| == |tb.stationLines[sid]|
    ensures forall j :: 0 <= j < |r| ==>
      0 <= r[j].to < |sp.keys| && sp.keys[r[j].to] == Key(sid, tb.stationLines[sid][j])
      && r[j].w == SwitchCost(line, tb.stationLines[sid][j])
  {
    var ls := tb.stationLines[sid];
    seq(|ls|, j requires 0 <= j < |ls| => Arc(Id(tb, sp, s, sid, ls[j]), SwitchCost(line, ls[j])))
  }

  /** The arcs of bus.cpp:238-259 from station sid riding line `line`: to the stations just
      before and just after the station's last position on the line, each of weight 1. None
      before boarding or when the station is not on the line. */
  function Rides(tb: Tables, sp: Space, s: int, sid: int, line: int): (r: seq<Arc>)
    requires Built(tb, sp, s) && 0 <= sid < |tb.stationLines|
    requires line != 0 ==> line in tb.stationLines[sid]
  {
    if line == 0 then []
    else
      var ls := tb.lines[line];
      var pos := tb.posInLine[line][sid];
      if pos == -1 then []
      else
        assert ls[pos] == sid;
        (if pos - 1 >= 0 then [Arc(Id(tb, sp, s, ls[pos - 1], line), 1)] else [])
        + (if pos + 1 < |ls| then [Arc(Id(tb, sp, s, ls[pos + 1], line), 1)] else [])
  }

  /** Every arc the search relaxes from state u, in the order it relaxes them. */
  function Moves(tb: Tables, sp: Space, s: int, u: int): seq<Arc>
    requires Built(tb, sp, s) && 0 <= u < |sp.keys|
  {
    var k := sp.keys[u];
    Switches(tb, sp, s, k.station, k.line) + Rides(tb, sp, s, k.station, k.line)
  }

  /** The graph of states the search runs on. */
  function Graph(tb: Tables, sp: Space, s: int): (g: seq<seq<Arc>>)
    requires Built(tb, sp, s)
    ensures |g| == |sp.keys|
    ensures forall u :: 0 <= u < |g| ==> g[u] == Moves(tb, sp, s, u)
  {
    seq(|sp.keys|, u requires 0 <= u < |sp.keys| => Moves(tb, sp, s, u))
  }

  /** A station y next to x on a line: just before or after x's last position there. */
  predicate Adjacent(line: seq<int>, x: int, y: int) {
    var p := LastIndex(line, x);
    p != -1 && ((p >= 1 && line[p - 1] == y) || (p + 1 < |line| && line[p + 1] == y))
  }

  /** One move of the search from state a to state b at weight w (bus.cpp:224-259): either
      switch to a line through a's station, free when boarding or staying on a's line and
      BIG for a change; or, riding a line, go to a station next to a's on it, at weight 1. */
  predicate Move(tb: Tables, a: Key, b: Key, w: int) {
    || (&& 0 <= a.station < |tb.stationLines| && b.station == a.station
        && b.line in tb.stationLines[a.station]
        && w == (if a.line == 0 || b.line == a.line then 0 else BIG))
    || (1 <= a.line < |tb.lines| && b.line == a.line && Adjacent(tb.lines[a.line], a.station, b.station) && w == 1)
  }

  /** A sequence of moves from (s, 0) through the states ks, at weights ws. */
  predicate Walk(tb: Tables, s: int, ks: seq<Key>, ws: seq<int>) {
    && |ks| == |ws| + 1 && ks[0] == Key(s, 0)
    && forall i :: 0 <= i < |ws| ==> Move(tb, ks[i], ks[i + 1], ws[i])
  }

  /** A trip from s to e: a walk from (s, 0) that ends at e on some line. */
  predicate Trip(tb: Tables, s: int, e: int, ks: seq<Key>, ws: seq<int>) {
    Walk(tb, s, ks, ws) && ks[|ks| - 1].station == e && ks[|ks| - 1].line != 0
  }

  /** The total weight of a walk. */
  function Fare(ws: seq<int>): int {
    if |ws| == 0 then 0 else Fare(ws[..|ws| - 1]) + ws[|ws| - 1]
  }

  /** The number of changes of line in a walk: its moves of weight BIG. */
  function Changes(ws: seq<int>): nat {
    if |ws| == 0 then 0 else Changes(ws[..|ws| - 1]) + (if ws[|ws| - 1] == BIG then 1 else 0)
  }

  /** The number of stops ridden in a walk: its moves of weight 1. */
  function Stops(ws: seq<int>): nat {
    if |ws| == 0 then 0 else Stops(ws[..|ws| - 1]) + (if ws[|ws| - 1] == 1 then 1 else 0)
  }

  /** Every move weighs 0, 1 or BIG. */
  predicate Priced(ws: seq<int>) {
    forall i :: 0 <= i < |ws| ==> ws[i] == 0 || ws[i] == 1 || ws[i] == BIG
  }

  /** The weight of a walk is BIG per change plus one per stop. */
  lemma {:induction false} FareSplits(ws: seq<int>)
    requires Priced(ws)
    ensures Fare(ws) == Changes(ws) * BIG + Stops(ws)
  {
    if |ws| > 0 {
      FareSplits(ws[..|ws| - 1]);
    }
  }

  /** With fewer than BIG stops, the reported transfers and stops (bus.cpp:301-302) are the
      walk's changes and stops. */
  lemma Decodes(ws: seq<int>)
    requires Priced(ws) && Stops(ws) < BIG
    ensures Fare(ws) / BIG == Changes(ws) && Fare(ws) % BIG == Stops(ws)
  {
    FareSplits(ws);
    DivModUnique(Fare(ws), BIG, Changes(ws), Stops(ws));
  }

  /** With fewer than BIG stops on both, one walk weighs no more than another exactly when
      it has fewer changes, or as many and no more stops. */
  lemma Lexicographic(a: seq<int>, b: seq<int>)
    requires Priced(a) && Priced(b) && Stops(a) < BIG && Stops(b) < BIG
    ensures Fare(a) <= Fare(b) <==>
      Changes(a) < Changes(b) || (Changes(a) == Changes(b) && Stops(a) <= Stops(b))
  {
    FareSplits(a);
    FareSplits(b);
    if Changes(a) < Changes(b) {
      MulAtLeast(Changes(b) - Changes(a), BIG);
      assert Changes(b) * BIG - Changes(a) * BIG == (Changes(b) - Changes(a)) * BIG;
    } else if Changes(a) > Changes(b) {
      MulAtLeast(Changes(a) - Changes(b), BIG);
      assert Changes(a) * BIG - Changes(b) * BIG == (Changes(a) - Changes(b)) * BIG;
    }
  }

  /** A walk's moves are priced 0, 1 or BIG. */
  lemma WalkPriced(tb: Tables, s: int, ks: seq<Key>, ws: seq<int>)
    requires Walk(tb, s, ks, ws)
    ensures Priced(ws)
  {
    forall i | 0 <= i < |ws| ensures ws[i] == 0 || ws[i] == 1 || ws[i] == BIG {
      assert Move(tb, ks[i], ks[i + 1], ws[i]);
    }
  }

  /** Every arc leads to a state and weighs 0, 1 or BIG. */
  lemma GraphOkBuilt(tb: Tables, sp: Space, s: int)
    requires Built(tb, sp, s)
    ensures GraphOk(Graph(tb, sp, s))
  {
    var g: seq<seq<Arc>> := Graph(tb, sp, s);
    forall u: int, j: int | 0 <= u < |g| && 0 <= j < |g[u]| ensures 0 <= g[u][j].to < |g| && g[u][j].w >= 0 {
      ArcMoves(tb, sp, s, u, j);
    }
  }

  /** State u is the start state or a station with one of its lines. */
  lemma StateShape(tb: Tables, sp: Space, s: int, u: int)
    requires Built(tb, sp, s) && 0 <= u < |sp.keys|
    ensures 0 <= sp.keys[u].station < |tb.stationLines|
    ensures sp.keys[u].line == 0 || sp.keys[u].line in tb.stationLines[sp.keys[u].station]
  {
  }

  /** Every arc of the graph is a move between the states it joins. */
  lemma ArcMoves(tb: Tables, sp: Space, s: int, u: int, j: int)
    requires Built(tb, sp, s) && 0 <= u < |sp.keys| && 0 <= j < |Moves(tb, sp, s, u)|
    ensures 0 <= Moves(tb, sp, s, u)[j].to < |sp.keys|
    ensures Move(tb, sp.keys[u], sp.keys[Moves(tb, sp, s, u)[j].to], Moves(tb, sp, s, u)[j].w)
  {
    var k := sp.keys[u];
    StateShape(tb, sp, s, u);
    var sw := Switches(tb, sp, s, k.station, k.line);
    var rd := Rides(tb, sp, s, k.station, k.line);
    assert Moves(tb, sp, s, u) == sw + rd;
    if j < |sw| {
      assert Moves(tb, sp, s, u)[j] == sw[j];
      assert tb.stationLines[k.station][j] in tb.stationLines[k.station];
    } else {
      assert Moves(tb, sp, s, u)[j] == rd[j - |sw|];
      var ls := tb.lines[k.line];
      var pos := tb.posInLine[k.line][k.station];
      assert pos == LastIndex(ls, k.station);
    }
  }

  /** Every move from a state is an arc of the graph: the one returned. */
  lemma MoveArc(tb: Tables, sp: Space, s: int, u: int, b: Key, w: int) returns (j: nat)
    requires Built(tb, sp, s) && 0 <= u < |sp.keys| && Move(tb, sp.keys[u], b, w)
    ensures j < |Moves(tb, sp, s, u)|
    ensures sp.keys[Moves(tb, sp, s, u)[j].to] == b && Moves(tb, sp, s, u)[j].w == w
  {
    var k := sp.keys[u];
    StateShape(tb, sp, s, u);
    var sw := Switches(tb, sp, s, k.station, k.line);
    var rd := Rides(tb, sp, s, k.station, k.line);
    assert Moves(tb, sp, s, u) == sw + rd;
    if b.station == k.station && b.line in tb.stationLines[k.station] && w == SwitchCost(k.line, b.line) {
      j :| 0 <= j < |tb.stationLines[k.station]| && tb.stationLines[k.station][j] == b.line;
      assert Moves(tb, sp, s, u)[j] == sw[j];
    } else {
      var ls := tb.lines[k.line];
      var p := LastIndex(ls, k.station);
      assert k.line != 0 && tb.posInLine[k.line][k.station] == p;
      if p >= 1 && ls[p - 1] == b.station {
        j := |sw|;
      } else {
        j := |sw| + (if p - 1 >= 0 then 1 else 0);
      }
      assert Moves(tb, sp, s, u)[j] == rd[j - |sw|];
    }
  }

  /** The states a path of state ids visits. */
  function KeysOf(sp: Space, ns: seq<int>): (ks: seq<Key>)
    requires forall i :: 0 <= i < |ns| ==> 0 <= ns[i] < |sp.keys|
    ensures |ks| == |ns| && forall i :: 0 <= i < |ns| ==> ks[i] == sp.keys[ns[i]]
  {
    seq(|ns|, i requires 0 <= i < |ns| => sp.keys[ns[i]])
  }

  /** The weights of the arcs a path takes. */
  function Weights(g: seq<seq<Arc>>, ns: seq<int>, es: seq<int>): (ws: seq<int>)
    requires |ns| == |es| + 1
    requires forall i :: 0 <= i < |es| ==> 0 <= ns[i] < |g| && 0 <= es[i] < |g[ns[i]]|
    ensures |ws| == |es| && forall i :: 0 <= i < |es| ==> ws[i] == g[ns[i]][es[i]].w
  {
    seq(|es|, i requires 0 <= i < |es| => g[ns[i]][es[i]].w)
  }

  /** A path's weights sum to its cost. */
  lemma {:induction false} FareIsCost(g: seq<seq<Arc>>, ns: seq<int>, es: seq<int>)
    requires |ns| == |es| + 1
    requires forall i :: 0 <= i < |es| ==> 0 <= ns[i] < |g| && 0 <= es[i] < |g[ns[i]]|
    ensures Fare(Weights(g, ns, es)) == Cost(g, ns, es)
    decreases |es|
  {
    if |es| > 0 {
      var n := |es| - 1;
      FareIsCost(g, ns[..n + 1], es[..n]);
      assert Weights(g, ns, es)[..n] == Weights(g, ns[..n + 1], es[..n]);
    }
  }

  /** Every state of a path from the start is a state of the table. */
  lemma PathInRange(g: seq<seq<Arc>>, ns: seq<int>, es: seq<int>)
    requires GraphOk(g) && |g| > 0 && IsPath(g, 0, ns, es)
    ensures forall i :: 0 <= i < |ns| ==> 0 <= ns[i] < |g|
  {
    forall i | 0 <= i < |ns| ensures 0 <= ns[i] < |g| {
      if i > 0 {
        assert g[ns[i - 1]][es[i - 1]].to == ns[i];
      }
    }
  }

  /** A path of the graph from state 0 is a walk from (s, 0) of the same weight. */
  lemma PathWalks(tb: Tables, sp: Space, s: int, ns: seq<int>, es: seq<int>)
    requires Built(tb, sp, s) && IsPath(Graph(tb, sp, s), 0, ns, es)
    ensures forall i :: 0 <= i < |ns| ==> 0 <= ns[i] < |sp.keys|
    ensures Walk(tb, s, KeysOf(sp, ns), Weights(Graph(tb, sp, s), ns, es))
    ensures Fare(Weights(Graph(tb, sp, s), ns, es)) == Cost(Graph(tb, sp, s), ns, es)
  {
    var g: seq<seq<Arc>> := Graph(tb, sp, s);
    GraphOkBuilt(tb, sp, s);
    PathInRange(g, ns, es);
    var ks, ws := KeysOf(sp, ns), Weights(g, ns, es);
    forall i | 0 <= i < |ws| ensures Move(tb, ks[i], ks[i + 1], ws[i]) {
      ArcMoves(tb, sp, s, ns[i], es[i]);
    }
    FareIsCost(g, ns, es);
  }

  /** Every move from a state of sp is an arc of g to the state it moves to, and state 0 is
      the start (s, 0). */
  ghost predicate Steps(tb: Tables, sp: Space, s: int, g: seq<seq<Arc>>) {
    && |g| == |sp.keys| && |sp.keys| > 0 && sp.keys[0] == Key(s, 0)
    && forall u, b, w :: 0 <= u < |g| && Move(tb, sp.keys[u], b, w) ==>
         exists j :: 0 <= j < |g[u]| && 0 <= g[u][j].to < |g| && sp.keys[g[u][j].to] == b && g[u][j].w == w
  }

  /** The graph of a state table has an arc for every move. */
  lemma StepsBuilt(tb: Tables, sp: Space, s: int)
    requires Built(tb, sp, s)
    ensures Steps(tb, sp, s, Graph(tb, sp, s))
  {
    var g: seq<seq<Arc>> := Graph(tb, sp, s);
    forall u, b, w | 0 <= u < |g| && Move(tb, sp.keys[u], b, w)
      ensures exists j :: 0 <= j < |g[u]| && 0 <= g[u][j].to < |g| && sp.keys[g[u][j].to] == b && g[u][j].w == w
    {
      var j := MoveArc(tb, sp, s, u, b, w);
      assert g[u] == Moves(tb, sp, s, u);
      ArcMoves(tb, sp, s, u, j);
    }
  }

  /** A walk from (s, 0) is a path of g from state 0 of the same weight: the one returned. */
  lemma WalkPaths(tb: Tables, sp: Space, s: int, g: seq<seq<Arc>>, ks: seq<Key>, ws: seq<int>)
    returns (ns: seq<int>, es: seq<int>)
    requires Steps(tb, sp, s, g) && Walk(tb, s, ks, ws)
    ensures IsPath(g, 0, ns, es)
    ensures |ns| == |ks| && forall i :: 0 <= i < |ns| ==> 0 <= ns[i] < |sp.keys| && sp.keys[ns[i]] == ks[i]
    ensures Cost(g, ns, es) == Fare(ws)
  {
    ns, es := [0], [];
    var i := 0;
    while i < |ws|
      invariant 0 <= i <= |ws| && Follows(sp, g, ks, ws, i, ns, es)
    {
      ns, es := WalkExtend(tb, sp, s, g, ks, ws, i, ns, es);
      i := i + 1;
    }
    assert ws[..i] == ws;
  }

  /** The path ns, es of g follows the first i moves of the walk ks, ws. */
  ghost predicate Follows(sp: Space, g: seq<seq<Arc>>, ks: seq<Key>, ws: seq<int>, i: int, ns: seq<int>, es: seq<int>)
    requires 0 <= i <= |ws|
  {
    && IsPath(g, 0, ns, es) && |ns| == i + 1 && |ns| <= |ks|
    && (forall k :: 0 <= k < |ns| ==> 0 <= ns[k] < |sp.keys| && sp.keys[ns[k]] == ks[k])
    && Cost(g, ns, es) == Fare(ws[..i])
  }

  /** A path that follows i moves of a walk extends to one that follows i + 1. */
  lemma WalkExtend(tb: Tables, sp: Space, s: int, g: seq<seq<Arc>>, ks: seq<Key>, ws: seq<int>, i: int, ns: seq<int>, es: seq<int>)
    returns (ns': seq<int>, es': seq<int>)
    requires Steps(tb, sp, s, g) && Walk(tb, s, ks, ws) && 0 <= i < |ws| && Follows(sp, g, ks, ws, i, ns, es)
    ensures Follows(sp, g, ks, ws, i + 1, ns', es')
  {
    var u := ns[i];
    assert Move(tb, sp.keys[u], ks[i + 1], ws[i]);
    var j :| 0 <= j < |g[u]| && 0 <= g[u][j].to < |g| && sp.keys[g[u][j].to] == ks[i + 1] && g[u][j].w == ws[i];
    CostSnoc(g, 0, ns, es, j);
    FarePrefix(ws, i);
    ns', es' := ns + [g[u][j].to], es + [j];
    forall k | 0 <= k < |ns'| ensures 0 <= ns'[k] < |sp.keys| && sp.keys[ns'[k]] == ks[k] {
      if k < |ns| {
        assert ns'[k] == ns[k];
      }
    }
  }

  /** One more move adds its weight. */
  lemma FarePrefix(ws: seq<int>, i: int)
    requires 0 <= i < |ws|
    ensures Fare(ws[..i + 1]) == Fare(ws[..i]) + ws[i]
  {
    assert ws[..i + 1][..i] == ws[..i];
  }

  /** The end-state choice of bus.cpp:263-276: over the lines through e in list order, the
      state of strictly least distance found first; -1 when none is reached. */
  method PickEnd(tb: Tables, sp: Space, s: int, e: int, dist: seq<int>) returns (best: int)
    requires Built(tb, sp, s) && 0 <= e < |tb.stationLines| && |dist| == |sp.keys|
    ensures best == -1 <==>
      forall j :: 0 <= j < |tb.stationLines[e]| ==> dist[Id(tb, sp, s, e, tb.stationLines[e][j])] == -1
    ensures best != -1 ==>
      && 0 <= best < |sp.keys| && sp.keys[best].station == e && sp.keys[best].line in tb.stationLines[e]
      && dist[best] != -1
      && forall j :: 0 <= j < |tb.stationLines[e]| && dist[Id(tb, sp, s, e, tb.stationLines[e][j])] != -1 ==>
           dist[best] <= dist[Id(tb, sp, s, e, tb.stationLines[e][j])]
  {
    var ls := tb.stationLines[e];
    best := -1;
    var bestDist := -1;
    for i := 0 to |ls|
      invariant best == -1 || 0 <= best < |sp.keys|
      invariant bestDist == (if best == -1 then -1 else dist[best])
      invariant best == -1 <==> forall j :: 0 <= j < i ==> dist[Id(tb, sp, s, e, ls[j])] == -1
      invariant best != -1 ==>
        && 0 <= best < |sp.keys| && sp.keys[best].station == e && sp.keys[best].line in ls
        && dist[best] != -1
        && forall j :: 0 <= j < i && dist[Id(tb, sp, s, e, ls[j])] != -1 ==> dist[best] <= dist[Id(tb, sp, s, e, ls[j])]
    {
      var id := Id(tb, sp, s, e, ls[i]);
      if dist[id] != -1 && (bestDist == -1 || dist[id] < bestDist) {
        bestDist := dist[id];
        best := id;
      }
    }
  }

  /** The stations of a route. */
  function StationsOf(ks: seq<Key>): (r: seq<int>)
    ensures |r| == |ks| && forall i :: 0 <= i < |ks| ==> r[i] == ks[i].station
  {
    seq(|ks|, i requires 0 <= i < |ks| => ks[i].station)
  }

  /** The lines of a route, one per state, 0 before boarding. */
  function LinesOf(ks: seq<Key>): (r: seq<int>)
    ensures |r| == |ks| && forall i :: 0 <= i < |ks| ==> r[i] == ks[i].line
  {
    seq(|ks|, i requires 0 <= i < |ks| => ks[i].line)
  }

  /** The elements of xs other than 0, in order. */
  function NonZero(xs: seq<int>): (r: seq<int>)
    ensures forall k :: 0 <= k < |r| ==> r[k] != 0
  {
    if |xs| == 0 then []
    else NonZero(xs[..|xs| - 1]) + (if xs[|xs| - 1] != 0 then [xs[|xs| - 1]] else [])
  }

  /** The loop of bus.cpp:288-299 over the states of the route: its stations with repeats
      side by side dropped, and the lines it rides, 0 left out and repeats side by side
      dropped. */
  method Summarize(keys: seq<Key>, states: seq<int>) returns (stations: seq<int>, lines: seq<int>)
    requires forall i :: 0 <= i < |states| ==> 0 <= states[i] < |keys|
    ensures stations == Squash(StationsOf(Route(keys, states)))
    ensures lines == Squash(NonZero(LinesOf(Route(keys, states))))
  {
    var ks := Route(keys, states);
    stations, lines := [], [];
    var lastLine := 0;
    for i := 0 to |states|
      invariant Summary(ks, i, stations, lines, lastLine)
    {
      SummarizeStep(ks, i);
      stations, lines, lastLine := SummarizeRound(keys[states[i]], stations, lines, lastLine);
    }
    assert ks[..|states|] == ks;
    PushedSquashes(StationsOf(ks));
    PushedSquashes(NonZero(LinesOf(ks)));
  }

  /** The loop of Summarize after i states: their stations and their lines pushed, and
      lastLine the last line pushed, 0 before any. */
  ghost predicate Summary(ks: seq<Key>, i: int, stations: seq<int>, lines: seq<int>, lastLine: int) {
    && 0 <= i <= |ks|
    && stations == AppendAll([], StationsOf(ks[..i]))
    && lines == AppendAll([], NonZero(LinesOf(ks[..i])))
    && lastLine == if |lines| == 0 then 0 else lines[|lines| - 1]
  }

  /** One round of the loop of bus.cpp:290-298, on state k: its station is pushed unless it
      repeats the last one, and its line unless it is 0 or repeats lastLine, the last line
      pushed. */
  method SummarizeRound(k: Key, stations: seq<int>, lines: seq<int>, lastLine: int)
    returns (stations': seq<int>, lines': seq<int>, lastLine': int)
    requires lastLine == if |lines| == 0 then 0 else lines[|lines| - 1]
    ensures stations' == Push(stations, k.station)
    ensures lines' == if k.line == 0 then lines else Push(lines, k.line)
    ensures lastLine' == if |lines'| == 0 then 0 else lines'[|lines'| - 1]
  {
    var sid := k.station;
    var l := k.line;
    stations', lines', lastLine' := stations, lines, lastLine;
    if stations' == [] || stations'[|stations'| - 1] != sid {
      stations' := stations' + [sid];
    }
    if l != 0 && l != lastLine' {
      lines' := lines' + [l];
      lastLine' := l;
    }
  }

  /** Pushing xs one by one onto nothing squashes it. */
  lemma PushedSquashes(xs: seq<int>)
    ensures AppendAll([], xs) == Squash(xs)
  {
    assert NoStutter([]);
    AppendAllSquashes([], xs);
    assert [] + xs == xs;
  }

  /** One more state pushes its station, and its line unless that is 0. */
  lemma SummarizeStep(ks: seq<Key>, i: int)
    requires 0 <= i < |ks|
    ensures AppendAll([], StationsOf(ks[..i + 1])) == Push(AppendAll([], StationsOf(ks[..i])), ks[i].station)
    ensures AppendAll([], NonZero(LinesOf(ks[..i + 1]))) ==
      if ks[i].line == 0 then AppendAll([], NonZero(LinesOf(ks[..i])))
      else Push(AppendAll([], NonZero(LinesOf(ks[..i]))), ks[i].line)
  {
    assert StationsOf(ks[..i + 1]) == StationsOf(ks[..i]) + [ks[i].station];
    assert LinesOf(ks[..i + 1]) == LinesOf(ks[..i]) + [ks[i].line];
    var xs := LinesOf(ks[..i + 1]);
    assert xs[..i] == LinesOf(ks[..i]);
    AppendAllSnoc([], StationsOf(ks[..i]), ks[i].station);
    if ks[i].line != 0 {
      assert NonZero(xs) == NonZero(LinesOf(ks[..i])) + [ks[i].line];
      AppendAllSnoc([], NonZero(LinesOf(ks[..i])), ks[i].line);
    } else {
      assert NonZero(xs) == NonZero(LinesOf(ks[..i]));
    }
  }

  /** The states a sequence of state ids names. */
  function Route(keys: seq<Key>, states: seq<int>): (ks: seq<Key>)
    requires forall i :: 0 <= i < |states| ==> 0 <= states[i] < |keys|
    ensures |ks| == |states| && forall i :: 0 <= i < |states| ==> ks[i] == keys[states[i]]
  {
    seq(|states|, i requires 0 <= i < |states| => keys[states[i]])
  }

  /** What solveWeighted reports: transfers and stops decoded from the route's weight, the
      lines ridden and the stations passed. */
  datatype Plan = Plan(transfers: int, stops: int, lines: seq<int>, stations: seq<int>)

  /** The state table of a search from s (bus.cpp:186-200). */
  function States(tb: Tables, s: int): (sp: Space)
    requires TablesOk(tb) && 0 <= s < |tb.stationLines|
    ensures Built(tb, sp, s)
  {
    TablesLines(tb);
    var table := Build(|tb.lines| - 1, tb.stationLines, s);
    Space(|tb.lines| - 1, table.0, table.1)
  }

  /** The states at which the search stops (bus.cpp:221): station e on some line. */
  function Goal(sp: Space, e: int): (goal: seq<bool>)
    ensures |goal| == |sp.keys|
    ensures forall u :: 0 <= u < |sp.keys| ==> (goal[u] <==> sp.keys[u].station == e && sp.keys[u].line != 0)
  {
    seq(|sp.keys|, u requires 0 <= u < |sp.keys| => sp.keys[u].station == e && sp.keys[u].line != 0)
  }

  /** The search and the end-state choice of bus.cpp:204-276: best is -1 only when no trip
      leads from s to e; otherwise it is a state of station e on a line, reached, and no trip
      to e weighs less than its distance (Report then builds a trip to it). */
  method Reach(tb: Tables, sp: Space, s: int, e: int) returns (dist: seq<int>, prev: seq<int>, best: int, ghost rank: seq<nat>)
    requires Built(tb, sp, s) && 0 <= e < |tb.stationLines| && s != e
    ensures Ranked(Graph(tb, sp, s), 0, dist, prev, rank)
    ensures best == -1 ==> forall ks', ws' :: !Trip(tb, s, e, ks', ws')
    ensures best != -1 ==>
      && 0 <= best < |sp.keys| && sp.keys[best].station == e && sp.keys[best].line != 0 && dist[best] != -1
      && forall ks', ws' :: Trip(tb, s, e, ks', ws') ==> dist[best] <= Fare(ws')
  {
    var g: seq<seq<Arc>> := Graph(tb, sp, s);
    GraphOkBuilt(tb, sp, s);
    var found;
    dist, prev, found, rank := Search(g, 0, Goal(sp, e));
    best := PickEnd(tb, sp, s, e, dist);
    if found != -1 {
      GoalPicked(tb, sp, s, e, dist, found);
    }
    if best == -1 {
      NoTrip(tb, sp, s, e, dist);
    } else {
      assert Stopped(g, 0, Goal(sp, e), dist, found);
      Cheapest(tb, sp, s, e, dist, found, best);
    }
  }

  /** When the search runs dry no trip leads from s to e. */
  lemma NoTrip(tb: Tables, sp: Space, s: int, e: int, dist: seq<int>)
    requires Built(tb, sp, s) && |dist| == |sp.keys|
    requires Unreachable(Graph(tb, sp, s), 0, Goal(sp, e), dist)
    ensures forall ks', ws' :: !Trip(tb, s, e, ks', ws')
  {
    StepsBuilt(tb, sp, s);
    forall ks', ws' | Trip(tb, s, e, ks', ws') ensures false {
      var ns, es := WalkPaths(tb, sp, s, Graph(tb, sp, s), ks', ws');
    }
  }

  /** A state of e no farther than the goal the search stopped at is no farther than any
      trip to e. */
  lemma Cheapest(tb: Tables, sp: Space, s: int, e: int, dist: seq<int>, found: int, best: int)
    requires Built(tb, sp, s) && |dist| == |sp.keys|
    requires Stopped(Graph(tb, sp, s), 0, Goal(sp, e), dist, found)
    requires 0 <= best < |sp.keys| && dist[best] != -1 && dist[best] <= dist[found]
    ensures forall ks', ws' :: Trip(tb, s, e, ks', ws') ==> dist[best] <= Fare(ws')
  {
    StepsBuilt(tb, sp, s);
    forall ks', ws' | Trip(tb, s, e, ks', ws') ensures dist[best] <= Fare(ws') {
      var ns, es := WalkPaths(tb, sp, s, Graph(tb, sp, s), ks', ws');
      assert Goal(sp, e)[ns[|ns| - 1]];
    }
  }

  /** The report of bus.cpp:278-302 for a reached state best: the walk back along prev,
      reversed by the swap loop, is a walk from (s, 0) to best weighing dist[best]; transfers
      and stops are dist[best] divided by BIG and its remainder; the stations and the lines
      are those of the walk, repeats side by side dropped and 0 left out. */
  method Report(tb: Tables, sp: Space, s: int, dist: seq<int>, prev: seq<int>, ghost rank: seq<nat>, best: int)
    returns (plan: Plan, ghost ks: seq<Key>, ghost ws: seq<int>)
    requires Built(tb, sp, s) && Ranked(Graph(tb, sp, s), 0, dist, prev, rank)
    requires 0 <= best < |sp.keys| && dist[best] != -1
    ensures Walk(tb, s, ks, ws) && ks[|ks| - 1] == sp.keys[best] && Fare(ws) == dist[best]
    ensures plan.transfers * BIG + plan.stops == dist[best] && 0 <= plan.stops < BIG
    ensures plan.transfers == dist[best] / BIG && plan.stops == dist[best] % BIG
    ensures plan.stations == Squash(StationsOf(ks))
    ensures plan.lines == Squash(NonZero(LinesOf(ks)))
  {
    var g: seq<seq<Arc>> := Graph(tb, sp, s);
    RankedEnds(g, 0, dist, prev, rank, best);
    var trace := Trace(prev, best, rank[best] + 1);
    var states := ReverseGuarded(trace).value;
    ghost var es := TracePath(g, 0, dist, prev, rank, best, rank[best] + 1);
    PathWalks(tb, sp, s, states, es);
    ks, ws := KeysOf(sp, states), Weights(g, states, es);
    assert Route(sp.keys, states) == ks;
    var stations, lines := Summarize(sp.keys, states);
    var d := dist[best];
    plan := Plan(d / BIG, d % BIG, lines, stations);
  }

  /** solveWeighted (bus.cpp:170-315). From a station to itself: no transfers, no stops and
      no line. Otherwise None exactly when no trip leads from s to e; else a trip of least
      weight, returned as ks and ws, whose weight is transfers * BIG + stops, with its
      stations and its lines each listed without repeats side by side. When it rides fewer
      than BIG stops, transfers and stops are its changes and stops. */
  method SolveWeighted(tb: Tables, s: int, e: int) returns (r: Option<Plan>, ghost ks: seq<Key>, ghost ws: seq<int>)
    requires TablesOk(tb) && 0 <= s < |tb.stationLines| && 0 <= e < |tb.stationLines|
    ensures s == e ==> r == Some(Plan(0, 0, [], [s]))
    ensures s != e ==> (r.None? <==> forall ks', ws' :: !Trip(tb, s, e, ks', ws'))
    ensures s != e && r.Some? ==>
      && Trip(tb, s, e, ks, ws)
      && (forall ks', ws' :: Trip(tb, s, e, ks', ws') ==> Fare(ws) <= Fare(ws'))
      && r.value.transfers * BIG + r.value.stops == Fare(ws) && 0 <= r.value.stops < BIG
      && r.value.stations == Squash(StationsOf(ks))
      && r.value.lines == Squash(NonZero(LinesOf(ks)))
      && (Stops(ws) < BIG ==> r.value.transfers == Changes(ws) && r.value.stops == Stops(ws))
  {
    if s == e {
      r, ks, ws := Some(Plan(0, 0, [], [s])), [Key(s, 0)], [];
      return;
    }
    var sp := States(tb, s);
    var dist, prev, best;
    ghost var rank;
    dist, prev, best, rank := Reach(tb, sp, s, e);
    if best == -1 {
      r, ks, ws := None, [], [];
    } else {
      var plan;
      plan, ks, ws := Report(tb, sp, s, dist, prev, rank, best);
      r := Some(plan);
      assert Trip(tb, s, e, ks, ws);
      WalkPriced(tb, s, ks, ws);
      if Stops(ws) < BIG {
        Decodes(ws);
      }
    }
  }

  /** The goal state the search stops at is one PickEnd looks at, so PickEnd finds a state
      no farther. */
  lemma GoalPicked(tb: Tables, sp: Space, s: int, e: int, dist: seq<int>, v: int)
    requires Built(tb, sp, s) && 0 <= e < |tb.stationLines| && |dist| == |sp.keys|
    requires 0 <= v < |sp.keys| && sp.keys[v].station == e && sp.keys[v].line != 0
    ensures exists j :: 0 <= j < |tb.stationLines[e]| && Id(tb, sp, s, e, tb.stationLines[e][j]) == v
  {
    var l := sp.keys[v].line;
    assert v != 0;
    var j :| 0 <= j < |tb.stationLines[e]| && tb.stationLines[e][j] == l;
    IdOfKey(sp.L, sp.ids, sp.keys, Key(e, l));
    assert Id(tb, sp, s, e, tb.stationLines[e][j]) == v;
  }
}
