/** The query loop of main.cpp:79-110: a query names a type and two stations; it is turned
    away when a name is unknown or a station lies on no line, and otherwise answered by
    solveMinTransfers (type 1) or solveWeighted (any other type). */
module TransitQuery {
  import opened Wrappers
  import opened Stations
  import opened StateTable
  import opened MinTransfers
  import opened Weighted

  /** What main holds once the lines are read: the interned names and the station ids of
      lines 1..L (line 0 empty). */
  datatype Network = Network(names: Names, lines: seq<seq<int>>)

  /** The names are interned densely and every station id on a line is a known station. */
  ghost predicate NetworkOk(nw: Network) {
    Dense(nw.names) && LinesWithin(nw.lines, |nw.names.nameOf|)
  }

  /** The tables solveMinTransfers reads (main.cpp:56-70). */
  function NetOf(nw: Network): (net: Net)
    requires NetworkOk(nw)
    ensures NetOk(net)
  {
    var S := |nw.names.nameOf|;
    BuiltNetOk(S, nw.lines);
    Net(nw.lines, StationLines(S, nw.lines), InLine(S, nw.lines))
  }

  /** The tables solveWeighted reads (main.cpp:56-77). */
  function TablesOf(nw: Network): (tb: Tables)
    requires NetworkOk(nw)
    ensures TablesOk(tb)
    ensures tb.stationLines == NetOf(nw).stationLines && tb.lines == nw.lines
  {
    var S := |nw.names.nameOf|;
    BuiltTablesOk(S, nw.lines);
    Tables(nw.lines, StationLines(S, nw.lines), PosInLine(S, nw.lines))
  }

  /** The answer to one query: turned away, or what one of the two solvers reports. */
  datatype Outcome = NoRoute | ByTransfers(fewest: Option<Transfers>) | ByWeight(best: Option<Plan>)

  /** The station of a known name lies on at least one line. */
  predicate Rides(nw: Network, name: string)
    requires NetworkOk(nw)
  {
    name in nw.names.idOf && |StationLines(|nw.names.nameOf|, nw.lines)[nw.names.idOf[name]]| > 0
  }

  /** One query (main.cpp:82-109). It is turned away exactly when a name is unknown or names a
      station on no line. Otherwise type 1 answers with solveMinTransfers, None exactly when
      no journey leads from one station to the other; any other type answers with
      solveWeighted, which reports a station to itself as no transfers and no stops, and
      otherwise None exactly when no trip leads from one to the other. */
  method Query(nw: Network, kind: int, a: string, b: string) returns (o: Outcome)
    requires NetworkOk(nw)
    ensures o.NoRoute? <==> !(Rides(nw, a) && Rides(nw, b))
    ensures !o.NoRoute? ==> (o.ByTransfers? <==> kind == 1)
    ensures o.ByTransfers? ==>
      (o.fewest.None? <==> forall ls, ts :: !Journey(NetOf(nw), nw.names.idOf[a], nw.names.idOf[b], ls, ts))
    ensures o.ByWeight? && a == b ==> o.best == Some(Plan(0, 0, [], [nw.names.idOf[a]]))
    ensures o.ByWeight? && nw.names.idOf[a] != nw.names.idOf[b] ==>
      (o.best.None? <==> forall ks, ws :: !Trip(TablesOf(nw), nw.names.idOf[a], nw.names.idOf[b], ks, ws))
  {
    if a !in nw.names.idOf || b !in nw.names.idOf {
      return NoRoute;
    }
    var s := nw.names.idOf[a];
    var e := nw.names.idOf[b];
    var net := NetOf(nw);
    if |net.stationLines[s]| == 0 || |net.stationLines[e]| == 0 {
      return NoRoute;
    }
    if kind == 1 {
      var r := SolveMinTransfers(net, s, e);
      o := ByTransfers(r);
    } else {
      var r, _, _ := SolveWeighted(TablesOf(nw), s, e);
      o := ByWeight(r);
    }
  }

  /** In the network main reads, every known station lies on a line, so the check of
      main.cpp:94-97 turns nothing away that the check of main.cpp:86-89 lets through: a
      query is turned away exactly when a name is unknown. */
  lemma KnownStationsRide(lines: seq<seq<string>>, name: string)
    ensures var nw := Network(ReadLines(lines).0, ReadLines(lines).1);
      NetworkOk(nw) && (Rides(nw, name) <==> name in nw.names.idOf)
  {
    var r := ReadLines(lines);
    var nw := Network(r.0, r.1);
    if name in nw.names.idOf {
      var i :| 0 <= i < |lines| && name in lines[i];
      var j :| 0 <= j < |lines[i]| && lines[i][j] == name;
      var sid := r.1[i + 1][j];
      assert r.0.nameOf[sid] == name;
      assert sid == nw.names.idOf[name];
      assert sid in nw.lines[i + 1];
      assert i + 1 in StationLines(|nw.names.nameOf|, nw.lines)[sid];
    }
  }
}
