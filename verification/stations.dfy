/** Station-name interning and the per-line index tables main builds after reading the lines
    (main.cpp:14-77). Lines are numbered 1..L; entry 0 of every per-line table is unused. */
module Stations {
  import opened Segment

  /** The interning state: idOf maps each known name to its id, nameOf lists names by id. */
  datatype Names = Names(idOf: map<string, int>, nameOf: seq<string>)

  /** Ids are 0..|nameOf|-1 and the two tables are inverse to each other. */
  predicate Dense(n: Names) {
    && (forall name :: name in n.idOf ==> 0 <= n.idOf[name] < |n.nameOf| && n.nameOf[n.idOf[name]] == name)
    && (forall i :: 0 <= i < |n.nameOf| ==> n.nameOf[i] in n.idOf && n.idOf[n.nameOf[i]] == i)
  }

  /** getStationId (main.cpp:14-21): a known name keeps its id and changes nothing; a new
      name gets the next id, nameOf.size(), and is recorded in both tables. */
  function GetStationId(n: Names, name: string): (r: (Names, int))
    requires Dense(n)
    ensures Dense(r.0)
    ensures 0 <= r.1 < |r.0.nameOf| && r.0.nameOf[r.1] == name
    ensures name in n.idOf ==> r.0 == n
    ensures name !in n.idOf ==>
      r.1 == |n.nameOf| && r.0.nameOf == n.nameOf + [name] && r.0.idOf == n.idOf[name := r.1]
  {
    if name in n.idOf then (n, n.idOf[name])
    else
      var id := |n.nameOf|;
      (Names(n.idOf[name := id], n.nameOf + [name]), id)
  }

  /** Interning the names of one line in order (main.cpp:47-53): the ids name the stations
      read, and earlier ids keep their names. */
  function InternLine(n: Names, line: seq<string>): (r: (Names, seq<int>))
    requires Dense(n)
    ensures Dense(r.0) && n.nameOf <= r.0.nameOf
    ensures |r.1| == |line|
    ensures forall j :: 0 <= j < |line| ==> 0 <= r.1[j] < |r.0.nameOf| && r.0.nameOf[r.1[j]] == line[j]
    ensures forall name :: name in r.0.idOf <==> name in n.idOf || name in line
  {
    if |line| == 0 then (n, [])
    else
      var prev := InternLine(n, line[..|line| - 1]);
      var next := GetStationId(prev.0, line[|line| - 1]);
      assert line == line[..|line| - 1] + [line[|line| - 1]];
      (next.0, prev.1 + [next.1])
  }

  /** The station ids of lines 1..L read from their names, with the unused line 0 empty:
      every id names the station read at that position, and the known names are exactly the
      names on the lines. */
  function ReadLines(lines: seq<seq<string>>): (r: (Names, seq<seq<int>>))
    ensures Dense(r.0)
    ensures |r.1| == |lines| + 1 && r.1[0] == []
    ensures forall i :: 1 <= i <= |lines| ==> |r.1[i]| == |lines[i - 1]|
    ensures forall i, j :: 1 <= i <= |lines| && 0 <= j < |r.1[i]| ==>
      0 <= r.1[i][j] < |r.0.nameOf| && r.0.nameOf[r.1[i][j]] == lines[i - 1][j]
    ensures forall name :: name in r.0.idOf <==> exists i :: 0 <= i < |lines| && name in lines[i]
  {
    if |lines| == 0 then (Names(map[], []), [[]])
    else
      var prev := ReadLines(lines[..|lines| - 1]);
      var next := InternLine(prev.0, lines[|lines| - 1]);
      ReadStepIds(lines, prev.0, prev.1, next.0, next.1);
      ReadStepNames(lines, lines[..|lines| - 1], prev.0, next.0);
      (next.0, prev.1 + [next.1])
  }

  /** Reading one more line keeps the ids of the earlier lines naming their stations. */
  lemma ReadStepIds(lines: seq<seq<string>>, pn: Names, pls: seq<seq<int>>, nn: Names, ids: seq<int>)
    requires |lines| > 0
    requires var init := lines[..|lines| - 1];
      && |pls| == |init| + 1 && pls[0] == []
      && (forall i :: 1 <= i <= |init| ==> |pls[i]| == |init[i - 1]|)
      && (forall i, j :: 1 <= i <= |init| && 0 <= j < |pls[i]| ==>
            0 <= pls[i][j] < |pn.nameOf| && pn.nameOf[pls[i][j]] == init[i - 1][j])
    requires pn.nameOf <= nn.nameOf
    requires var last := lines[|lines| - 1];
      |ids| == |last| && forall j :: 0 <= j < |last| ==> 0 <= ids[j] < |nn.nameOf| && nn.nameOf[ids[j]] == last[j]
    ensures var r := pls + [ids];
      && |r| == |lines| + 1 && r[0] == []
      && (forall i :: 1 <= i <= |lines| ==> |r[i]| == |lines[i - 1]|)
      && (forall i, j :: 1 <= i <= |lines| && 0 <= j < |r[i]| ==>
            0 <= r[i][j] < |nn.nameOf| && nn.nameOf[r[i][j]] == lines[i - 1][j])
  {
    var init := lines[..|lines| - 1];
    assert forall i :: 0 <= i < |init| ==> init[i] == lines[i];
  }

  /** Reading one more line adds exactly its names. */
  lemma ReadStepNames(lines: seq<seq<string>>, init: seq<seq<string>>, pn: Names, nn: Names)
    requires |lines| > 0 && init == lines[..|lines| - 1]
    requires forall name :: name in pn.idOf <==> exists i :: 0 <= i < |init| && name in init[i]
    requires forall name :: name in nn.idOf <==> name in pn.idOf || name in lines[|lines| - 1]
    ensures forall name :: name in nn.idOf <==> exists i :: 0 <= i < |lines| && name in lines[i]
  {
    assert forall i :: 0 <= i < |init| ==> init[i] == lines[i];
  }

  /** Every station id on lines 1..L is below S. */
  predicate LinesWithin(ls: seq<seq<int>>, S: nat) {
    |ls| >= 1 && forall i, j :: 0 <= i < |ls| && 0 <= j < |ls[i]| ==> 0 <= ls[i][j] < S
  }

  /** k copies of x. */
  function Repeat(x: int, k: nat): (r: seq<int>)
    ensures |r| == k && forall j :: 0 <= j < k ==> r[j] == x
  {
    seq(k, _ => x)
  }

  /** The inner loop of main.cpp:59-62 for line i: append i to the list of each station of
      the line, once per occurrence. */
  function AddLine(sl: seq<seq<int>>, i: int, line: seq<int>): (r: seq<seq<int>>)
    requires forall j :: 0 <= j < |line| ==> 0 <= line[j] < |sl|
    ensures |r| == |sl|
    ensures forall sid :: 0 <= sid < |sl| ==> r[sid] == sl[sid] + Repeat(i, multiset(line)[sid])
  {
    if |line| == 0 then sl
    else
      var last := line[|line| - 1];
      var s := AddLine(sl, i, line[..|line| - 1]);
      AddLineStep(sl, s, i, line);
      s[last := s[last] + [i]]
  }

  lemma AddLineStep(sl: seq<seq<int>>, s: seq<seq<int>>, i: int, line: seq<int>)
    requires |line| > 0 && |s| == |sl| && 0 <= line[|line| - 1] < |sl|
    requires forall sid :: 0 <= sid < |sl| ==> s[sid] == sl[sid] + Repeat(i, multiset(line[..|line| - 1])[sid])
    ensures var last := line[|line| - 1];
      forall sid :: 0 <= sid < |sl| ==> s[last := s[last] + [i]][sid] == sl[sid] + Repeat(i, multiset(line)[sid])
  {
    var k := |line| - 1;
    var last := line[k];
    assert line == line[..k] + [last];
    assert multiset(line) == multiset(line[..k]) + multiset{last};
    forall sid | 0 <= sid < |sl|
      ensures s[last := s[last] + [i]][sid] == sl[sid] + Repeat(i, multiset(line)[sid])
    {
      if sid == last {
        var m := multiset(line[..k])[sid];
        assert Repeat(i, m + 1) == Repeat(i, m) + [i];
      }
    }
  }

  /** Ascending, repeats allowed. */
  predicate Ascending(s: seq<int>) {
    forall a, b :: 0 <= a < b < |s| ==> s[a] <= s[b]
  }

  /** stationLines after lines 1..n (main.cpp:57-63): the list of station sid holds each line
      x <= n as often as sid occurs on line x, in ascending line order. */
  function StationLinesUpTo(S: nat, ls: seq<seq<int>>, n: nat): (r: seq<seq<int>>)
    requires LinesWithin(ls, S) && n < |ls|
    ensures |r| == S
    ensures forall sid, x :: 0 <= sid < S ==>
      multiset(r[sid])[x] == if 1 <= x <= n then multiset(ls[x])[sid] else 0
    ensures forall sid :: 0 <= sid < S ==> Ascending(r[sid])
    ensures forall sid, k :: 0 <= sid < S && 0 <= k < |r[sid]| ==> 1 <= r[sid][k] <= n
  {
    if n == 0 then seq(S, _ => [])
    else
      var prev := StationLinesUpTo(S, ls, n - 1);
      var r := AddLine(prev, n, ls[n]);
      AddLineCounts(S, ls, n, prev, r);
      AddLineOrder(S, n, ls[n], prev, r);
      r
  }

  /** Adding line n puts it into each station's list as often as the station is on it. */
  lemma AddLineCounts(S: nat, ls: seq<seq<int>>, n: nat, prev: seq<seq<int>>, r: seq<seq<int>>)
    requires LinesWithin(ls, S) && 1 <= n < |ls| && |prev| == S
    requires forall sid, x {:trigger multiset(prev[sid])[x]} :: 0 <= sid < S ==>
      multiset(prev[sid])[x] == if 1 <= x <= n - 1 then multiset(ls[x])[sid] else 0
    requires |r| == S
    requires forall sid :: 0 <= sid < S ==> r[sid] == prev[sid] + Repeat(n, multiset(ls[n])[sid])
    ensures forall sid, x :: 0 <= sid < S ==>
      multiset(r[sid])[x] == if 1 <= x <= n then multiset(ls[x])[sid] else 0
  {
    forall sid, x | 0 <= sid < S
      ensures multiset(r[sid])[x] == if 1 <= x <= n then multiset(ls[x])[sid] else 0
    {
      var m := multiset(ls[n])[sid];
      assert multiset(r[sid]) == multiset(prev[sid]) + multiset(Repeat(n, m));
      RepeatCount(n, m, x);
      assert multiset(r[sid])[x] == multiset(prev[sid])[x] + multiset(Repeat(n, m))[x];
      assert multiset(prev[sid])[x] == if 1 <= x <= n - 1 then multiset(ls[x])[sid] else 0;
      assert multiset(Repeat(n, m))[x] == if x == n then m else 0;
    }
  }

  /** Adding line n after lines below n keeps every list ascending and within 1..n. */
  lemma AddLineOrder(S: nat, n: nat, line: seq<int>, prev: seq<seq<int>>, r: seq<seq<int>>)
    requires 1 <= n && |prev| == S && |r| == S
    requires forall sid :: 0 <= sid < S ==> Ascending(prev[sid])
    requires forall sid, k :: 0 <= sid < S && 0 <= k < |prev[sid]| ==> 1 <= prev[sid][k] <= n - 1
    requires forall sid :: 0 <= sid < S ==> r[sid] == prev[sid] + Repeat(n, multiset(line)[sid])
    ensures forall sid :: 0 <= sid < S ==> Ascending(r[sid])
    ensures forall sid, k :: 0 <= sid < S && 0 <= k < |r[sid]| ==> 1 <= r[sid][k] <= n
  {
    forall sid | 0 <= sid < S
      ensures Ascending(r[sid]) && forall k :: 0 <= k < |r[sid]| ==> 1 <= r[sid][k] <= n
    {
      var p, q := prev[sid], Repeat(n, multiset(line)[sid]);
      assert r[sid] == p + q;
      forall k | 0 <= k < |r[sid]|
        ensures 1 <= r[sid][k] <= n && (k >= |p| ==> r[sid][k] == n)
      {
        if k < |p| {
          assert r[sid][k] == p[k];
        } else {
          assert r[sid][k] == q[k - |p|];
        }
      }
      forall a, b | 0 <= a < b < |r[sid]|
        ensures r[sid][a] <= r[sid][b]
      {
        if b < |p| {
          assert r[sid][a] == p[a] && r[sid][b] == p[b];
        }
      }
    }
  }

  lemma {:induction false} RepeatCount(x: int, k: nat, y: int)
    ensures multiset(Repeat(x, k))[y] == if y == x then k else 0
  {
    if k > 0 {
      RepeatCount(x, k - 1, y);
      assert Repeat(x, k) == Repeat(x, k - 1) + [x];
    }
  }

  /** The stationLines table: line x is listed for station sid as often as sid occurs on x,
      so exactly when sid is on x, in ascending line order. */
  function StationLines(S: nat, ls: seq<seq<int>>): (r: seq<seq<int>>)
    requires LinesWithin(ls, S)
    ensures |r| == S
    ensures forall sid, x :: 0 <= sid < S ==>
      multiset(r[sid])[x] == if 1 <= x < |ls| then multiset(ls[x])[sid] else 0
    ensures forall sid, x :: 0 <= sid < S ==> (x in r[sid] <==> 1 <= x < |ls| && sid in ls[x])
    ensures forall sid :: 0 <= sid < S ==> Ascending(r[sid])
  {
    var r := StationLinesUpTo(S, ls, |ls| - 1);
    forall sid, x | 0 <= sid < S
      ensures x in r[sid] <==> 1 <= x < |ls| && sid in ls[x]
    {
      assert x in r[sid] <==> multiset(r[sid])[x] > 0;
      if 1 <= x < |ls| {
        assert sid in ls[x] <==> multiset(ls[x])[sid] > 0;
      }
    }
    r
  }

  /** The loop of main.cpp:67-69 for one line: mark each station of the line. */
  function MarkLine(row: seq<bool>, line: seq<int>): (r: seq<bool>)
    requires forall j :: 0 <= j < |line| ==> 0 <= line[j] < |row|
    ensures |r| == |row|
    ensures forall sid :: 0 <= sid < |row| ==> (r[sid] <==> row[sid] || sid in line)
  {
    if |line| == 0 then row
    else
      var last := line[|line| - 1];
      assert line == line[..|line| - 1] + [last];
      MarkLine(row, line[..|line| - 1])[last := true]
  }

  /** inLine (main.cpp:65-70): inLine[i][sid] holds exactly when station sid is on line i. */
  function InLine(S: nat, ls: seq<seq<int>>): (r: seq<seq<bool>>)
    requires LinesWithin(ls, S)
    ensures |r| == |ls| && forall i :: 0 <= i < |ls| ==> |r[i]| == S
    ensures forall i, sid :: 0 <= i < |ls| && 0 <= sid < S ==> (r[i][sid] <==> 1 <= i && sid in ls[i])
  {
    seq(|ls|, i requires 0 <= i < |ls| =>
      if i == 0 then seq(S, _ => false) else MarkLine(seq(S, _ => false), ls[i]))
  }

  /** The loop of main.cpp:74-76 for one line: each station's entry becomes its position, a
      later position overwriting an earlier one. */
  function PosRow(row: seq<int>, line: seq<int>): (r: seq<int>)
    requires forall j :: 0 <= j < |line| ==> 0 <= line[j] < |row|
    ensures |r| == |row|
    ensures forall sid :: 0 <= sid < |row| && sid !in line ==> r[sid] == row[sid]
    ensures forall sid :: 0 <= sid < |row| && sid in line ==>
      0 <= r[sid] < |line| && line[r[sid]] == sid && forall j :: r[sid] < j < |line| ==> line[j] != sid
  {
    if |line| == 0 then row
    else
      var k := |line| - 1;
      assert line == line[..k] + [line[k]];
      PosRow(row, line[..k])[line[k] := k]
  }

  /** posInLine (main.cpp:72-77): the last position of station sid on line i, or -1 when it
      is not on the line; the same index appendSegment's scan finds. */
  function PosInLine(S: nat, ls: seq<seq<int>>): (r: seq<seq<int>>)
    requires LinesWithin(ls, S)
    ensures |r| == |ls| && forall i :: 0 <= i < |ls| ==> |r[i]| == S
    ensures forall i, sid :: 1 <= i < |ls| && 0 <= sid < S ==> r[i][sid] == LastIndex(ls[i], sid)
    ensures forall sid :: 0 <= sid < S ==> r[0][sid] == -1
  {
    var r := seq(|ls|, i requires 0 <= i < |ls| =>
      if i == 0 then seq(S, _ => -1) else PosRow(seq(S, _ => -1), ls[i]));
    forall i, sid | 1 <= i < |ls| && 0 <= sid < S
      ensures r[i][sid] == LastIndex(ls[i], sid)
    {
      LastIndexUnique(ls[i], sid, r[i][sid]);
    }
    r
  }

  /** The last occurrence is unique. */
  lemma LastIndexUnique(s: seq<int>, x: int, p: int)
    requires -1 <= p < |s|
    requires p == -1 <==> x !in s
    requires p != -1 ==> s[p] == x && forall j :: p < j < |s| ==> s[j] != x
    ensures p == LastIndex(s, x)
  {
    var q := LastIndex(s, x);
    if p != -1 && q != -1 {
      assert !(p < q) && !(q < p);
    }
  }
}
