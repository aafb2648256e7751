/** solveMinTransfers (bus.cpp:64-156): breadth-first search over lines, two lines being
    neighbours when they share a station; the route found is rebuilt from the predecessor
    arrays and turned into a station sequence with appendSegment. */
module MinTransfers {
  import opened Wrappers
  import opened Segment
  import opened SeqUtil
  import opened Stations

  /** The tables the solver reads: lineStations (line 0 unused), stationLines and inLine. */
  datatype Net = Net(lines: seq<seq<int>>, stationLines: seq<seq<int>>, inLine: seq<seq<bool>>)

  /** The tables describe the lines as main builds them (bus.h:13-15). */
  ghost predicate NetOk(net: Net) {
    && LinesWithin(net.lines, |net.stationLines|)
    && |net.inLine| == |net.lines|
    && (forall i :: 0 <= i < |net.inLine| ==> |net.inLine[i]| == |net.stationLines|)
    && (forall sid, x {:trigger x in net.stationLines[sid]} {:trigger sid in net.lines[x]} ::
          0 <= sid < |net.stationLines| ==>
          (x in net.stationLines[sid] <==> 1 <= x < |net.lines| && sid in net.lines[x]))
    && (forall i, sid {:trigger net.inLine[i][sid]} {:trigger sid in net.lines[i]} ::
          0 <= i < |net.lines| && 0 <= sid < |net.stationLines| ==>
          (net.inLine[i][sid] <==> 1 <= i && sid in net.lines[i]))
  }

  /** The tables main builds from the lines are well formed. */
  lemma BuiltNetOk(S: nat, ls: seq<seq<int>>)
    requires LinesWithin(ls, S)
    ensures NetOk(Net(ls, StationLines(S, ls), InLine(S, ls)))
  {
  }

  /** One can change from line a to line b at station sid: sid is on both. */
  predicate Hop(net: Net, a: int, b: int, sid: int) {
    && 0 <= a < |net.inLine| && 0 <= sid < |net.stationLines| && sid < |net.inLine[a]|
    && net.inLine[a][sid] && b in net.stationLines[sid]
  }

  /** A journey from station s to station e riding lines ls in turn, changing from ls[k] to
      ls[k+1] at station ts[k]; it makes |ls| - 1 transfers. */
  predicate Journey(net: Net, s: int, e: int, ls: seq<int>, ts: seq<int>) {
    && |ls| >= 1 && |ts| == |ls| - 1
    && 0 <= s < |net.stationLines| && ls[0] in net.stationLines[s]
    && 0 <= e < |net.stationLines| && ls[|ls| - 1] in net.stationLines[e]
    && forall k :: 0 <= k < |ts| ==> Hop(net, ls[k], ls[k + 1], ts[k])
  }

  /** The search state: depth and predecessor line and station per line, and the queue. */
  datatype Bfs = Bfs(dist: seq<int>, prevLine: seq<int>, prevStation: seq<int>, queue: seq<int>)

  ghost predicate Shape(net: Net, b: Bfs) {
    && NetOk(net)
    && |b.dist| == |net.lines| && |b.prevLine| == |net.lines| && |b.prevStation| == |net.lines|
    && forall i :: 0 <= i < |b.queue| ==> 0 <= b.queue[i] < |net.lines| && b.dist[b.queue[i]] >= 0
  }

  /** The predecessor arrays form a tree rooted at the lines through s: a line at depth 0
      runs through s and has no predecessor, a deeper line is one hop from a line one level
      up. Every line through s is at depth 0. */
  ghost predicate Tree(net: Net, s: int, b: Bfs)
    requires Shape(net, b)
  {
    && 0 <= s < |net.stationLines|
    && (forall l :: l in net.stationLines[s] ==> 0 <= l < |b.dist| && b.dist[l] == 0)
    && forall v :: 0 <= v < |b.dist| ==>
      && b.dist[v] >= -1
      && (b.dist[v] == 0 ==> v in net.stationLines[s] && b.prevLine[v] == -1 && b.prevStation[v] == -1)
      && (b.dist[v] > 0 ==>
            && 0 <= b.prevLine[v] < |b.dist| && b.dist[b.prevLine[v]] == b.dist[v] - 1
            && Hop(net, b.prevLine[v], v, b.prevStation[v]))
  }

  /** Queue depths never decrease from front to back and span at most one level. */
  predicate Ordered(b: Bfs)
    requires forall i :: 0 <= i < |b.queue| ==> 0 <= b.queue[i] < |b.dist|
  {
    && (forall i, j :: 0 <= i < j < |b.queue| ==> b.dist[b.queue[i]] <= b.dist[b.queue[j]])
    && (|b.queue| > 0 ==> b.dist[b.queue[|b.queue| - 1]] <= b.dist[b.queue[0]] + 1)
  }

  /** A labelled line that has left the queue. */
  predicate Processed(b: Bfs, u: int) {
    0 <= u < |b.dist| && b.dist[u] != -1 && u !in b.queue
  }

  /** Every neighbour of u is labelled, at most one level below u. */
  ghost predicate Closed(net: Net, b: Bfs, u: int)
    requires NetOk(net) && |b.dist| == |net.lines| && 0 <= u < |b.dist|
  {
    forall sid, v :: Hop(net, u, v, sid) ==> 0 <= v < |b.dist| && b.dist[v] != -1 && b.dist[v] <= b.dist[u] + 1
  }

  /** Processed lines are not goal lines, are closed, and are no deeper than the queue front. */
  ghost predicate Done(net: Net, e: int, b: Bfs)
    requires Shape(net, b) && 0 <= e < |net.stationLines|
  {
    forall u :: Processed(b, u) ==>
      && u !in net.stationLines[e]
      && Closed(net, b, u)
      && (|b.queue| > 0 ==> b.dist[u] <= b.dist[b.queue[0]])
  }

  ghost predicate Inv(net: Net, s: int, e: int, b: Bfs) {
    && Shape(net, b) && Tree(net, s, b) && Ordered(b)
    && 0 <= e < |net.stationLines| && Done(net, e, b)
  }

  /** The number of unlabelled lines. */
  function CountUnset(d: seq<int>): nat {
    if |d| == 0 then 0 else CountUnset(d[..|d| - 1]) + (if d[|d| - 1] == -1 then 1 else 0)
  }

  /** Labelling an unlabelled line leaves one fewer. */
  lemma {:induction false} CountUnsetLabel(d: seq<int>, v: int, x: int)
    requires 0 <= v < |d| && d[v] == -1 && x != -1
    ensures CountUnset(d[v := x]) == CountUnset(d) - 1
  {
    var n := |d| - 1;
    if v < n {
      assert d[v := x][..n] == d[..n][v := x];
      CountUnsetLabel(d[..n], v, x);
    } else {
      assert d[v := x][..n] == d[..n];
    }
  }

  /** r extends b by labelling lines one hop from u at depth dist[u] + 1 and queueing them;
      labelled lines keep their entries. */
  predicate Grows(net: Net, b: Bfs, r: Bfs, u: int)
    requires |b.dist| == |b.prevLine| == |b.prevStation| && 0 <= u < |b.dist|
  {
    && |r.dist| == |b.dist| && |r.prevLine| == |b.dist| && |r.prevStation| == |b.dist|
    && b.queue <= r.queue
    && |r.queue| - |b.queue| == CountUnset(b.dist) - CountUnset(r.dist)
    && (forall v :: 0 <= v < |b.dist| && b.dist[v] != -1 ==>
          r.dist[v] == b.dist[v] && r.prevLine[v] == b.prevLine[v] && r.prevStation[v] == b.prevStation[v])
    && (forall v :: 0 <= v < |b.dist| && b.dist[v] == -1 && r.dist[v] != -1 ==>
          r.dist[v] == b.dist[u] + 1 && r.prevLine[v] == u && Hop(net, u, v, r.prevStation[v]) && v in r.queue)
    && (forall i :: |b.queue| <= i < |r.queue| ==>
          0 <= r.queue[i] < |b.dist| && b.dist[r.queue[i]] == -1 && r.dist[r.queue[i]] == b.dist[u] + 1)
  }

  lemma GrowsTrans(net: Net, a: Bfs, b: Bfs, c: Bfs, u: int)
    requires |a.dist| == |a.prevLine| == |a.prevStation| && 0 <= u < |a.dist| && a.dist[u] >= 0
    requires Grows(net, a, b, u) && Grows(net, b, c, u)
    ensures Grows(net, a, c, u)
  {
    forall i | |a.queue| <= i < |c.queue|
      ensures 0 <= c.queue[i] < |a.dist| && a.dist[c.queue[i]] == -1 && c.dist[c.queue[i]] == a.dist[u] + 1
    {
      if i < |b.queue| {
        assert b.queue[i] == c.queue[i];
      }
    }
  }

  /** The loop of bus.cpp:98-106 over the lines of station sid from position k on: each
      line other than u still unlabelled gets depth dist[u] + 1, predecessor u via sid, and
      joins the queue. */
  function Relax(net: Net, b: Bfs, u: int, sid: int, k: nat): (r: Bfs)
    requires Shape(net, b) && 0 <= u < |net.lines| && b.dist[u] >= 0
    requires 0 <= sid < |net.stationLines| && net.inLine[u][sid] && k <= |net.stationLines[sid]|
    ensures Shape(net, r) && Grows(net, b, r, u)
    ensures forall j :: k <= j < |net.stationLines[sid]| ==>
      net.stationLines[sid][j] == u || (0 <= net.stationLines[sid][j] < |r.dist| && r.dist[net.stationLines[sid][j]] != -1)
    decreases |net.stationLines[sid]| - k
  {
    if k == |net.stationLines[sid]| then b
    else
      var v := net.stationLines[sid][k];
      assert v in net.stationLines[sid];
      if v == u || b.dist[v] != -1 then
        Relax(net, b, u, sid, k + 1)
      else
        var b' := Bfs(b.dist[v := b.dist[u] + 1], b.prevLine[v := u], b.prevStation[v := sid], b.queue + [v]);
        CountUnsetLabel(b.dist, v, b.dist[u] + 1);
        assert Grows(net, b, b', u);
        var r := Relax(net, b', u, sid, k + 1);
        GrowsTrans(net, b, b', r, u);
        r
  }

  /** The loop of bus.cpp:95-107 over stations sid0.. on line u. */
  function Expand(net: Net, b: Bfs, u: int, sid0: nat): (r: Bfs)
    requires Shape(net, b) && 0 <= u < |net.lines| && b.dist[u] >= 0 && sid0 <= |net.stationLines|
    ensures Shape(net, r) && Grows(net, b, r, u)
    ensures forall sid, v :: sid0 <= sid && Hop(net, u, v, sid) ==> v == u || (0 <= v < |r.dist| && r.dist[v] != -1)
    decreases |net.stationLines| - sid0
  {
    if sid0 == |net.stationLines| then b
    else if !net.inLine[u][sid0] then Expand(net, b, u, sid0 + 1)
    else
      var b' := Relax(net, b, u, sid0, 0);
      var r := Expand(net, b', u, sid0 + 1);
      GrowsTrans(net, b, b', r, u);
      StaysLabelled(net, b', r, u, sid0);
      r
  }

  /** Lines labelled before a growth step stay labelled after it. */
  lemma StaysLabelled(net: Net, b: Bfs, r: Bfs, u: int, sid: int)
    requires |b.dist| == |b.prevLine| == |b.prevStation| && 0 <= u < |b.dist| && Grows(net, b, r, u)
    requires 0 <= sid < |net.stationLines|
    requires forall j :: 0 <= j < |net.stationLines[sid]| ==>
      net.stationLines[sid][j] == u || (0 <= net.stationLines[sid][j] < |b.dist| && b.dist[net.stationLines[sid][j]] != -1)
    ensures forall v :: v in net.stationLines[sid] ==> v == u || (0 <= v < |r.dist| && r.dist[v] != -1)
  {
  }

  /** The search state after the seeding loop of bus.cpp:81-85: every line through s at
      depth 0 and queued in stationLines order, all other lines unlabelled. */
  function Seed(net: Net, s: int): (b: Bfs)
    requires NetOk(net) && 0 <= s < |net.stationLines|
    ensures Shape(net, b) && Tree(net, s, b)
  {
    var n := |net.lines|;
    var b := Bfs(seq(n, l => if l in net.stationLines[s] then 0 else -1), seq(n, _ => -1), seq(n, _ => -1),
                 net.stationLines[s]);
    assert forall i :: 0 <= i < |b.queue| ==> b.queue[i] in net.stationLines[s];
    b
  }

  /** The main loop of bus.cpp:88-108: pop the front line; stop on a goal line (one through
      e); otherwise label its neighbours. Some((g, state)) when goal line g reaches the front
      of the queue in that state; None when the queue runs dry, which happens only when no
      journey exists. */
  function Search(net: Net, s: int, e: int, b: Bfs): (r: Option<(int, Bfs)>)
    requires Inv(net, s, e, b)
    ensures r.Some? ==>
      && Inv(net, s, e, r.value.1) && |r.value.1.queue| > 0 && r.value.1.queue[0] == r.value.0
      && r.value.0 in net.stationLines[e]
    ensures r.None? ==> forall ls, ts :: !Journey(net, s, e, ls, ts)
    decreases CountUnset(b.dist), |b.queue|
  {
    if |b.queue| == 0 then
      NoJourney(net, s, e, b);
      None
    else
      var u := b.queue[0];
      if u in net.stationLines[e] then Some((u, b))
      else
        var popped := b.(queue := b.queue[1..]);
        var r := Expand(net, popped, u, 0);
        StepInv(net, s, e, b, r);
        Search(net, s, e, r)
  }

  /** One round of the main loop keeps the invariant. */
  lemma StepInv(net: Net, s: int, e: int, b: Bfs, r: Bfs)
    requires Inv(net, s, e, b) && |b.queue| > 0 && b.queue[0] !in net.stationLines[e]
    requires var u := b.queue[0];
      && Shape(net, r) && Grows(net, b.(queue := b.queue[1..]), r, u)
      && forall sid, v :: Hop(net, u, v, sid) ==> v == u || (0 <= v < |r.dist| && r.dist[v] != -1)
    ensures Inv(net, s, e, r)
  {
    var u := b.queue[0];
    var popped := b.(queue := b.queue[1..]);
    var d := b.dist[u];
    QueueBand(b, popped, r, u, d);
    OrderedStep(b, popped, r, u, d);
    TreeStep(net, s, popped, r, u);
    DoneStep(net, e, b, popped, r, u, d);
  }

  /** Every queued depth lies between the popped line's depth d and d + 1, before and after
      the round. */
  lemma QueueBand(b: Bfs, popped: Bfs, r: Bfs, u: int, d: int)
    requires forall i :: 0 <= i < |b.queue| ==> 0 <= b.queue[i] < |b.dist| && b.dist[b.queue[i]] >= 0
    requires Ordered(b) && |b.queue| > 0 && u == b.queue[0] && d == b.dist[u]
    requires popped == b.(queue := b.queue[1..])
    requires |r.dist| == |b.dist| && popped.queue <= r.queue
    requires forall v :: 0 <= v < |b.dist| && b.dist[v] != -1 ==> r.dist[v] == b.dist[v]
    requires forall i :: |popped.queue| <= i < |r.queue| ==>
      0 <= r.queue[i] < |b.dist| && r.dist[r.queue[i]] == d + 1
    ensures forall i :: 0 <= i < |b.queue| ==> d <= b.dist[b.queue[i]] <= d + 1
    ensures forall i :: 0 <= i < |r.queue| ==> 0 <= r.queue[i] < |r.dist| && d <= r.dist[r.queue[i]] <= d + 1
  {
    forall i | 0 <= i < |r.queue|
      ensures 0 <= r.queue[i] < |r.dist| && d <= r.dist[r.queue[i]] <= d + 1
    {
      if i < |popped.queue| {
        assert r.queue[i] == b.queue[i + 1];
      }
    }
  }

  lemma OrderedStep(b: Bfs, popped: Bfs, r: Bfs, u: int, d: int)
    requires forall i :: 0 <= i < |b.queue| ==> 0 <= b.queue[i] < |b.dist| && b.dist[b.queue[i]] >= 0
    requires Ordered(b) && |b.queue| > 0 && u == b.queue[0] && d == b.dist[u]
    requires popped == b.(queue := b.queue[1..]) && |b.dist| == |b.prevLine| == |b.prevStation|
    requires |r.dist| == |b.dist| && popped.queue <= r.queue
    requires forall v :: 0 <= v < |b.dist| && b.dist[v] != -1 ==> r.dist[v] == b.dist[v]
    requires forall i :: |popped.queue| <= i < |r.queue| ==>
      0 <= r.queue[i] < |b.dist| && r.dist[r.queue[i]] == d + 1
    requires forall i :: 0 <= i < |r.queue| ==> d <= r.dist[r.queue[i]] <= d + 1
    ensures forall i :: 0 <= i < |r.queue| ==> 0 <= r.queue[i] < |r.dist|
    ensures Ordered(r)
  {
    forall i | 0 <= i < |r.queue|
      ensures 0 <= r.queue[i] < |r.dist|
    {
      if i < |popped.queue| {
        assert r.queue[i] == b.queue[i + 1];
      }
    }
    forall i, j | 0 <= i < j < |r.queue|
      ensures r.dist[r.queue[i]] <= r.dist[r.queue[j]]
    {
      if j < |popped.queue| {
        assert r.queue[i] == b.queue[i + 1] && r.queue[j] == b.queue[j + 1];
      }
    }
  }

  lemma TreeStep(net: Net, s: int, popped: Bfs, r: Bfs, u: int)
    requires Shape(net, popped) && Tree(net, s, popped) && Shape(net, r)
    requires 0 <= u < |popped.dist| && popped.dist[u] >= 0
    requires Grows(net, popped, r, u)
    ensures Tree(net, s, r)
  {
  }

  lemma DoneStep(net: Net, e: int, b: Bfs, popped: Bfs, r: Bfs, u: int, d: int)
    requires Shape(net, b) && 0 <= e < |net.stationLines| && Done(net, e, b) && Ordered(b)
    requires |b.queue| > 0 && u == b.queue[0] && d == b.dist[u] && u !in net.stationLines[e]
    requires popped == b.(queue := b.queue[1..]) && Shape(net, r)
    requires Grows(net, popped, r, u)
    requires forall sid, v :: Hop(net, u, v, sid) ==> v == u || (0 <= v < |r.dist| && r.dist[v] != -1)
    requires forall i :: 0 <= i < |b.queue| ==> d <= b.dist[b.queue[i]] <= d + 1
    requires forall i :: 0 <= i < |r.queue| ==> d <= r.dist[r.queue[i]] <= d + 1
    ensures Done(net, e, r)
  {
    forall w | Processed(r, w)
      ensures w !in net.stationLines[e] && Closed(net, r, w) && (|r.queue| > 0 ==> r.dist[w] <= r.dist[r.queue[0]])
    {
      assert b.dist[w] != -1;
      assert r.dist[w] == b.dist[w];
      if w == u {
        forall sid, v | Hop(net, u, v, sid)
          ensures 0 <= v < |r.dist| && r.dist[v] != -1 && r.dist[v] <= r.dist[u] + 1
        {
          if v != u && b.dist[v] != -1 {
            if v in b.queue {
              var k :| 0 <= k < |b.queue| && b.queue[k] == v;
            } else {
              assert Processed(b, v);
            }
          }
        }
      } else {
        forall k | 0 <= k < |b.queue|
          ensures b.queue[k] != w
        {
          if k > 0 {
            assert r.queue[k - 1] == popped.queue[k - 1] == b.queue[k];
          }
        }
        assert Processed(b, w);
        assert Closed(net, b, w);
      }
    }
  }

  /** Along any journey's lines, the search has labelled each line at most its position, or
      some earlier line is still waiting in the queue at most at its position. */
  lemma {:induction false} ChainBound(net: Net, s: int, e: int, b: Bfs, ls: seq<int>, ts: seq<int>, k: nat)
    requires Inv(net, s, e, b)
    requires |ls| >= 1 && |ts| == |ls| - 1 && ls[0] in net.stationLines[s]
    requires forall j :: 0 <= j < |ts| ==> Hop(net, ls[j], ls[j + 1], ts[j])
    requires k < |ls|
    ensures 0 <= ls[k] < |b.dist|
    ensures || (b.dist[ls[k]] != -1 && b.dist[ls[k]] <= k)
            || (exists i :: 0 <= i < k && ls[i] in b.queue && b.dist[ls[i]] <= i)
  {
    if k > 0 {
      ChainBound(net, s, e, b, ls, ts, k - 1);
      assert Hop(net, ls[k - 1], ls[k], ts[k - 1]);
      if b.dist[ls[k - 1]] != -1 && b.dist[ls[k - 1]] <= k - 1 && ls[k - 1] !in b.queue {
        assert Processed(b, ls[k - 1]);
        assert Closed(net, b, ls[k - 1]);
      }
    }
  }

  /** With an empty queue no journey exists: its last line would be a labelled goal line that
      left the queue, and the search stops at the first goal line it pops. */
  lemma NoJourney(net: Net, s: int, e: int, b: Bfs)
    requires Inv(net, s, e, b) && |b.queue| == 0
    ensures forall ls, ts :: !Journey(net, s, e, ls, ts)
  {
    forall ls, ts | Journey(net, s, e, ls, ts)
      ensures false
    {
      ChainBound(net, s, e, b, ls, ts, |ls| - 1);
      assert Processed(b, ls[|ls| - 1]);
    }
  }

  /** A labelled goal line is still queued: the search stops at the first goal line popped. */
  lemma GoalQueued(net: Net, e: int, b: Bfs, w: int)
    requires Shape(net, b) && 0 <= e < |net.stationLines| && Done(net, e, b)
    requires 0 <= w < |b.dist| && b.dist[w] != -1 && w in net.stationLines[e]
    ensures !Processed(b, w) && w in b.queue
  {
  }

  /** A queued line is no shallower than the front of the queue. */
  lemma QueuedDeeper(b: Bfs, x: int)
    requires forall i :: 0 <= i < |b.queue| ==> 0 <= b.queue[i] < |b.dist|
    requires Ordered(b) && x in b.queue
    ensures b.dist[b.queue[0]] <= b.dist[x]
  {
    var j :| 0 <= j < |b.queue| && b.queue[j] == x;
  }

  /** When goal line g is at the front of the queue, no journey makes fewer transfers than
      its depth. */
  lemma GoalOptimal(net: Net, s: int, e: int, b: Bfs, g: int)
    requires Inv(net, s, e, b) && |b.queue| > 0 && b.queue[0] == g
    ensures forall ls, ts :: Journey(net, s, e, ls, ts) ==> b.dist[g] <= |ls| - 1
  {
    forall ls, ts | Journey(net, s, e, ls, ts)
      ensures b.dist[g] <= |ls| - 1
    {
      var k := |ls| - 1;
      ChainBound(net, s, e, b, ls, ts, k);
      if b.dist[ls[k]] != -1 && b.dist[ls[k]] <= k {
        var w := ls[k];
        GoalQueued(net, e, b, w);
        QueuedDeeper(b, w);
      } else {
        var i :| 0 <= i < k && ls[i] in b.queue && b.dist[ls[i]] <= i;
        QueuedDeeper(b, ls[i]);
      }
    }
  }

  /** The walk of bus.cpp:117-123 from line cur back to a line through s: the lines visited
      and the transfer stations recorded, both in walking order. */
  function Walk(net: Net, s: int, b: Bfs, cur: int): (r: (seq<int>, seq<int>))
    requires Shape(net, b) && Tree(net, s, b) && 0 <= cur < |b.dist| && b.dist[cur] >= 0
    ensures |r.0| == b.dist[cur] + 1 && |r.1| == |r.0| - 1
    ensures r.0[0] == cur && r.0[|r.0| - 1] in net.stationLines[s]
    ensures forall k :: 0 <= k < |r.1| ==> Hop(net, r.0[k + 1], r.0[k], r.1[k])
    decreases b.dist[cur]
  {
    var ps := b.prevStation[cur];
    if b.prevLine[cur] == -1 then ([cur], [])
    else
      var rest := Walk(net, s, b, b.prevLine[cur]);
      ([cur] + rest.0, [ps] + rest.1)
  }

  /** Leg i of a journey runs on a line through both of its ends: s or the transfer station
      it boards at, and the transfer station or e it leaves at. */
  lemma LegOnLine(net: Net, s: int, e: int, ls: seq<int>, ts: seq<int>, i: int)
    requires NetOk(net) && Journey(net, s, e, ls, ts) && 0 <= i < |ls|
    ensures 0 <= ls[i] < |net.lines|
    ensures ([s] + ts)[i] in net.lines[ls[i]] && (ts + [e])[i] in net.lines[ls[i]]
  {
    if i > 0 {
      assert Hop(net, ls[i - 1], ls[i], ts[i - 1]);
    }
    if i < |ts| {
      assert Hop(net, ls[i], ls[i + 1], ts[i]);
    }
  }

  /** The stations ridden on the first n legs of a journey, one after another: leg i runs on
      line ls[i] from the last occurrence of its boarding station to the last occurrence of
      its leaving station, forwards or backwards. The joints are not merged. */
  function Ride(net: Net, s: int, e: int, ls: seq<int>, ts: seq<int>, n: nat): seq<int>
    requires NetOk(net) && Journey(net, s, e, ls, ts) && n <= |ls|
  {
    if n == 0 then []
    else
      LegOnLine(net, s, e, ls, ts, n - 1);
      var line := net.lines[ls[n - 1]];
      Ride(net, s, e, ls, ts, n - 1)
        + Stretch(line, LastIndex(line, ([s] + ts)[n - 1]), LastIndex(line, (ts + [e])[n - 1]))
  }

  /** The station sequence of a journey, built as bus.cpp:140-153 does: stretch i runs on
      line ls[i] from the i-th to the (i+1)-th of s, ts..., e (one stretch when there is a
      single line, otherwise first, middle and last stretches). It is the whole ride with
      each station that repeats its predecessor dropped, so it starts at s, ends at e and
      never repeats a station twice in a row. */
  method StationSeq(net: Net, s: int, e: int, ls: seq<int>, ts: seq<int>) returns (out: seq<int>)
    requires NetOk(net) && Journey(net, s, e, ls, ts)
    ensures out == Squash(Ride(net, s, e, ls, ts, |ls|))
    ensures |out| > 0 && out[0] == s && out[|out| - 1] == e && NoStutter(out)
  {
    var f, t := [s] + ts, ts + [e];
    out := [];
    for i := 0 to |ls|
      invariant i == 0 ==> out == []
      invariant i > 0 ==> |out| > 0 && out[0] == s && out[|out| - 1] == t[i - 1]
      invariant NoStutter(out)
      invariant out == AppendAll([], Ride(net, s, e, ls, ts, i))
    {
      LegOnLine(net, s, e, ls, ts, i);
      RideStep(net, s, e, ls, ts, i);
      out := Leg(net.lines[ls[i]], f[i], t[i], out);
    }
    RideSquashed(Ride(net, s, e, ls, ts, |ls|));
  }

  /** Riding leg i with appendSegment, after the first i legs were pushed, pushes the first
      i + 1 legs. */
  lemma RideStep(net: Net, s: int, e: int, ls: seq<int>, ts: seq<int>, i: nat)
    requires NetOk(net) && Journey(net, s, e, ls, ts) && i < |ls|
    requires 0 <= ls[i] < |net.lines|
    requires ([s] + ts)[i] in net.lines[ls[i]] && (ts + [e])[i] in net.lines[ls[i]]
    ensures Leg(net.lines[ls[i]], ([s] + ts)[i], (ts + [e])[i], AppendAll([], Ride(net, s, e, ls, ts, i)))
      == AppendAll([], Ride(net, s, e, ls, ts, i + 1))
  {
    var line := net.lines[ls[i]];
    var piece := Stretch(line, LastIndex(line, ([s] + ts)[i]), LastIndex(line, (ts + [e])[i]));
    assert Ride(net, s, e, ls, ts, i + 1) == Ride(net, s, e, ls, ts, i) + piece;
    AppendAllConcat([], Ride(net, s, e, ls, ts, i), piece);
  }

  /** Pushing a whole sequence onto nothing squashes it. */
  lemma RideSquashed(xs: seq<int>)
    ensures AppendAll([], xs) == Squash(xs)
  {
    AppendAllSquashes([], xs);
    assert [] + xs == xs;
  }

  /** appendSegment on a line through both stations: the sequence ends at `to`, keeps its
      first station (or starts at `from`), and gains no repeated neighbours. */
  function Leg(line: seq<int>, from: int, to: int, out: seq<int>): (r: seq<int>)
    requires from in line && to in line
    ensures |r| > 0 && r[|r| - 1] == to
    ensures r[0] == if |out| == 0 then from else out[0]
    ensures NoStutter(out) ==> NoStutter(r)
  {
    var res := AppendSegment(line, from, to, out);
    var piece := Stretch(line, LastIndex(line, from), LastIndex(line, to));
    assert res.1 == AppendAll(out, piece);
    AppendAllHead(out, piece);
    res.1
  }

  /** The walk back from a goal line, read backwards, is a journey from s to e. */
  lemma WalkBackwards(net: Net, s: int, e: int, walk: (seq<int>, seq<int>))
    requires 0 <= s < |net.stationLines| && 0 <= e < |net.stationLines|
    requires |walk.0| >= 1 && |walk.1| == |walk.0| - 1
    requires walk.0[0] in net.stationLines[e] && walk.0[|walk.0| - 1] in net.stationLines[s]
    requires forall k :: 0 <= k < |walk.1| ==> Hop(net, walk.0[k + 1], walk.0[k], walk.1[k])
    ensures Journey(net, s, e, Reverse(walk.0), Reverse(walk.1))
  {
    var ls, ts := Reverse(walk.0), Reverse(walk.1);
    assert ls[0] == walk.0[|walk.0| - 1] && ls[|ls| - 1] == walk.0[0];
    forall k | 0 <= k < |ts|
      ensures Hop(net, ls[k], ls[k + 1], ts[k])
    {
      var j := |ts| - 1 - k;
      assert ls[k] == walk.0[j + 1] && ls[k + 1] == walk.0[j] && ts[k] == walk.1[j];
    }
  }

  /** What solveMinTransfers reports: the transfer count, the lines ridden, the stations
      where it changes and the stations passed. */
  datatype Transfers = Transfers(transfers: int, lines: seq<int>, changes: seq<int>, stations: seq<int>)

  /** solveMinTransfers from station s to station e: no route exactly when no journey exists;
      otherwise a journey with the fewest transfers, the count being lineSeq.size() - 1, and
      the stations ridden along it from s to e. The transfer stations are reversed as a sequence, so a
      single-line journey with no transfer station is handled. */
  method SolveMinTransfers(net: Net, s: int, e: int) returns (r: Option<Transfers>)
    requires NetOk(net) && 0 <= s < |net.stationLines| && 0 <= e < |net.stationLines|
    ensures r.None? <==> forall ls, ts :: !Journey(net, s, e, ls, ts)
    ensures r.Some? ==>
      && Journey(net, s, e, r.value.lines, r.value.changes)
      && r.value.transfers == |r.value.lines| - 1
      && (forall ls, ts :: Journey(net, s, e, ls, ts) ==> r.value.transfers <= |ls| - 1)
      && |r.value.stations| > 0 && r.value.stations[0] == s
      && r.value.stations[|r.value.stations| - 1] == e && NoStutter(r.value.stations)
      && r.value.stations == Squash(Ride(net, s, e, r.value.lines, r.value.changes, |r.value.lines|))
  {
    var b0 := Seed(net, s);
    assert Inv(net, s, e, b0);
    match Search(net, s, e, b0)
    case None =>
      r := None;
    case Some((g, b)) =>
      GoalOptimal(net, s, e, b, g);
      var walk := Walk(net, s, b, g);
      WalkBackwards(net, s, e, walk);
      var ls := Reverse(walk.0);
      var ts := ReverseGuarded(walk.1).value;
      var stations := StationSeq(net, s, e, ls, ts);
      r := Some(Transfers(|ls| - 1, ls, ts, stations));
  }
}
