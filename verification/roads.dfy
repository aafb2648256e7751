/** The road-network program (graph.cpp, and its copy inside main.cpp of the same program):
    the undirected adjacency lists main builds from the edges it reads, the node-range check
    on each query, and buildPath, which walks back along the predecessor array the
    shortest-path search leaves. The search itself works on double weights and is not part
    of this model: its success flag and predecessor array enter as parameters. */
module Roads {
  import opened Wrappers
  import opened Segment
  import opened SeqUtil

  /** An edge as read (main.cpp:117-119): its endpoints and its attributes (length,
      congestion, lights), carried unexamined; the congestion clamp at main.cpp:121 is not
      modelled. */
  datatype Road<W> = Road(u: int, v: int, attrs: W)

  /** An adjacency entry: the far endpoint and the edge's attributes. */
  datatype Arc<W> = Arc(to: int, attrs: W)

  /** Both endpoints are nodes 1..N; main skips any other edge (main.cpp:120). */
  predicate Accepted<W>(N: int, e: Road<W>) {
    1 <= e.u <= N && 1 <= e.v <= N
  }

  /** What edge e adds to node x's list (main.cpp:122-123): the entry toward v on u's list
      and the entry toward u on v's list, with the same attributes; nothing for a skipped
      edge. A loop at x adds two entries to x's list. */
  function ArcsAt<W>(N: int, x: int, e: Road<W>): seq<Arc<W>> {
    if !Accepted(N, e) then []
    else (if e.u == x then [Arc(e.v, e.attrs)] else []) + (if e.v == x then [Arc(e.u, e.attrs)] else [])
  }

  /** Node x's list once the edges of `roads` are read in order. */
  function Incident<W>(N: int, x: int, roads: seq<Road<W>>): seq<Arc<W>> {
    if |roads| == 0 then []
    else Incident(N, x, roads[..|roads| - 1]) + ArcsAt(N, x, roads[|roads| - 1])
  }

  /** The reading loop of main.cpp:115-124 on nodes 1..N: lists 0..N, node x's list holding
      the entries of the accepted edges at x in reading order. None when N + 1 is negative,
      where constructing the vector throws. */
  method BuildGraph<W>(N: int, roads: seq<Road<W>>) returns (g: Option<seq<seq<Arc<W>>>>)
    ensures g.None? <==> N + 1 < 0
    ensures g.Some? ==> |g.value| == N + 1
    ensures g.Some? ==> forall x :: 0 <= x <= N ==> g.value[x] == Incident(N, x, roads)
  {
    if N + 1 < 0 {
      return None;
    }
    var adj: seq<seq<Arc<W>>> := seq(N + 1, _ => []);
    for i := 0 to |roads|
      invariant |adj| == N + 1
      invariant forall x :: 0 <= x <= N ==> adj[x] == Incident(N, x, roads[..i])
    {
      var e := roads[i];
      assert roads[..i + 1][..i] == roads[..i];
      if 1 <= e.u <= N && 1 <= e.v <= N {
        adj := adj[e.u := adj[e.u] + [Arc(e.v, e.attrs)]];
        adj := adj[e.v := adj[e.v] + [Arc(e.u, e.attrs)]];
      }
    }
    assert roads[..|roads|] == roads;
    return Some(adj);
  }

  /** Edge e puts entry a on x's list: it is accepted and a leads from x to its other end. */
  ghost predicate Contributes<W>(N: int, x: int, e: Road<W>, a: Arc<W>) {
    && Accepted(N, e)
    && ((e.u == x && a == Arc(e.v, e.attrs)) || (e.v == x && a == Arc(e.u, e.attrs)))
  }

  /** An entry is on x's list exactly when some edge read contributes it. */
  lemma {:induction false} IncidentFrom<W>(N: int, x: int, roads: seq<Road<W>>, a: Arc<W>)
    ensures a in Incident(N, x, roads) <==> exists i :: 0 <= i < |roads| && Contributes(N, x, roads[i], a)
    decreases |roads|
  {
    if |roads| > 0 {
      var init, e := roads[..|roads| - 1], roads[|roads| - 1];
      IncidentFrom(N, x, init, a);
      assert a in ArcsAt(N, x, e) <==> Contributes(N, x, e, a);
      if exists i :: 0 <= i < |roads| && Contributes(N, x, roads[i], a) {
        var i :| 0 <= i < |roads| && Contributes(N, x, roads[i], a);
        if i < |init| {
          assert init[i] == roads[i];
        }
      }
      if exists i :: 0 <= i < |init| && Contributes(N, x, init[i], a) {
        var i :| 0 <= i < |init| && Contributes(N, x, init[i], a);
        assert init[i] == roads[i];
      }
    }
  }

  /** Only nodes 1..N have entries, and every entry leads to a node 1..N. */
  lemma IncidentInRange<W>(N: int, x: int, roads: seq<Road<W>>, a: Arc<W>)
    ensures a in Incident(N, x, roads) ==> 1 <= x <= N && 1 <= a.to <= N
  {
    IncidentFrom(N, x, roads, a);
    if a in Incident(N, x, roads) {
      var i :| 0 <= i < |roads| && Contributes(N, x, roads[i], a);
    }
  }

  /** The lists are undirected: x's list holds an entry toward y with attributes w exactly as
      often as y's list holds one toward x with the same attributes. */
  lemma {:induction false} IncidentSymmetric<W>(N: int, roads: seq<Road<W>>, x: int, y: int, w: W)
    ensures multiset(Incident(N, x, roads))[Arc(y, w)] == multiset(Incident(N, y, roads))[Arc(x, w)]
    decreases |roads|
  {
    if |roads| > 0 {
      var init, e := roads[..|roads| - 1], roads[|roads| - 1];
      IncidentSymmetric(N, init, x, y, w);
      ArcsAtSymmetric(N, e, x, y, w);
      assert multiset(Incident(N, x, roads)) == multiset(Incident(N, x, init)) + multiset(ArcsAt(N, x, e));
      assert multiset(Incident(N, y, roads)) == multiset(Incident(N, y, init)) + multiset(ArcsAt(N, y, e));
    }
  }

  /** One edge adds an entry toward y at x as often as one toward x at y. */
  lemma ArcsAtSymmetric<W>(N: int, e: Road<W>, x: int, y: int, w: W)
    ensures multiset(ArcsAt(N, x, e))[Arc(y, w)] == multiset(ArcsAt(N, y, e))[Arc(x, w)]
  {
    var ux := if e.u == x then [Arc(e.v, e.attrs)] else [];
    var vx := if e.v == x then [Arc(e.u, e.attrs)] else [];
    var uy := if e.u == y then [Arc(e.v, e.attrs)] else [];
    var vy := if e.v == y then [Arc(e.u, e.attrs)] else [];
    if Accepted(N, e) {
      assert multiset(ArcsAt(N, x, e)) == multiset(ux) + multiset(vx);
      assert multiset(ArcsAt(N, y, e)) == multiset(uy) + multiset(vy);
      assert multiset(ux)[Arc(y, w)] == multiset(vy)[Arc(x, w)];
      assert multiset(vx)[Arc(y, w)] == multiset(uy)[Arc(x, w)];
    }
  }

  /** The walk from cur along prev meets s or -1 within k steps, reading prev only at
      indices it has. */
  predicate StopsWithin(s: int, prev: seq<int>, cur: int, k: nat)
    decreases k
  {
    cur == -1 || cur == s || (k > 0 && 0 <= cur < |prev| && StopsWithin(s, prev, prev[cur], k - 1))
  }

  /** The loop of graph.cpp:77-81: the nodes visited from cur, up to and including s, or up
      to the last node before -1. */
  function Walk(s: int, prev: seq<int>, cur: int, ghost k: nat): (r: seq<int>)
    requires StopsWithin(s, prev, cur, k)
    ensures |r| == 0 <==> cur == -1
    ensures |r| > 0 ==> r[0] == cur
    ensures forall i :: 0 <= i < |r| ==> r[i] != -1
    ensures forall i :: 0 <= i < |r| - 1 ==> r[i] != s && 0 <= r[i] < |prev| && r[i + 1] == prev[r[i]]
    ensures |r| > 0 && r[|r| - 1] != s ==> 0 <= r[|r| - 1] < |prev| && prev[r[|r| - 1]] == -1
    decreases k
  {
    if cur == -1 then []
    else if cur == s then [cur]
    else [cur] + Walk(s, prev, prev[cur], k - 1)
  }

  /** p follows the predecessor array: each node after the first has its predecessor just
      before it. */
  predicate Chain(prev: seq<int>, p: seq<int>) {
    forall i :: 0 < i < |p| ==> 0 <= p[i] < |prev| && prev[p[i]] == p[i - 1]
  }

  /** p runs from s to t along prev and meets s only at its start. */
  predicate PathFrom(s: int, t: int, prev: seq<int>, p: seq<int>) {
    && |p| > 0 && p[0] == s && p[|p| - 1] == t && Chain(prev, p)
    && forall i :: 0 < i < |p| ==> p[i] != s
  }

  /** buildPath (graph.cpp:74-89): the nodes from s to t along prev, or the empty sequence
      when the walk back from t reaches -1 before meeting s. The path is the only one from s
      to t along prev, and [s] when s == t. */
  function BuildPath(s: int, t: int, prev: seq<int>, ghost k: nat): (r: seq<int>)
    requires StopsWithin(s, prev, t, k)
    ensures r == [] || PathFrom(s, t, prev, r)
    ensures s != -1 ==> forall p :: PathFrom(s, t, prev, p) ==> p == r
    ensures s == t && t != -1 ==> r == [s]
  {
    var path := Walk(s, prev, t, k);
    PathsRetraced(s, t, prev, k);
    if |path| == 0 || path[|path| - 1] != s then []
    else Reverse(path)
  }

  /** Every path from s to t along prev is the walk back from t, read forwards. */
  lemma PathsRetraced(s: int, t: int, prev: seq<int>, k: nat)
    requires StopsWithin(s, prev, t, k)
    ensures s != -1 ==> forall p :: PathFrom(s, t, prev, p) ==> p == Reverse(Walk(s, prev, t, k))
  {
    if s != -1 {
      forall p | PathFrom(s, t, prev, p)
        ensures p == Reverse(Walk(s, prev, t, k))
      {
        WalkFollows(s, prev, p, k);
        ReverseTwice(p);
      }
    }
  }

  /** Reading a sequence backwards twice gives it back. */
  lemma ReverseTwice(p: seq<int>)
    ensures Reverse(Reverse(p)) == p
  {
  }

  /** The walk back from the end of a path along prev retraces the path. */
  lemma {:induction false} WalkFollows(s: int, prev: seq<int>, p: seq<int>, k: nat)
    requires s != -1 && |p| > 0 && PathFrom(s, p[|p| - 1], prev, p)
    requires StopsWithin(s, prev, p[|p| - 1], k)
    ensures Walk(s, prev, p[|p| - 1], k) == Reverse(p)
    decreases |p|
  {
    var n := |p| - 1;
    if n > 0 {
      var q := p[..n];
      assert PathFrom(s, q[|q| - 1], prev, q);
      WalkFollows(s, prev, q, k - 1);
      assert Reverse(p) == [p[n]] + Reverse(q);
    }
  }

  /** A predecessor array ranked downward, each predecessor ranked below its node, lets the
      walk from any node stop: within rank + 1 steps. */
  lemma {:induction false} RankedStops(s: int, prev: seq<int>, rank: seq<nat>, t: int)
    requires |rank| == |prev|
    requires forall v :: 0 <= v < |prev| && prev[v] != -1 ==> 0 <= prev[v] < |prev| && rank[prev[v]] < rank[v]
    requires t == -1 || 0 <= t < |prev|
    ensures StopsWithin(s, prev, t, if t == -1 then 0 else rank[t] + 1)
    decreases if t == -1 then 0 else rank[t] + 1
  {
    if t != -1 && t != s && prev[t] != -1 {
      RankedStops(s, prev, rank, prev[t]);
      StopsLater(s, prev, prev[t], rank[prev[t]] + 1, rank[t]);
    }
  }

  /** A walk that stops within k steps stops within any larger bound. */
  lemma {:induction false} StopsLater(s: int, prev: seq<int>, cur: int, k: nat, k': nat)
    requires StopsWithin(s, prev, cur, k) && k <= k'
    ensures StopsWithin(s, prev, cur, k')
    decreases k
  {
    if cur != -1 && cur != s {
      StopsLater(s, prev, prev[cur], k - 1, k' - 1);
    }
  }

  /** The answer to one query. */
  datatype Reply = InvalidNodes | NoPath | Route(mode: int, path: seq<int>)

  /** One query (main.cpp:128-158) of type `kind` from s to t on nodes 1..N, given what the
      search reports (found, and its predecessor array): "Invalid nodes", with no search, when
      s or t lies outside 1..N; otherwise the mode searched (1, weighted time, for type 2 and
      0, length, for any other type) and "No path" or the path buildPath rebuilds. */
  function Answer(N: int, kind: int, s: int, t: int, found: bool, prev: seq<int>, ghost k: nat): (r: Reply)
    requires 1 <= s <= N && 1 <= t <= N && found ==> StopsWithin(s, prev, t, k)
    ensures r == InvalidNodes <==> !(1 <= s <= N && 1 <= t <= N)
    ensures r == NoPath <==> 1 <= s <= N && 1 <= t <= N && !found
    ensures r.Route? ==> (r.mode == 1 <==> kind == 2) && (r.mode == 0 <==> kind != 2)
    ensures r.Route? ==> r.path == [] || PathFrom(s, t, prev, r.path)
    ensures r.Route? && s == t ==> r.path == [s]
  {
    if s < 1 || s > N || t < 1 || t > N then InvalidNodes
    else
      var mode := if kind == 2 then 1 else 0;
      if !found then NoPath else Route(mode, BuildPath(s, t, prev, k))
  }
}
