/** The search loop of solveWeighted (bus.cpp:204-261) on a graph of states with
    non-negative integer arc weights: a min-heap of (state, distance) entries from which stale
    entries are skipped, relaxation of every arc leaving the state taken, and a stop at the
    first goal state taken. The heap is a sequence from which an entry of least distance is
    removed; among several such entries std::priority_queue picks one the standard leaves
    unspecified, and the model picks the first. A distance of -1 stands for the source's
    INT_MAX, "not reached". */
module Dijkstra {
  import opened SeqUtil

  /** An arc to state `to` of weight w. */
  datatype Arc = Arc(to: int, w: int)

  /** A heap entry: a state and its distance when pushed (PQItem). */
  datatype Item = Item(node: int, d: int)

  /** Every arc leads to a state of the graph and weighs at least 0. */
  predicate GraphOk(g: seq<seq<Arc>>) {
    forall u, j :: 0 <= u < |g| && 0 <= j < |g[u]| ==> 0 <= g[u][j].to < |g| && g[u][j].w >= 0
  }

  /** A path from src: states ns, leaving ns[i] by arc es[i] of its list. */
  predicate IsPath(g: seq<seq<Arc>>, src: int, ns: seq<int>, es: seq<int>) {
    && |ns| == |es| + 1 && ns[0] == src
    && forall i :: 0 <= i < |es| ==>
      0 <= ns[i] < |g| && 0 <= es[i] < |g[ns[i]]| && g[ns[i]][es[i]].to == ns[i + 1]
  }

  /** The total weight of the arcs a path takes. */
  function Cost(g: seq<seq<Arc>>, ns: seq<int>, es: seq<int>): int
    requires |ns| == |es| + 1
    requires forall i :: 0 <= i < |es| ==> 0 <= ns[i] < |g| && 0 <= es[i] < |g[ns[i]]|
  {
    if |es| == 0 then 0
    else Cost(g, ns[..|ns| - 1], es[..|es| - 1]) + g[ns[|es| - 1]][es[|es| - 1]].w
  }

  /** Extending a path by one arc adds that arc's weight. */
  lemma CostSnoc(g: seq<seq<Arc>>, src: int, ns: seq<int>, es: seq<int>, j: int)
    requires IsPath(g, src, ns, es)
    requires 0 <= ns[|ns| - 1] < |g| && 0 <= j < |g[ns[|ns| - 1]]|
    ensures IsPath(g, src, ns + [g[ns[|ns| - 1]][j].to], es + [j])
    ensures Cost(g, ns + [g[ns[|ns| - 1]][j].to], es + [j]) == Cost(g, ns, es) + g[ns[|ns| - 1]][j].w
  {
    var ns', es' := ns + [g[ns[|ns| - 1]][j].to], es + [j];
    assert ns'[..|ns'| - 1] == ns && es'[..|es'| - 1] == es;
  }

  /** Dropping the last arc of a path leaves a path. */
  lemma PathInit(g: seq<seq<Arc>>, src: int, ns: seq<int>, es: seq<int>)
    requires IsPath(g, src, ns, es) && |es| > 0
    ensures IsPath(g, src, ns[..|ns| - 1], es[..|es| - 1])
    ensures Cost(g, ns, es) == Cost(g, ns[..|ns| - 1], es[..|es| - 1]) + g[ns[|es| - 1]][es[|es| - 1]].w
  {
  }

  /** The arc from u to v fixes v's distance: dist[v] is dist[u] plus its weight. */
  ghost predicate Via(g: seq<seq<Arc>>, dist: seq<int>, u: int, v: int)
    requires 0 <= u < |g| && 0 <= v < |g| && |dist| == |g|
  {
    exists j :: 0 <= j < |g[u]| && g[u][j].to == v && dist[v] == dist[u] + g[u][j].w
  }

  /** The distances are witnessed by the predecessor links: the source is at 0 with no
      predecessor, and every other reached state is reached from its predecessor, ranked below
      it, by an arc of the right weight. */
  ghost predicate Ranked(g: seq<seq<Arc>>, src: int, dist: seq<int>, prev: seq<int>, rank: seq<nat>) {
    && 0 <= src < |g| && |dist| == |g| && |prev| == |g| && |rank| == |g|
    && dist[src] == 0 && prev[src] == -1
    && (forall v :: 0 <= v < |g| ==> dist[v] >= -1)
    && forall v :: 0 <= v < |g| && v != src && dist[v] != -1 ==>
      && 0 <= prev[v] < |g| && dist[prev[v]] != -1 && rank[prev[v]] < rank[v]
      && Via(g, dist, prev[v], v)
  }

  /** The walk from cur along prev reaches -1 within k steps. */
  predicate Ends(prev: seq<int>, cur: int, k: nat)
    decreases k
  {
    cur == -1 || (k > 0 && 0 <= cur < |prev| && Ends(prev, prev[cur], k - 1))
  }

  /** The loop of bus.cpp:279-283: the states from cur back along prev. */
  function Trace(prev: seq<int>, cur: int, ghost k: nat): (r: seq<int>)
    requires Ends(prev, cur, k)
    ensures |r| == 0 <==> cur == -1
    decreases k
  {
    if cur == -1 then [] else [cur] + Trace(prev, prev[cur], k - 1)
  }

  /** From a reached state the walk back ends within rank + 1 steps. */
  lemma {:induction false} RankedEnds(g: seq<seq<Arc>>, src: int, dist: seq<int>, prev: seq<int>, rank: seq<nat>, v: int)
    requires Ranked(g, src, dist, prev, rank) && 0 <= v < |g| && dist[v] != -1
    ensures Ends(prev, v, rank[v] + 1)
    decreases rank[v]
  {
    if v != src {
      RankedEnds(g, src, dist, prev, rank, prev[v]);
      EndsLater(prev, prev[v], rank[prev[v]] + 1, rank[v]);
    }
  }

  /** A walk that ends within k steps ends within any larger bound. */
  lemma {:induction false} EndsLater(prev: seq<int>, cur: int, k: nat, k': nat)
    requires Ends(prev, cur, k) && k <= k'
    ensures Ends(prev, cur, k')
    decreases k
  {
    if cur != -1 {
      EndsLater(prev, prev[cur], k - 1, k' - 1);
    }
  }

  /** The walk back from a reached state v, read forwards, is a path from the source to v
      whose cost is dist[v]; the arcs it takes are returned. */
  lemma {:induction false} TracePath(g: seq<seq<Arc>>, src: int, dist: seq<int>, prev: seq<int>, rank: seq<nat>, v: int, k: nat)
    returns (es: seq<int>)
    requires Ranked(g, src, dist, prev, rank) && 0 <= v < |g| && dist[v] != -1 && Ends(prev, v, k)
    ensures IsPath(g, src, Reverse(Trace(prev, v, k)), es)
    ensures Reverse(Trace(prev, v, k))[|es|] == v
    ensures Cost(g, Reverse(Trace(prev, v, k)), es) == dist[v]
    decreases k
  {
    if v == src {
      es := [];
      assert Trace(prev, v, k) == [v] + Trace(prev, -1, k - 1);
    } else {
      var u := prev[v];
      var es0 := TracePath(g, src, dist, prev, rank, u, k - 1);
      var ns0 := Reverse(Trace(prev, u, k - 1));
      var j :| 0 <= j < |g[u]| && g[u][j].to == v && dist[v] == dist[u] + g[u][j].w;
      CostSnoc(g, src, ns0, es0, j);
      es := es0 + [j];
      assert Reverse(Trace(prev, v, k)) == ns0 + [v];
    }
  }

  /** Reached states carry their distance; a state whose entries all left the heap has at
      most its arcs' worth further on; no two entries of one state carry the same distance. */
  ghost predicate HeapOk(g: seq<seq<Arc>>, dist: seq<int>, pq: seq<Item>, done: set<int>)
    requires |dist| == |g|
  {
    && (forall i :: 0 <= i < |pq| ==> 0 <= pq[i].node < |g| && dist[pq[i].node] != -1 && dist[pq[i].node] <= pq[i].d)
    && (forall i :: 0 <= i < |pq| && pq[i].node in done ==> dist[pq[i].node] < pq[i].d)
    && (forall i, j :: 0 <= i < j < |pq| && pq[i].node == pq[j].node ==> pq[i].d != pq[j].d)
  }

  /** Every reached state not yet settled has an entry carrying its distance. */
  ghost predicate Frontier(g: seq<seq<Arc>>, dist: seq<int>, pq: seq<Item>, done: set<int>)
    requires |dist| == |g|
  {
    forall v :: 0 <= v < |g| && dist[v] != -1 && v !in done ==> Item(v, dist[v]) in pq
  }

  /** Settled states are no farther than any entry in the heap. */
  ghost predicate Below(dist: seq<int>, pq: seq<Item>, done: set<int>)
    requires forall v :: v in done ==> 0 <= v < |dist|
  {
    forall v, i :: v in done && 0 <= i < |pq| ==> dist[v] <= pq[i].d
  }

  /** Every arc leaving a settled state has been relaxed. */
  ghost predicate Closed(g: seq<seq<Arc>>, dist: seq<int>, done: set<int>)
    requires |dist| == |g| && forall v :: v in done ==> 0 <= v < |g|
  {
    forall u, j :: u in done && 0 <= j < |g[u]| ==>
      0 <= g[u][j].to < |g| && dist[g[u][j].to] != -1 && dist[g[u][j].to] <= dist[u] + g[u][j].w
  }

  /** Settled states carry their least distance: no path to them costs less. */
  ghost predicate Optimal(g: seq<seq<Arc>>, src: int, dist: seq<int>, done: set<int>)
    requires |dist| == |g|
  {
    forall ns, es :: IsPath(g, src, ns, es) && ns[|ns| - 1] in done ==> 0 <= ns[|ns| - 1] < |g| && dist[ns[|ns| - 1]] <= Cost(g, ns, es)
  }

  /** The loop invariant while no goal state has been taken: the settled states are those
      taken from the heap so far (ranked below t), none is a goal, each is reached. */
  ghost predicate Inv(g: seq<seq<Arc>>, src: int, goal: seq<bool>, dist: seq<int>, prev: seq<int>,
                      pq: seq<Item>, done: set<int>, rank: seq<nat>, t: nat) {
    && GraphOk(g) && |goal| == |g| && Ranked(g, src, dist, prev, rank)
    && (forall v :: v in done ==> 0 <= v < |g| && dist[v] != -1 && !goal[v] && rank[v] < t)
    && (forall v :: 0 <= v < |g| && v != src && dist[v] != -1 ==> prev[v] in done)
    && HeapOk(g, dist, pq, done) && Frontier(g, dist, pq, done) && Below(dist, pq, done)
    && Closed(g, dist, done) && Optimal(g, src, dist, done)
  }

  /** The stop at goal state `found`: it is reached, no reached goal is nearer, and no path
      to a goal costs less than its distance. */
  ghost predicate Stopped(g: seq<seq<Arc>>, src: int, goal: seq<bool>, dist: seq<int>, found: int)
    requires |goal| == |g| && |dist| == |g|
  {
    && 0 <= found < |g| && goal[found] && dist[found] != -1
    && (forall v :: 0 <= v < |g| && goal[v] && dist[v] != -1 ==> dist[found] <= dist[v])
    && (forall ns, es :: IsPath(g, src, ns, es) && 0 <= ns[|ns| - 1] < |g| && goal[ns[|ns| - 1]] ==>
          dist[found] <= Cost(g, ns, es))
  }

  /** No goal state is reached and no path leads to one. */
  ghost predicate Unreachable(g: seq<seq<Arc>>, src: int, goal: seq<bool>, dist: seq<int>)
    requires |goal| == |g| && |dist| == |g|
  {
    && (forall v :: 0 <= v < |g| && goal[v] ==> dist[v] == -1)
    && (forall ns, es :: IsPath(g, src, ns, es) ==> 0 <= ns[|ns| - 1] < |g| && !goal[ns[|ns| - 1]])
  }

  /** The first entry of least distance. */
  function MinIndex(pq: seq<Item>): (k: nat)
    requires |pq| > 0
    ensures k < |pq| && forall i :: 0 <= i < |pq| ==> pq[k].d <= pq[i].d
  {
    if |pq| == 1 then 0
    else
      var k := MinIndex(pq[..|pq| - 1]);
      if pq[|pq| - 1].d < pq[k].d then |pq| - 1 else k
  }

  /** The search from src (bus.cpp:205-261) with goal states marked: found is the goal state
      at which it stops, or -1 when the heap runs dry; then no goal is reachable at all. On a
      stop, no path to any goal costs less than dist[found] and no reached goal is nearer.
      The distances are witnessed by the predecessor links, ranked so that the walk back
      along them ends. */
  method Search(g: seq<seq<Arc>>, src: int, goal: seq<bool>) returns (dist: seq<int>, prev: seq<int>, found: int, ghost rank: seq<nat>)
    requires GraphOk(g) && 0 <= src < |g| && |goal| == |g|
    ensures Ranked(g, src, dist, prev, rank)
    ensures found == -1 ==> Unreachable(g, src, goal, dist)
    ensures found != -1 ==> Stopped(g, src, goal, dist, found)
  {
    dist := seq(|g|, v => if v == src then 0 else -1);
    prev := seq(|g|, _ => -1);
    rank := seq(|g|, _ => 0);
    var pq := [Item(src, 0)];
    ghost var done: set<int> := {};
    ghost var t: nat := 0;
    found := -1;
    InitOk(g, src, goal, dist, prev, pq, rank);
    while |pq| > 0 && found == -1
      invariant found == -1 ==> Inv(g, src, goal, dist, prev, pq, done, rank, t)
      invariant found != -1 ==> Ranked(g, src, dist, prev, rank) && Stopped(g, src, goal, dist, found)
      decreases Unsettled(g, done), |pq|
    {
      dist, prev, pq, found, done, rank, t := Round(g, src, goal, dist, prev, pq, done, rank, t);
    }
    if found == -1 {
      DryOk(g, src, goal, dist, prev, pq, done, rank, t);
    }
  }

  /** The states not yet settled. */
  function Unsettled(g: seq<seq<Arc>>, done: set<int>): (r: set<int>)
    ensures forall v :: v in r <==> 0 <= v < |g| && v !in done
  {
    set v | 0 <= v < |g| && v !in done
  }

  /** One round of the loop at bus.cpp:212-261: an entry of least distance is popped; a
      stale one is skipped; a goal state stops the search; any other state is settled and its
      arcs relaxed. Either a state is settled or the heap shrinks. */
  method Round(g: seq<seq<Arc>>, src: int, goal: seq<bool>, dist: seq<int>, prev: seq<int>, pq: seq<Item>,
               ghost done: set<int>, ghost rank: seq<nat>, ghost t: nat)
    returns (dist': seq<int>, prev': seq<int>, pq': seq<Item>, found: int,
             ghost done': set<int>, ghost rank': seq<nat>, ghost t': nat)
    requires Inv(g, src, goal, dist, prev, pq, done, rank, t) && |pq| > 0
    ensures found == -1 ==> Inv(g, src, goal, dist', prev', pq', done', rank', t')
    ensures found != -1 ==> Ranked(g, src, dist', prev', rank') && Stopped(g, src, goal, dist', found)
    ensures Unsettled(g, done') < Unsettled(g, done) || (done' == done && |pq'| < |pq|)
  {
    var k := MinIndex(pq);
    var cur := pq[k];
    var u := cur.node;
    var rest := RemoveAt(pq, k);
    dist', prev', done', rank', t' := dist, prev, done, rank, t;
    found := -1;
    if cur.d != dist[u] {
      StaleOk(g, src, goal, dist, prev, pq, done, rank, t, k);
      pq' := rest;
    } else if goal[u] {
      StopOk(g, src, goal, dist, prev, pq, done, rank, t, k);
      pq' := rest;
      found := u;
    } else {
      dist', prev', pq', rank' := Settle(g, src, goal, dist, prev, pq, done, rank, t, k);
      done', t' := done + {u}, t + 1;
      Shrinks(g, done, u);
    }
  }

  /** Settling a state not settled before leaves fewer unsettled states. */
  lemma Shrinks(g: seq<seq<Arc>>, done: set<int>, u: int)
    requires 0 <= u < |g| && u !in done
    ensures Unsettled(g, done + {u}) < Unsettled(g, done)
  {
    assert u in Unsettled(g, done) - Unsettled(g, done + {u});
  }

  /** The last branch of a round: the state of the entry at k, neither stale nor a goal, is
      settled at rank t and its arcs are relaxed, the entry gone from the heap. */
  method Settle(g: seq<seq<Arc>>, src: int, goal: seq<bool>, dist: seq<int>, prev: seq<int>, pq: seq<Item>,
                ghost done: set<int>, ghost rank: seq<nat>, ghost t: nat, k: nat)
    returns (dist': seq<int>, prev': seq<int>, pq': seq<Item>, ghost rank': seq<nat>)
    requires Inv(g, src, goal, dist, prev, pq, done, rank, t) && k < |pq|
    requires forall i :: 0 <= i < |pq| ==> pq[k].d <= pq[i].d
    requires pq[k].d == dist[pq[k].node] && !goal[pq[k].node]
    ensures pq[k].node !in done
    ensures Inv(g, src, goal, dist', prev', pq', done + {pq[k].node}, rank', t + 1)
  {
    var u := pq[k].node;
    ghost var rank1;
    dist', prev', pq', rank1 := Relax(g, u, dist, prev, RemoveAt(pq, k), rank, t);
    TakeOk(g, src, goal, dist, prev, pq, done, rank, t, k, dist', prev', pq', rank1);
    rank' := rank1[u := t];
  }

  /** The state before the first round. */
  lemma InitOk(g: seq<seq<Arc>>, src: int, goal: seq<bool>, dist: seq<int>, prev: seq<int>, pq: seq<Item>, rank: seq<nat>)
    requires GraphOk(g) && 0 <= src < |g| && |goal| == |g|
    requires dist == seq(|g|, v => if v == src then 0 else -1) && prev == seq(|g|, _ => -1)
    requires rank == seq(|g|, _ => 0) && pq == [Item(src, 0)]
    ensures Inv(g, src, goal, dist, prev, pq, {}, rank, 0)
  {
  }

  /** dist' improves on dist at v: v is reached now and was not before, or was farther. */
  predicate Improved(dist: seq<int>, dist': seq<int>, v: int)
    requires 0 <= v < |dist| == |dist'|
  {
    dist'[v] != -1 && (dist[v] == -1 || dist'[v] < dist[v])
  }

  /** An entry pushed while relaxing the arcs of a state at distance du: its state was
      improved, the entry is no nearer than that state's new distance nor than du, and nearer
      than the state was before. */
  predicate Pushed(dist: seq<int>, dist': seq<int>, du: int, it: Item)
    requires |dist| == |dist'|
  {
    && 0 <= it.node < |dist| && Improved(dist, dist', it.node)
    && dist'[it.node] <= it.d && du <= it.d
    && (dist[it.node] == -1 || it.d < dist[it.node])
  }

  /** What relaxing the first n arcs of u does (bus.cpp:224-260): each of those arcs' targets
      ends no farther than dist[u] plus the arc's weight; a state improved gets u as
      predecessor, an arc from u that accounts for its new distance and an entry carrying that
      distance; every other state is left as it was; the heap only grows, by entries of
      improved states, pushed at ever smaller distances for any one state. */
  ghost predicate RelaxedUpTo(g: seq<seq<Arc>>, u: int, n: nat, dist: seq<int>, prev: seq<int>, pq: seq<Item>,
                              rank: seq<nat>, t: nat, dist': seq<int>, prev': seq<int>, pq': seq<Item>, rank': seq<nat>)
    requires 0 <= u < |g| && |dist| == |g| && n <= |g[u]|
  {
    && |dist'| == |g| && |prev| == |g| && |prev'| == |g| && |rank| == |g| && |rank'| == |g|
    && (forall v :: 0 <= v < |g| ==> dist'[v] >= -1)
    && (forall j :: 0 <= j < n ==>
          0 <= g[u][j].to < |g| && dist'[g[u][j].to] != -1 && dist'[g[u][j].to] <= dist[u] + g[u][j].w)
    && (forall v :: 0 <= v < |g| && !Improved(dist, dist', v) ==>
          dist'[v] == dist[v] && prev'[v] == prev[v] && rank'[v] == rank[v])
    && pq <= pq'
    && (forall v :: 0 <= v < |g| && Improved(dist, dist', v) ==>
          && prev'[v] == u && rank'[v] == t + 1 && dist[u] <= dist'[v]
          && Via(g, dist', u, v) && Item(v, dist'[v]) in pq'[|pq|..])
    && (forall i :: |pq| <= i < |pq'| ==> Pushed(dist, dist', dist[u], pq'[i]))
    && (forall i, j :: |pq| <= i < j < |pq'| && pq'[i].node == pq'[j].node ==> pq'[j].d < pq'[i].d)
  }

  /** What relaxing every arc of u does. */
  ghost predicate Relaxed(g: seq<seq<Arc>>, u: int, dist: seq<int>, prev: seq<int>, pq: seq<Item>, rank: seq<nat>, t: nat,
                          dist': seq<int>, prev': seq<int>, pq': seq<Item>, rank': seq<nat>)
    requires 0 <= u < |g| && |dist| == |g|
  {
    RelaxedUpTo(g, u, |g[u]|, dist, prev, pq, rank, t, dist', prev', pq', rank')
  }

  /** The relaxation of the arcs of u, in list order (bus.cpp:224-260): an arc to v whose
      end would be nearer than dist[v], or reaches v for the first time, sets dist[v] and
      prev[v] and pushes an entry for v. The rank of an improved state is put above t. */
  method Relax(g: seq<seq<Arc>>, u: int, dist: seq<int>, prev: seq<int>, pq: seq<Item>, ghost rank: seq<nat>, ghost t: nat)
    returns (dist': seq<int>, prev': seq<int>, pq': seq<Item>, ghost rank': seq<nat>)
    requires GraphOk(g) && 0 <= u < |g| && |dist| == |g| && |prev| == |g| && |rank| == |g|
    requires dist[u] >= 0 && forall v :: 0 <= v < |g| ==> dist[v] >= -1
    ensures Relaxed(g, u, dist, prev, pq, rank, t, dist', prev', pq', rank')
  {
    dist', prev', pq', rank' := dist, prev, pq, rank;
    for j := 0 to |g[u]|
      invariant RelaxedUpTo(g, u, j, dist, prev, pq, rank, t, dist', prev', pq', rank')
    {
      var a := g[u][j];
      if dist'[a.to] == -1 || dist[u] + a.w < dist'[a.to] {
        var d := dist[u] + a.w;
        ghost var dist0, prev0, pq0, rank0 := dist', prev', pq', rank';
        dist', prev', rank' := dist'[a.to := d], prev'[a.to := u], rank'[a.to := t + 1];
        pq' := pq' + [Item(a.to, d)];
        RelaxImproves(g, u, j, dist, prev, pq, rank, t, dist0, prev0, pq0, rank0, dist', prev', pq', rank');
      } else {
        RelaxSkips(g, u, j, dist, prev, pq, rank, t, dist', prev', pq', rank');
      }
    }
  }

  /** An arc that would not bring its target nearer changes nothing. */
  lemma RelaxSkips(g: seq<seq<Arc>>, u: int, j: nat, dist: seq<int>, prev: seq<int>, pq: seq<Item>, rank: seq<nat>, t: nat,
                   dist': seq<int>, prev': seq<int>, pq': seq<Item>, rank': seq<nat>)
    requires GraphOk(g) && 0 <= u < |g| && |dist| == |g| && j < |g[u]|
    requires RelaxedUpTo(g, u, j, dist, prev, pq, rank, t, dist', prev', pq', rank')
    requires dist'[g[u][j].to] != -1 && dist'[g[u][j].to] <= dist[u] + g[u][j].w
    ensures RelaxedUpTo(g, u, j + 1, dist, prev, pq, rank, t, dist', prev', pq', rank')
  {
  }

  /** The update of the arc j of u to v, from the state dist', prev', pq', rank' to the state
      dist2, prev2, pq2, rank2: v moves to dist[u] plus the arc's weight, with u as
      predecessor and one more entry. */
  ghost predicate Update(g: seq<seq<Arc>>, u: int, j: nat, dist: seq<int>, t: nat,
                         dist': seq<int>, prev': seq<int>, pq': seq<Item>, rank': seq<nat>,
                         dist2: seq<int>, prev2: seq<int>, pq2: seq<Item>, rank2: seq<nat>)
    requires 0 <= u < |g| && |dist| == |g| && j < |g[u]|
  {
    var v, d := g[u][j].to, dist[u] + g[u][j].w;
    && 0 <= v < |dist'| && 0 <= v < |prev'| && 0 <= v < |rank'|
    && (dist'[v] == -1 || d < dist'[v])
    && dist2 == dist'[v := d] && prev2 == prev'[v := u] && rank2 == rank'[v := t + 1]
    && pq2 == pq' + [Item(v, d)]
  }

  /** An arc that brings its target nearer, or reaches it first, keeps the relaxation facts. */
  lemma RelaxImproves(g: seq<seq<Arc>>, u: int, j: nat, dist: seq<int>, prev: seq<int>, pq: seq<Item>, rank: seq<nat>, t: nat,
                      dist': seq<int>, prev': seq<int>, pq': seq<Item>, rank': seq<nat>,
                      dist2: seq<int>, prev2: seq<int>, pq2: seq<Item>, rank2: seq<nat>)
    requires GraphOk(g) && 0 <= u < |g| && |dist| == |g| && j < |g[u]| && dist[u] >= 0
    requires RelaxedUpTo(g, u, j, dist, prev, pq, rank, t, dist', prev', pq', rank')
    requires Update(g, u, j, dist, t, dist', prev', pq', rank', dist2, prev2, pq2, rank2)
    ensures RelaxedUpTo(g, u, j + 1, dist, prev, pq, rank, t, dist2, prev2, pq2, rank2)
  {
    RelaxImprovesLinks(g, u, j, dist, prev, pq, rank, t, dist', prev', pq', rank', dist2, prev2, pq2, rank2);
    RelaxImprovesPushed(g, u, j, dist, prev, pq, rank, t, dist', prev', pq', rank', dist2, prev2, pq2, rank2);
    RelaxImprovesArcs(g, u, j, dist, prev, pq, rank, t, dist', prev', pq', rank', dist2, prev2, pq2, rank2);
  }

  /** The arcs relaxed so far, and the states not improved, after the update. */
  lemma RelaxImprovesArcs(g: seq<seq<Arc>>, u: int, j: nat, dist: seq<int>, prev: seq<int>, pq: seq<Item>, rank: seq<nat>, t: nat,
                          dist': seq<int>, prev': seq<int>, pq': seq<Item>, rank': seq<nat>,
                          dist2: seq<int>, prev2: seq<int>, pq2: seq<Item>, rank2: seq<nat>)
    requires GraphOk(g) && 0 <= u < |g| && |dist| == |g| && j < |g[u]| && dist[u] >= 0
    requires RelaxedUpTo(g, u, j, dist, prev, pq, rank, t, dist', prev', pq', rank')
    requires Update(g, u, j, dist, t, dist', prev', pq', rank', dist2, prev2, pq2, rank2)
    ensures |dist2| == |g| && |prev2| == |g| && |rank2| == |g|
    ensures forall v :: 0 <= v < |g| ==> dist2[v] >= -1
    ensures forall j0 :: 0 <= j0 <= j ==>
      0 <= g[u][j0].to < |g| && dist2[g[u][j0].to] != -1 && dist2[g[u][j0].to] <= dist[u] + g[u][j0].w
    ensures forall v :: 0 <= v < |g| && !Improved(dist, dist2, v) ==>
      dist2[v] == dist[v] && prev2[v] == prev[v] && rank2[v] == rank[v]
  {
  }

  /** The improved states' links and entries after the update. */
  lemma RelaxImprovesLinks(g: seq<seq<Arc>>, u: int, j: nat, dist: seq<int>, prev: seq<int>, pq: seq<Item>, rank: seq<nat>, t: nat,
                           dist': seq<int>, prev': seq<int>, pq': seq<Item>, rank': seq<nat>,
                           dist2: seq<int>, prev2: seq<int>, pq2: seq<Item>, rank2: seq<nat>)
    requires GraphOk(g) && 0 <= u < |g| && |dist| == |g| && j < |g[u]| && dist[u] >= 0
    requires RelaxedUpTo(g, u, j, dist, prev, pq, rank, t, dist', prev', pq', rank')
    requires Update(g, u, j, dist, t, dist', prev', pq', rank', dist2, prev2, pq2, rank2)
    ensures |dist2| == |g| && pq <= pq2
    ensures forall x :: 0 <= x < |g| && Improved(dist, dist2, x) ==>
      && prev2[x] == u && rank2[x] == t + 1 && dist[u] <= dist2[x]
      && Via(g, dist2, u, x) && Item(x, dist2[x]) in pq2[|pq|..]
  {
    var v := g[u][j].to;
    assert !Improved(dist, dist', u);
    forall x | 0 <= x < |g| && Improved(dist, dist2, x)
      ensures Via(g, dist2, u, x) && Item(x, dist2[x]) in pq2[|pq|..]
    {
      if x == v {
        assert g[u][j].to == x && dist2[x] == dist2[u] + g[u][j].w;
        assert pq2[|pq2| - 1] == Item(x, dist2[x]);
      } else {
        assert Improved(dist, dist', x);
        var j1 :| 0 <= j1 < |g[u]| && g[u][j1].to == x && dist'[x] == dist'[u] + g[u][j1].w;
        assert g[u][j1].to == x && dist2[x] == dist2[u] + g[u][j1].w;
        assert pq'[|pq|..] <= pq2[|pq|..];
      }
    }
  }

  /** The entries pushed so far after the update. */
  lemma RelaxImprovesPushed(g: seq<seq<Arc>>, u: int, j: nat, dist: seq<int>, prev: seq<int>, pq: seq<Item>, rank: seq<nat>, t: nat,
                            dist': seq<int>, prev': seq<int>, pq': seq<Item>, rank': seq<nat>,
                            dist2: seq<int>, prev2: seq<int>, pq2: seq<Item>, rank2: seq<nat>)
    requires GraphOk(g) && 0 <= u < |g| && |dist| == |g| && j < |g[u]| && dist[u] >= 0
    requires RelaxedUpTo(g, u, j, dist, prev, pq, rank, t, dist', prev', pq', rank')
    requires Update(g, u, j, dist, t, dist', prev', pq', rank', dist2, prev2, pq2, rank2)
    ensures |dist2| == |g| && |pq| <= |pq2|
    ensures forall i :: |pq| <= i < |pq2| ==> Pushed(dist, dist2, dist[u], pq2[i])
    ensures forall i, i2 :: |pq| <= i < i2 < |pq2| && pq2[i].node == pq2[i2].node ==> pq2[i2].d < pq2[i].d
  {
    forall i | |pq| <= i < |pq2| ensures Pushed(dist, dist2, dist[u], pq2[i]) {
      if i < |pq'| {
        assert Pushed(dist, dist', dist[u], pq'[i]);
      }
    }
    forall i, i2 | |pq| <= i < i2 < |pq2| && pq2[i].node == pq2[i2].node ensures pq2[i2].d < pq2[i].d {
      if i2 == |pq'| {
        assert Pushed(dist, dist', dist[u], pq'[i]);
      }
    }
  }

  /** Skipping a stale entry, one whose distance is no longer its state's (bus.cpp:216),
      keeps the invariant. */
  lemma StaleOk(g: seq<seq<Arc>>, src: int, goal: seq<bool>, dist: seq<int>, prev: seq<int>,
                pq: seq<Item>, done: set<int>, rank: seq<nat>, t: nat, k: nat)
    requires Inv(g, src, goal, dist, prev, pq, done, rank, t) && k < |pq|
    requires pq[k].d != dist[pq[k].node]
    ensures Inv(g, src, goal, dist, prev, RemoveAt(pq, k), done, rank, t)
  {
    var r := RemoveAt(pq, k);
    HeapOkRemove(g, dist, pq, done, k);
    forall v | 0 <= v < |g| && dist[v] != -1 && v !in done ensures Item(v, dist[v]) in r {
      RemoveAtKeeps(pq, k, Item(v, dist[v]));
    }
  }

  /** Removing an entry keeps HeapOk. */
  lemma HeapOkRemove(g: seq<seq<Arc>>, dist: seq<int>, pq: seq<Item>, done: set<int>, k: nat)
    requires |dist| == |g| && HeapOk(g, dist, pq, done) && k < |pq|
    ensures HeapOk(g, dist, RemoveAt(pq, k), done)
  {
    var r := RemoveAt(pq, k);
    forall i, j | 0 <= i < j < |r| && r[i].node == r[j].node ensures r[i].d != r[j].d {
      var i', j' := if i < k then i else i + 1, if j < k then j else j + 1;
      assert r[i] == pq[i'] && r[j] == pq[j'] && i' < j';
    }
  }

  /** The stop at a goal entry that is not stale (bus.cpp:221): every entry of the heap is
      at least as far, so no goal is nearer, reached or not. */
  lemma StopOk(g: seq<seq<Arc>>, src: int, goal: seq<bool>, dist: seq<int>, prev: seq<int>,
               pq: seq<Item>, done: set<int>, rank: seq<nat>, t: nat, k: nat)
    requires Inv(g, src, goal, dist, prev, pq, done, rank, t) && k < |pq|
    requires forall i :: 0 <= i < |pq| ==> pq[k].d <= pq[i].d
    requires pq[k].d == dist[pq[k].node] && goal[pq[k].node]
    ensures Stopped(g, src, goal, dist, pq[k].node)
  {
    var u := pq[k].node;
    forall v | 0 <= v < |g| && goal[v] && dist[v] != -1 ensures dist[u] <= dist[v] {
      assert Item(v, dist[v]) in pq;
    }
    forall ns, es | IsPath(g, src, ns, es) && 0 <= ns[|ns| - 1] < |g| && goal[ns[|ns| - 1]]
      ensures dist[u] <= Cost(g, ns, es)
    {
      FrontierBound(g, src, dist, pq, done, pq[k].d, ns, es);
    }
  }

  /** A path that ends at a state not yet settled costs at least dmin, when every entry of
      the heap is at least dmin: it leaves the settled states somewhere, and the state it
      enters there has an entry carrying a distance no greater than the path's cost so far. */
  lemma {:induction false} FrontierBound(g: seq<seq<Arc>>, src: int, dist: seq<int>, pq: seq<Item>,
                                         done: set<int>, dmin: int, ns: seq<int>, es: seq<int>)
    requires GraphOk(g) && 0 <= src < |g| && |dist| == |g| && dist[src] == 0
    requires forall v :: v in done ==> 0 <= v < |g| && dist[v] != -1
    requires Frontier(g, dist, pq, done) && Closed(g, dist, done) && Optimal(g, src, dist, done)
    requires forall i :: 0 <= i < |pq| ==> dmin <= pq[i].d
    requires IsPath(g, src, ns, es) && 0 <= ns[|ns| - 1] < |g| && ns[|ns| - 1] !in done
    ensures dmin <= Cost(g, ns, es)
    decreases |es|
  {
    if |es| == 0 {
      assert Item(src, 0) in pq;
    } else {
      var p, j := ns[|es| - 1], es[|es| - 1];
      var ns0, es0 := ns[..|ns| - 1], es[..|es| - 1];
      PathInit(g, src, ns, es);
      if p in done {
        var v := g[p][j].to;
        assert Item(v, dist[v]) in pq;
      } else {
        FrontierBound(g, src, dist, pq, done, dmin, ns0, es0);
      }
    }
  }

  /** One round that takes a goal-free entry which is not stale and relaxes its arcs. */
  ghost predicate Step(g: seq<seq<Arc>>, src: int, goal: seq<bool>, dist: seq<int>, prev: seq<int>,
                       pq: seq<Item>, done: set<int>, rank: seq<nat>, t: nat, k: nat,
                       dist': seq<int>, prev': seq<int>, pq': seq<Item>, rank': seq<nat>)
  {
    && Inv(g, src, goal, dist, prev, pq, done, rank, t)
    && k < |pq| && (forall i :: 0 <= i < |pq| ==> pq[k].d <= pq[i].d)
    && pq[k].d == dist[pq[k].node] && !goal[pq[k].node]
    && Relaxed(g, pq[k].node, dist, prev, RemoveAt(pq, k), rank, t, dist', prev', pq', rank')
  }

  /** In such a round the state taken was not settled, and neither it, nor a settled state,
      nor the source is improved; no reached state moves away. */
  lemma StepFacts(g: seq<seq<Arc>>, src: int, goal: seq<bool>, dist: seq<int>, prev: seq<int>,
                  pq: seq<Item>, done: set<int>, rank: seq<nat>, t: nat, k: nat,
                  dist': seq<int>, prev': seq<int>, pq': seq<Item>, rank': seq<nat>)
    requires Step(g, src, goal, dist, prev, pq, done, rank, t, k, dist', prev', pq', rank')
    ensures pq[k].node !in done
    ensures forall v :: 0 <= v < |g| && (v in done || v == pq[k].node || v == src) ==>
      dist'[v] == dist[v] && prev'[v] == prev[v] && rank'[v] == rank[v]
    ensures forall v :: 0 <= v < |g| && dist[v] != -1 ==> dist'[v] != -1 && dist'[v] <= dist[v]
  {
    var u := pq[k].node;
    forall v | 0 <= v < |g| && (v in done || v == u || v == src) ensures !Improved(dist, dist', v) {
      if v in done {
        assert dist[v] <= pq[k].d;
      }
    }
  }

  /** The links stay ranked and point into the settled states, which now include u. */
  lemma StepRanked(g: seq<seq<Arc>>, src: int, goal: seq<bool>, dist: seq<int>, prev: seq<int>,
                   pq: seq<Item>, done: set<int>, rank: seq<nat>, t: nat, k: nat,
                   dist': seq<int>, prev': seq<int>, pq': seq<Item>, rank': seq<nat>)
    requires Step(g, src, goal, dist, prev, pq, done, rank, t, k, dist', prev', pq', rank')
    ensures Ranked(g, src, dist', prev', rank'[pq[k].node := t])
    ensures forall v :: 0 <= v < |g| && v != src && dist'[v] != -1 ==> prev'[v] in done + {pq[k].node}
  {
    var u := pq[k].node;
    var rank'' := rank'[u := t];
    StepFacts(g, src, goal, dist, prev, pq, done, rank, t, k, dist', prev', pq', rank');
    forall v | 0 <= v < |g| && v != src && dist'[v] != -1
      ensures 0 <= prev'[v] < |g| && dist'[prev'[v]] != -1 && rank''[prev'[v]] < rank''[v]
      ensures Via(g, dist', prev'[v], v)
    {
      if !Improved(dist, dist', v) {
        var p := prev[v];
        assert p in done;
        var j :| 0 <= j < |g[p]| && g[p][j].to == v && dist[v] == dist[p] + g[p][j].w;
        assert g[p][j].to == v && dist'[v] == dist'[p] + g[p][j].w;
      }
    }
  }

  /** The settled states, u now among them, are reached goal-free states ranked below t + 1. */
  lemma StepDone(g: seq<seq<Arc>>, src: int, goal: seq<bool>, dist: seq<int>, prev: seq<int>,
                 pq: seq<Item>, done: set<int>, rank: seq<nat>, t: nat, k: nat,
                 dist': seq<int>, prev': seq<int>, pq': seq<Item>, rank': seq<nat>)
    requires Step(g, src, goal, dist, prev, pq, done, rank, t, k, dist', prev', pq', rank')
    ensures forall v :: v in done + {pq[k].node} ==>
      0 <= v < |g| && dist'[v] != -1 && !goal[v] && rank'[pq[k].node := t][v] < t + 1
  {
    var u := pq[k].node;
    StepFacts(g, src, goal, dist, prev, pq, done, rank, t, k, dist', prev', pq', rank');
    forall v | v in done + {u} ensures 0 <= v < |g| && dist'[v] != -1 && !goal[v] && rank'[u := t][v] < t + 1 {
      if v != u {
        assert v in done && rank'[u := t][v] == rank'[v] == rank[v];
      }
    }
  }

  /** The heap facts carry over to the heap without the entry taken and with the entries
      pushed. */
  lemma StepHeap(g: seq<seq<Arc>>, src: int, goal: seq<bool>, dist: seq<int>, prev: seq<int>,
                 pq: seq<Item>, done: set<int>, rank: seq<nat>, t: nat, k: nat,
                 dist': seq<int>, prev': seq<int>, pq': seq<Item>, rank': seq<nat>)
    requires Step(g, src, goal, dist, prev, pq, done, rank, t, k, dist', prev', pq', rank')
    ensures HeapOk(g, dist', pq', done + {pq[k].node})
  {
    var u := pq[k].node;
    var r := RemoveAt(pq, k);
    StepFacts(g, src, goal, dist, prev, pq, done, rank, t, k, dist', prev', pq', rank');
    forall i | 0 <= i < |pq'|
      ensures 0 <= pq'[i].node < |g| && dist'[pq'[i].node] != -1 && dist'[pq'[i].node] <= pq'[i].d
      ensures pq'[i].node in done + {u} ==> dist'[pq'[i].node] < pq'[i].d
    {
      if i < |r| {
        var i' := if i < k then i else i + 1;
        assert pq'[i] == r[i] == pq[i'] && i' != k;
      } else {
        assert Pushed(dist, dist', dist[u], pq'[i]);
      }
    }
    forall i, j | 0 <= i < j < |pq'| && pq'[i].node == pq'[j].node ensures pq'[i].d != pq'[j].d {
      if j < |r| {
        var i', j' := if i < k then i else i + 1, if j < k then j else j + 1;
        assert pq'[i] == r[i] == pq[i'] && pq'[j] == r[j] == pq[j'] && i' < j';
      } else if i < |r| {
        var i' := if i < k then i else i + 1;
        assert pq'[i] == r[i] == pq[i'];
        assert Pushed(dist, dist', dist[u], pq'[j]);
      }
    }
  }

  /** Every reached state not settled still has an entry carrying its distance. */
  lemma StepFrontier(g: seq<seq<Arc>>, src: int, goal: seq<bool>, dist: seq<int>, prev: seq<int>,
                     pq: seq<Item>, done: set<int>, rank: seq<nat>, t: nat, k: nat,
                     dist': seq<int>, prev': seq<int>, pq': seq<Item>, rank': seq<nat>)
    requires Step(g, src, goal, dist, prev, pq, done, rank, t, k, dist', prev', pq', rank')
    ensures Frontier(g, dist', pq', done + {pq[k].node})
  {
    var u := pq[k].node;
    var r := RemoveAt(pq, k);
    StepFacts(g, src, goal, dist, prev, pq, done, rank, t, k, dist', prev', pq', rank');
    forall v | 0 <= v < |g| && dist'[v] != -1 && v !in done + {u} ensures Item(v, dist'[v]) in pq' {
      if Improved(dist, dist', v) {
        assert pq'[|r|..] <= pq'[|r|..];
        var i :| 0 <= i < |pq'[|r|..]| && pq'[|r|..][i] == Item(v, dist'[v]);
        assert pq'[|r| + i] == Item(v, dist'[v]);
      } else {
        RemoveAtKeeps(pq, k, Item(v, dist[v]));
        var i :| 0 <= i < |r| && r[i] == Item(v, dist[v]);
        assert pq'[i] == r[i];
      }
    }
  }

  /** Settled states, u among them, are no farther than any entry. */
  lemma StepBelow(g: seq<seq<Arc>>, src: int, goal: seq<bool>, dist: seq<int>, prev: seq<int>,
                  pq: seq<Item>, done: set<int>, rank: seq<nat>, t: nat, k: nat,
                  dist': seq<int>, prev': seq<int>, pq': seq<Item>, rank': seq<nat>)
    requires Step(g, src, goal, dist, prev, pq, done, rank, t, k, dist', prev', pq', rank')
    requires forall v :: v in done + {pq[k].node} ==> 0 <= v < |g|
    ensures Below(dist', pq', done + {pq[k].node})
  {
    var u := pq[k].node;
    var r := RemoveAt(pq, k);
    StepFacts(g, src, goal, dist, prev, pq, done, rank, t, k, dist', prev', pq', rank');
    forall i | 0 <= i < |pq'| ensures dist[u] <= pq'[i].d {
      if i < |r| {
        var i' := if i < k then i else i + 1;
        assert pq'[i] == r[i] == pq[i'];
      } else {
        assert Pushed(dist, dist', dist[u], pq'[i]);
      }
    }
    forall w | w in done ensures dist'[w] <= dist[u] {
      assert dist[w] <= pq[k].d;
    }
  }

  /** The arcs of every settled state, u among them, have been relaxed. */
  lemma StepClosed(g: seq<seq<Arc>>, src: int, goal: seq<bool>, dist: seq<int>, prev: seq<int>,
                   pq: seq<Item>, done: set<int>, rank: seq<nat>, t: nat, k: nat,
                   dist': seq<int>, prev': seq<int>, pq': seq<Item>, rank': seq<nat>)
    requires Step(g, src, goal, dist, prev, pq, done, rank, t, k, dist', prev', pq', rank')
    requires forall v :: v in done + {pq[k].node} ==> 0 <= v < |g|
    ensures Closed(g, dist', done + {pq[k].node})
  {
    StepFacts(g, src, goal, dist, prev, pq, done, rank, t, k, dist', prev', pq', rank');
  }

  /** Settled states, u among them, carry their least distance. */
  lemma StepOptimal(g: seq<seq<Arc>>, src: int, goal: seq<bool>, dist: seq<int>, prev: seq<int>,
                    pq: seq<Item>, done: set<int>, rank: seq<nat>, t: nat, k: nat,
                    dist': seq<int>, prev': seq<int>, pq': seq<Item>, rank': seq<nat>)
    requires Step(g, src, goal, dist, prev, pq, done, rank, t, k, dist', prev', pq', rank')
    ensures Optimal(g, src, dist', done + {pq[k].node})
  {
    var u := pq[k].node;
    StepFacts(g, src, goal, dist, prev, pq, done, rank, t, k, dist', prev', pq', rank');
    forall ns, es | IsPath(g, src, ns, es) && ns[|ns| - 1] in done + {u}
      ensures 0 <= ns[|ns| - 1] < |g| && dist'[ns[|ns| - 1]] <= Cost(g, ns, es)
    {
      if ns[|ns| - 1] == u {
        FrontierBound(g, src, dist, pq, done, pq[k].d, ns, es);
      }
    }
  }

  /** Taking a goal-free entry which is not stale and relaxing its arcs keeps the invariant,
      with its state settled at rank t. */
  lemma TakeOk(g: seq<seq<Arc>>, src: int, goal: seq<bool>, dist: seq<int>, prev: seq<int>,
               pq: seq<Item>, done: set<int>, rank: seq<nat>, t: nat, k: nat,
               dist': seq<int>, prev': seq<int>, pq': seq<Item>, rank': seq<nat>)
    requires Inv(g, src, goal, dist, prev, pq, done, rank, t) && k < |pq|
    requires forall i :: 0 <= i < |pq| ==> pq[k].d <= pq[i].d
    requires pq[k].d == dist[pq[k].node] && !goal[pq[k].node]
    requires Relaxed(g, pq[k].node, dist, prev, RemoveAt(pq, k), rank, t, dist', prev', pq', rank')
    ensures pq[k].node !in done
    ensures Inv(g, src, goal, dist', prev', pq', done + {pq[k].node}, rank'[pq[k].node := t], t + 1)
  {
    StepFacts(g, src, goal, dist, prev, pq, done, rank, t, k, dist', prev', pq', rank');
    StepRanked(g, src, goal, dist, prev, pq, done, rank, t, k, dist', prev', pq', rank');
    StepDone(g, src, goal, dist, prev, pq, done, rank, t, k, dist', prev', pq', rank');
    StepHeap(g, src, goal, dist, prev, pq, done, rank, t, k, dist', prev', pq', rank');
    StepFrontier(g, src, goal, dist, prev, pq, done, rank, t, k, dist', prev', pq', rank');
    StepBelow(g, src, goal, dist, prev, pq, done, rank, t, k, dist', prev', pq', rank');
    StepClosed(g, src, goal, dist, prev, pq, done, rank, t, k, dist', prev', pq', rank');
    StepOptimal(g, src, goal, dist, prev, pq, done, rank, t, k, dist', prev', pq', rank');
  }

  /** With the heap empty every path from the source stays among the settled states. */
  lemma {:induction false} AllSettled(g: seq<seq<Arc>>, src: int, dist: seq<int>, done: set<int>, ns: seq<int>, es: seq<int>)
    requires GraphOk(g) && 0 <= src < |g| && |dist| == |g| && dist[src] == 0
    requires forall v :: v in done ==> 0 <= v < |g| && dist[v] != -1
    requires Frontier(g, dist, [], done) && Closed(g, dist, done)
    requires IsPath(g, src, ns, es)
    ensures ns[|ns| - 1] in done
    decreases |es|
  {
    if |es| > 0 {
      PathInit(g, src, ns, es);
      AllSettled(g, src, dist, done, ns[..|ns| - 1], es[..|es| - 1]);
    }
  }

  /** The heap ran dry without a goal taken: since the settled states are then all that can
      be reached and none is a goal, no goal can be reached at all. */
  lemma DryOk(g: seq<seq<Arc>>, src: int, goal: seq<bool>, dist: seq<int>, prev: seq<int>,
              pq: seq<Item>, done: set<int>, rank: seq<nat>, t: nat)
    requires Inv(g, src, goal, dist, prev, pq, done, rank, t) && |pq| == 0
    ensures Unreachable(g, src, goal, dist)
  {
    forall ns, es | IsPath(g, src, ns, es) ensures 0 <= ns[|ns| - 1] < |g| && !goal[ns[|ns| - 1]] {
      AllSettled(g, src, dist, done, ns, es);
    }
  }
}
