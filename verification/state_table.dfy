/** The search states of solveWeighted (bus.cpp:158-200): a state is a station and the line
    ridden there, 0 before boarding; states are numbered in the order they are listed, and a
    map from their packed keys finds each one's number. */
module StateTable {

  /** StateKey (bus.cpp:158-164). */
  datatype Key = Key(station: int, line: int)

  /** A key packKey can pack without collision: a station id and a line 0..L. */
  predicate InRange(k: Key, L: int) {
    k.station >= 0 && 0 <= k.line <= L
  }

  /** packKey (bus.cpp:166-168). The product is formed in 64 bits from two ints, so it does
      not overflow; the model computes it on unbounded integers. */
  function PackKey(k: Key, L: int): int {
    k.station * (L + 1) + k.line
  }

  /** A packed key unpacks by division: the station is the quotient by L + 1, the line the
      remainder. */
  lemma PackKeyUnpacks(k: Key, L: int)
    requires L >= 0 && InRange(k, L)
    ensures PackKey(k, L) / (L + 1) == k.station && PackKey(k, L) % (L + 1) == k.line
  {
    DivModUnique(PackKey(k, L), L + 1, k.station, k.line);
  }

  /** Euclidean division is unique: q and r are the quotient and remainder of q * d + r. */
  lemma DivModUnique(p: int, d: int, q: int, r: int)
    requires d > 0 && 0 <= r < d && p == q * d + r
    ensures p / d == q && p % d == r
  {
    var q', r' := p / d, p % d;
    assert (q - q') * d == r' - r;
    if q > q' {
      MulAtLeast(q - q', d);
    } else if q < q' {
      MulAtLeast(q' - q, d);
    }
  }

  /** A positive multiple of d is at least d. */
  lemma MulAtLeast(n: int, d: int)
    requires n >= 1 && d > 0
    ensures n * d >= d
  {
    assert n * d == (n - 1) * d + d;
  }

  /** Two keys in range pack to the same number only when they are the same key. */
  lemma PackKeyInjective(a: Key, b: Key, L: int)
    requires L >= 0 && InRange(a, L) && InRange(b, L)
    ensures PackKey(a, L) == PackKey(b, L) <==> a == b
  {
    if PackKey(a, L) == PackKey(b, L) {
      PackKeyUnpacks(a, L);
      PackKeyUnpacks(b, L);
    }
  }

  /** stateId and idToKey number the keys densely and are inverse to each other: the key
      listed at i packs to a number the map sends back to i, and every number in the map is
      the packed key listed at its id. */
  ghost predicate Numbering(L: int, ids: map<int, int>, keys: seq<Key>) {
    && (forall i :: 0 <= i < |keys| ==>
          InRange(keys[i], L) && PackKey(keys[i], L) in ids && ids[PackKey(keys[i], L)] == i)
    && (forall p :: p in ids ==> 0 <= ids[p] < |keys| && PackKey(keys[ids[p]], L) == p)
  }

  /** In a numbering, the id the map gives a key in range is the id of that very key. */
  lemma IdOfKey(L: int, ids: map<int, int>, keys: seq<Key>, k: Key)
    requires L >= 0 && Numbering(L, ids, keys) && InRange(k, L) && PackKey(k, L) in ids
    ensures 0 <= ids[PackKey(k, L)] < |keys| && keys[ids[PackKey(k, L)]] == k
  {
    PackKeyInjective(keys[ids[PackKey(k, L)]], k, L);
  }

  /** Every line of ls lies in 1..L. */
  predicate LinesUpTo(ls: seq<int>, L: int) {
    forall j :: 0 <= j < |ls| ==> 1 <= ls[j] <= L
  }

  /** The inner loop of bus.cpp:193-199 for station sid over its lines ls: a key not yet
      numbered gets the next id, a repeated one is skipped. */
  function AddLines(L: int, sid: int, ls: seq<int>, ids: map<int, int>, keys: seq<Key>): (r: (map<int, int>, seq<Key>))
    requires L >= 0 && sid >= 0 && LinesUpTo(ls, L) && Numbering(L, ids, keys)
    ensures Numbering(L, r.0, r.1) && keys <= r.1
    ensures forall p :: p in ids ==> p in r.0 && r.0[p] == ids[p]
    ensures forall j :: 0 <= j < |ls| ==> PackKey(Key(sid, ls[j]), L) in r.0
    ensures forall i :: |keys| <= i < |r.1| ==> r.1[i].station == sid && r.1[i].line in ls
    decreases |ls|
  {
    if |ls| == 0 then (ids, keys)
    else
      var k := Key(sid, ls[0]);
      var p := PackKey(k, L);
      if p in ids then AddLines(L, sid, ls[1..], ids, keys)
      else
        assert Numbering(L, ids[p := |keys|], keys + [k]) by {
          forall i | 0 <= i < |keys| ensures PackKey(keys[i], L) != p { }
        }
        AddLines(L, sid, ls[1..], ids[p := |keys|], keys + [k])
  }

  /** The outer loop of bus.cpp:192-200 from station sid on. */
  function AddStations(L: int, sl: seq<seq<int>>, sid: nat, ids: map<int, int>, keys: seq<Key>): (r: (map<int, int>, seq<Key>))
    requires L >= 0 && sid <= |sl| && Numbering(L, ids, keys)
    requires forall s :: 0 <= s < |sl| ==> LinesUpTo(sl[s], L)
    ensures Numbering(L, r.0, r.1) && keys <= r.1
    ensures forall p :: p in ids ==> p in r.0 && r.0[p] == ids[p]
    ensures forall s, j :: sid <= s < |sl| && 0 <= j < |sl[s]| ==> PackKey(Key(s, sl[s][j]), L) in r.0
    ensures forall i :: |keys| <= i < |r.1| ==> sid <= r.1[i].station < |sl| && r.1[i].line in sl[r.1[i].station]
    decreases |sl| - sid
  {
    if sid == |sl| then (ids, keys)
    else
      var next := AddLines(L, sid, sl[sid], ids, keys);
      AddStations(L, sl, sid + 1, next.0, next.1)
  }

  /** The state table of bus.cpp:186-200 for a search from station start: the start key
      (start, 0) has id 0, and every station's lines give it one state per line, numbered
      station by station in list order. Nothing else is listed. */
  function Build(L: int, sl: seq<seq<int>>, start: int): (r: (map<int, int>, seq<Key>))
    requires L >= 0 && 0 <= start < |sl|
    requires forall s :: 0 <= s < |sl| ==> LinesUpTo(sl[s], L)
    ensures Numbering(L, r.0, r.1)
    ensures |r.1| > 0 && r.1[0] == Key(start, 0)
    ensures forall i :: 1 <= i < |r.1| ==> 0 <= r.1[i].station < |sl| && r.1[i].line in sl[r.1[i].station]
    ensures forall s, l {:trigger l in sl[s]} :: 0 <= s < |sl| && l in sl[s] ==> PackKey(Key(s, l), L) in r.0
  {
    var k0 := Key(start, 0);
    var r := AddStations(L, sl, 0, map[PackKey(k0, L) := 0], [k0]);
    forall s, l | 0 <= s < |sl| && l in sl[s] ensures PackKey(Key(s, l), L) in r.0 {
      var j :| 0 <= j < |sl[s]| && sl[s][j] == l;
    }
    r
  }
}
