/** The shortest-path engine: the network's `dijkstra`, a label-setting search
    with a lazy frontier. Stale frontier entries are allowed (there is no
    decrease-key), and a popped entry relaxes its station's edges with the
    station's current best distance. The engine reads the adjacency table and
    the station list and changes neither. */
module ShortestPath {
  import opened Graph

  /** A tentative or final distance; `Infinity` is the `INT_MAX` sentinel that
      every station starts at and that unreachable stations keep. */
  datatype Distance = Infinity | Finite(value: nat)

  /** A frontier entry (`HeapNode`): a station and the distance it was pushed with. */
  datatype HeapNode = HeapNode(station: string, distance: nat)

  /** `newDistance < distances[v]`, with the sentinel above every finite distance. */
  predicate Improves(d: nat, current: Distance)
    ensures current == Infinity ==> Improves(d, current)
    ensures Improves(d, current) ==> current != Finite(d)
  {
    current.Infinity? || d < current.value
  }

  // ---------- Paths and shortest distances (the specification) ----------

  function Weight(g: Weights, a: string, b: string): nat
  {
    if a in g && b in g[a] then g[a][b] else 0
  }

  /** A sequence of registered stations, each listing the next as a neighbour. */
  ghost predicate IsWalk(g: Weights, p: seq<string>)
  {
    (forall i :: 0 <= i < |p| ==> p[i] in g) &&
    (forall i, j :: 0 <= i < j < |p| && j == i + 1 ==> p[j] in g[p[i]])
  }

  ghost predicate IsPath(g: Weights, p: seq<string>, s: string, v: string)
  {
    |p| > 0 && p[0] == s && p[|p| - 1] == v && IsWalk(g, p)
  }

  /** Total edge weight along a sequence of stations. */
  ghost function PathLength(g: Weights, p: seq<string>): nat
    decreases |p|
  {
    if |p| <= 1 then 0 else PathLength(g, p[..|p| - 1]) + Weight(g, p[|p| - 2], p[|p| - 1])
  }

  ghost predicate Reachable(g: Weights, s: string, v: string)
  {
    exists p :: IsPath(g, p, s, v)
  }

  /** d is the least total weight over all paths from s to v. */
  ghost predicate IsShortest(g: Weights, s: string, v: string, d: nat)
  {
    (exists p :: IsPath(g, p, s, v) && PathLength(g, p) == d) &&
    (forall p :: IsPath(g, p, s, v) ==> d <= PathLength(g, p))
  }

  /** No edge out of u can improve on a neighbour's distance. */
  ghost predicate Relaxed(g: Weights, dist: map<string, Distance>, u: string)
  {
    u in g && u in dist && dist[u].Finite? &&
    forall v :: v in g[u] ==> v in dist && dist[v].Finite? && dist[v].value <= dist[u].value + g[u][v]
  }

  lemma ShortestUnique(g: Weights, s: string, v: string, d: nat, e: nat)
    requires IsShortest(g, s, v, d) && IsShortest(g, s, v, e)
    ensures d == e
  {
    var p :| IsPath(g, p, s, v) && PathLength(g, p) == d;
    var q :| IsPath(g, q, s, v) && PathLength(g, q) == e;
  }

  /** A distance map that is 0 at the source and admits no improving edge
      bounds every path from below: the heart of the correctness argument. */
  lemma {:induction false} LowerBound(g: Weights, s: string, dist: map<string, Distance>, p: seq<string>, v: string)
    requires s in dist && dist[s] == Finite(0)
    requires forall x :: x in dist && dist[x].Finite? ==> Relaxed(g, dist, x)
    requires IsPath(g, p, s, v)
    ensures v in dist && dist[v].Finite? && dist[v].value <= PathLength(g, p)
    decreases |p|
  {
    if |p| > 1 {
      var q := p[..|p| - 1];
      var u := p[|p| - 2];
      assert IsPath(g, q, s, u);
      LowerBound(g, s, dist, q, u);
      assert Relaxed(g, dist, u);
      assert v in g[u];
    }
  }

  /** A station that no station lists is reachable only from itself. */
  lemma Unlisted(g: Weights, s: string, v: string)
    requires v != s
    requires forall a :: a in g ==> v !in g[a]
    ensures !Reachable(g, s, v)
  {
    assert forall p :: IsWalk(g, p) && |p| > 1 ==> p[|p| - 1] in g[p[|p| - 2]];
  }

  // ---------- Facts about walks used by the search ----------

  lemma PathExtend(g: Weights, p: seq<string>, v: string)
    requires |p| > 0
    ensures PathLength(g, p + [v]) == PathLength(g, p) + Weight(g, p[|p| - 1], v)
  {
    assert (p + [v])[..|p|] == p;
  }

  lemma {:induction false} PrefixLength(g: Weights, p: seq<string>, i: nat)
    requires i < |p|
    ensures PathLength(g, p[..i + 1]) <= PathLength(g, p)
    decreases |p|
  {
    if i + 1 < |p| {
      var q := p[..|p| - 1];
      PrefixLength(g, q, i);
      assert q[..i + 1] == p[..i + 1];
    } else {
      assert p[..i + 1] == p;
    }
  }

  ghost function MaxOf(m: map<string, nat>): (r: nat)
    ensures forall k :: k in m ==> m[k] <= r
    decreases m.Keys
  {
    if m.Keys == {} then 0
    else
      var k :| k in m.Keys;
      var rest := MaxOf(m - {k});
      assert forall j :: j in m && j != k ==> j in (m - {k}) && (m - {k})[j] == m[j];
      if m[k] < rest then rest else m[k]
  }

  /** The heaviest edge weight in the table. */
  ghost function MaxWeight(g: Weights): (r: nat)
    ensures forall a, b :: a in g && b in g[a] ==> g[a][b] <= r
    decreases g.Keys
  {
    if g.Keys == {} then 0
    else
      var k :| k in g.Keys;
      var rest := MaxWeight(g - {k});
      var here := MaxOf(g[k]);
      assert forall j :: j in g && j != k ==> j in (g - {k}) && (g - {k})[j] == g[j];
      if here < rest then rest else here
  }

  lemma {:induction false} WalkLengthBound(g: Weights, p: seq<string>, m: nat)
    requires IsWalk(g, p) && |p| > 0
    requires forall a, b :: a in g && b in g[a] ==> g[a][b] <= m
    ensures PathLength(g, p) <= (|p| - 1) * m
    decreases |p|
  {
    if |p| > 1 {
      var q := p[..|p| - 1];
      assert IsWalk(g, q);
      WalkLengthBound(g, q, m);
      assert Weight(g, p[|p| - 2], p[|p| - 1]) <= m;
      assert (|q| - 1) * m + m == (|p| - 1) * m;
    }
  }

  lemma {:induction false} DistinctBound(p: seq<string>, S: set<string>)
    requires NoDuplicates(p)
    requires forall i :: 0 <= i < |p| ==> p[i] in S
    ensures |p| <= |S|
    decreases |p|
  {
    if |p| > 0 {
      var S' := S - {p[0]};
      forall i | 0 <= i < |p[1..]| ensures p[1..][i] in S' {
        assert p[1..][i] == p[i + 1];
      }
      assert NoDuplicates(p[1..]) by {
        forall i, j | 0 <= i < j < |p[1..]| ensures p[1..][i] != p[1..][j] {
          assert p[1..][i] == p[i + 1] && p[1..][j] == p[j + 1];
        }
      }
      DistinctBound(p[1..], S');
      assert S == S' + {p[0]};
    }
  }

  lemma MulMono(a: nat, b: nat, m: nat)
    requires a <= b
    ensures a * m <= b * m
  {
  }

  // ---------- The search's invariant ----------

  /** Every station on p is already at least as close as the prefix of p that
      reaches it. This is what keeps recorded paths free of repetitions. */
  ghost predicate PrefixesClose(g: Weights, dist: map<string, Distance>, p: seq<string>)
  {
    forall i :: 0 <= i < |p| ==> p[i] in dist && dist[p[i]].Finite? && dist[p[i]].value <= PathLength(g, p[..i + 1])
  }

  /** v's finite distance is witnessed by a recorded path without repetitions,
      and is within the bound used for termination. */
  ghost predicate Recorded(g: Weights, s: string, dist: map<string, Distance>, v: string,
                           paths: map<string, seq<string>>, bound: nat)
  {
    v in dist && dist[v].Finite? && v in paths &&
    IsPath(g, paths[v], s, v) && PathLength(g, paths[v]) == dist[v].value &&
    NoDuplicates(paths[v]) && dist[v].value <= bound && PrefixesClose(g, dist, paths[v])
  }

  ghost predicate DistOk(g: Weights, s: string, dist: map<string, Distance>,
                         paths: map<string, seq<string>>, bound: nat)
  {
    dist.Keys == g.Keys && s in dist && dist[s] == Finite(0) &&
    forall v :: v in dist && dist[v].Finite? ==> Recorded(g, s, dist, v, paths, bound)
  }

  /** Every frontier entry names a station with a finite distance. */
  ghost predicate QueueOk(dist: map<string, Distance>, queue: multiset<HeapNode>)
  {
    forall e :: e in queue ==> e.station in dist && dist[e.station].Finite?
  }

  ghost predicate Pending(queue: multiset<HeapNode>, x: string)
  {
    exists e :: e in queue && e.station == x
  }

  /** The path recorded for v when the edge u-v improves it: u's path
      extended by v. It has no repetitions, so its length is within the bound. */
  lemma ExtendedPath(g: Weights, s: string, dist: map<string, Distance>, pu: seq<string>,
                     bound: nat, m: nat, u: string, v: string)
    requires Closed(g)
    requires forall a, b :: a in g && b in g[a] ==> g[a][b] <= m
    requires bound == |g| * m
    requires u in dist && dist[u].Finite? && u in g && v in g[u] && v in dist
    requires IsPath(g, pu, s, u) && NoDuplicates(pu) && PathLength(g, pu) == dist[u].value
    requires PrefixesClose(g, dist, pu)
    requires Improves(dist[u].value + g[u][v], dist[v])
    ensures v !in pu
    ensures IsPath(g, pu + [v], s, v) && NoDuplicates(pu + [v])
    ensures PathLength(g, pu + [v]) == dist[u].value + g[u][v] <= bound
  {
    var np := pu + [v];
    forall i | 0 <= i < |pu| ensures pu[i] != v {
      PrefixLength(g, pu, i);
    }
    PathExtend(g, pu, v);
    assert IsWalk(g, np) by {
      assert forall i :: 0 <= i < |pu| ==> np[i] == pu[i];
    }
    assert NoDuplicates(np) by {
      assert forall i :: 0 <= i < |pu| ==> np[i] == pu[i];
    }
    assert |np| - 1 <= |g| by {
      DistinctBound(np, g.Keys);
    }
    WalkLengthBound(g, np, m);
    MulMono(|np| - 1, |g|, m);
  }

  /** Lowering v's distance keeps every recorded path's prefixes close. */
  lemma PrefixesStayClose(g: Weights, dist: map<string, Distance>, p: seq<string>, v: string, d: nat)
    requires PrefixesClose(g, dist, p)
    requires v in dist && Improves(d, dist[v])
    ensures PrefixesClose(g, dist[v := Finite(d)], p)
  {
  }

  /** The extended path's prefixes are close once v is at its length. */
  lemma ExtendedPrefixes(g: Weights, dist: map<string, Distance>, p: seq<string>, v: string, d: nat)
    requires PrefixesClose(g, dist, p) && v !in p && v in dist
    requires PathLength(g, p + [v]) == d
    ensures PrefixesClose(g, dist[v := Finite(d)], p + [v])
  {
    var np := p + [v];
    forall i | 0 <= i < |np|
      ensures np[i] in dist[v := Finite(d)] && dist[v := Finite(d)][np[i]].Finite?
      ensures dist[v := Finite(d)][np[i]].value <= PathLength(g, np[..i + 1])
    {
      if i < |p| {
        assert np[..i + 1] == p[..i + 1];
      } else {
        assert np[..i + 1] == np;
      }
    }
  }

  /** Relaxing the edge u-v when it improves on v's distance keeps the
      invariant, with v's recorded path extended from u's. */
  lemma RelaxStep(g: Weights, s: string, dist: map<string, Distance>, paths: map<string, seq<string>>,
                  bound: nat, m: nat, u: string, v: string, d: nat)
    requires Closed(g)
    requires forall a, b :: a in g && b in g[a] ==> g[a][b] <= m
    requires bound == |g| * m
    requires DistOk(g, s, dist, paths, bound)
    requires u in dist && dist[u].Finite? && v in g[u]
    requires d == dist[u].value + g[u][v] && Improves(d, dist[v])
    ensures u != v && v != s
    ensures d <= bound
    ensures DistOk(g, s, dist[v := Finite(d)], paths[v := paths[u] + [v]], bound)
  {
    RelaxRecords(g, s, dist, paths, bound, m, u, v, d);
    OthersStayRecorded(g, s, dist, paths, bound, v, d, paths[u] + [v]);
    var dist' := dist[v := Finite(d)];
    assert dist'.Keys == g.Keys;
    assert dist'[s] == Finite(0);
  }

  /** The improved neighbour v is recorded with u's path extended by v. */
  lemma RelaxRecords(g: Weights, s: string, dist: map<string, Distance>, paths: map<string, seq<string>>,
                     bound: nat, m: nat, u: string, v: string, d: nat)
    requires Closed(g)
    requires forall a, b :: a in g && b in g[a] ==> g[a][b] <= m
    requires bound == |g| * m
    requires DistOk(g, s, dist, paths, bound)
    requires u in dist && dist[u].Finite? && v in g[u]
    requires d == dist[u].value + g[u][v] && Improves(d, dist[v])
    ensures u != v && v != s
    ensures d <= bound
    ensures Recorded(g, s, dist[v := Finite(d)], v, paths[v := paths[u] + [v]], bound)
  {
    assert Recorded(g, s, dist, u, paths, bound);
    ExtendedPath(g, s, dist, paths[u], bound, m, u, v);
    ExtendedPrefixes(g, dist, paths[u], v, d);
  }

  /** Lowering v's distance, with a new path recorded for v, keeps every
      other finite station recorded. */
  lemma OthersStayRecorded(g: Weights, s: string, dist: map<string, Distance>, paths: map<string, seq<string>>,
                           bound: nat, v: string, d: nat, pv: seq<string>)
    requires forall x :: x in dist && dist[x].Finite? ==> Recorded(g, s, dist, x, paths, bound)
    requires v in dist && Improves(d, dist[v])
    ensures forall x :: x in dist && x != v && dist[x].Finite? ==>
              Recorded(g, s, dist[v := Finite(d)], x, paths[v := pv], bound)
  {
    forall x | x in dist && x != v && dist[x].Finite?
      ensures Recorded(g, s, dist[v := Finite(d)], x, paths[v := pv], bound)
    {
      PrefixesStayClose(g, dist, paths[x], v, d);
    }
  }

  /** After the edge u-v improves v, every station other than u that was
      relaxed or pending still is. */
  lemma RelaxKeepsOthers(g: Weights, dist: map<string, Distance>, queue: multiset<HeapNode>,
                         u: string, v: string, d: nat)
    requires v in dist && Improves(d, dist[v])
    requires CoveredBut(g, dist, queue, u)
    ensures CoveredBut(g, dist[v := Finite(d)], queue + multiset{HeapNode(v, d)}, u)
  {
    var dist', queue' := dist[v := Finite(d)], queue + multiset{HeapNode(v, d)};
    forall x | x in dist' && dist'[x].Finite? && x != u
      ensures Relaxed(g, dist', x) || Pending(queue', x)
    {
      if x == v {
        assert HeapNode(v, d) in queue';
      } else if Relaxed(g, dist, x) {
        assert Relaxed(g, dist', x);
      } else {
        var e :| e in queue && e.station == x;
        assert e in queue';
      }
    }
  }

  // ---------- Termination measure ----------

  /** Infinity counts as one more than any distance the search can reach. */
  function Pot(d: Distance, bound: nat): nat
  {
    match d
    case Infinity => bound + 1
    case Finite(n) => n
  }

  function SumPot(s: seq<string>, dist: map<string, Distance>, bound: nat): nat
  {
    if s == [] then 0
    else (if s[0] in dist then Pot(dist[s[0]], bound) else 0) + SumPot(s[1..], dist, bound)
  }

  lemma {:induction false} SumPotUpdate(s: seq<string>, dist: map<string, Distance>, v: string, nd: Distance, bound: nat)
    requires v in dist && Pot(nd, bound) < Pot(dist[v], bound)
    ensures SumPot(s, dist[v := nd], bound) <= SumPot(s, dist, bound)
    ensures v in s ==> SumPot(s, dist[v := nd], bound) < SumPot(s, dist, bound)
  {
    if s != [] {
      SumPotUpdate(s[1..], dist, v, nd, bound);
      assert v in s ==> s[0] == v || v in s[1..];
    }
  }

  /** A non-empty frontier has an entry of least distance: `minHeap.top()`. */
  lemma {:induction false} MinEntryExists(q: multiset<HeapNode>)
    requires q != multiset{}
    ensures exists e :: e in q && forall f :: f in q ==> e.distance <= f.distance
    decreases |q|
  {
    var x :| x in q;
    var rest := q - multiset{x};
    var best := x;
    if rest != multiset{} {
      MinEntryExists(rest);
      var e :| e in rest && forall f :: f in rest ==> e.distance <= f.distance;
      best := if x.distance < e.distance then x else e;
    }
    forall f | f in q ensures best.distance <= f.distance {
      assert f == x || f in rest;
    }
    assert best in q;
  }

  /** `minHeap.top()`: an entry of least distance. Which of several equal
      entries comes out is left open, as the heap's ordering leaves it. */
  method Top(q: multiset<HeapNode>) returns (e: HeapNode)
    requires q != multiset{}
    ensures e in q
    ensures forall f :: f in q ==> e.distance <= f.distance
  {
    MinEntryExists(q);
    e :| e in q && forall f :: f in q ==> e.distance <= f.distance;
  }

  // ---------- The search's loop invariants ----------

  /** Between pops: distances are recorded, the frontier names finite
      stations, and every finite station is relaxed or still in the frontier. */
  ghost predicate Searching(g: Weights, s: string, dist: map<string, Distance>,
                            paths: map<string, seq<string>>, bound: nat, queue: multiset<HeapNode>)
  {
    DistOk(g, s, dist, paths, bound) && QueueOk(dist, queue) &&
    forall x :: x in dist && dist[x].Finite? ==> Relaxed(g, dist, x) || Pending(queue, x)
  }

  /** Every finite station except u is relaxed or still in the frontier. */
  ghost predicate CoveredBut(g: Weights, dist: map<string, Distance>, queue: multiset<HeapNode>, u: string)
  {
    forall x :: x in dist && dist[x].Finite? && x != u ==> Relaxed(g, dist, x) || Pending(queue, x)
  }

  /** The neighbours of u outside todo are within reach through u. */
  ghost predicate ScannedWithin(g: Weights, dist: map<string, Distance>, u: string, du: nat, todo: set<string>)
    requires u in g
  {
    forall y :: y in g[u] && y !in todo ==> y in dist && dist[y].Finite? && dist[y].value <= du + g[u][y]
  }

  /** While scanning u's neighbours: as above for every station but u, whose
      distance stays du, and whose neighbours outside todo are relaxed. */
  ghost predicate Scanning(g: Weights, s: string, dist: map<string, Distance>,
                           paths: map<string, seq<string>>, bound: nat, queue: multiset<HeapNode>,
                           u: string, du: nat, todo: set<string>)
  {
    u in g && todo <= g[u].Keys &&
    DistOk(g, s, dist, paths, bound) && QueueOk(dist, queue) &&
    u in dist && dist[u] == Finite(du) &&
    CoveredBut(g, dist, queue, u) && ScannedWithin(g, dist, u, du, todo)
  }

  /** Popping an entry starts a scan of its station's neighbours. */
  lemma StartScan(g: Weights, s: string, dist: map<string, Distance>, paths: map<string, seq<string>>,
                  bound: nat, queue: multiset<HeapNode>, current: HeapNode)
    requires Searching(g, s, dist, paths, bound, queue) && current in queue
    ensures current.station in dist && dist[current.station].Finite?
    ensures Scanning(g, s, dist, paths, bound, queue - multiset{current}, current.station,
                     dist[current.station].value, g[current.station].Keys)
  {
    var rest := queue - multiset{current};
    var u := current.station;
    forall x | x in dist && dist[x].Finite? && x != u
      ensures Relaxed(g, dist, x) || Pending(rest, x)
    {
      if !Relaxed(g, dist, x) {
        var e :| e in queue && e.station == x;
        assert e in rest;
      }
    }
  }

  /** A finished scan leaves u relaxed. */
  lemma EndScan(g: Weights, s: string, dist: map<string, Distance>, paths: map<string, seq<string>>,
                bound: nat, queue: multiset<HeapNode>, u: string, du: nat)
    requires Scanning(g, s, dist, paths, bound, queue, u, du, {})
    ensures Searching(g, s, dist, paths, bound, queue)
  {
    assert Relaxed(g, dist, u);
  }

  /** Scanning a neighbour v of u whose distance `newDistance` improves:
      the updated state is still scanning and the measure drops. */
  lemma ScanImproving(g: Weights, s: string, stations: seq<string>, dist: map<string, Distance>,
                      paths: map<string, seq<string>>, bound: nat, m: nat, queue: multiset<HeapNode>,
                      u: string, du: nat, todo: set<string>, v: string, d: nat)
    requires WellFormed(g, stations)
    requires forall a, b :: a in g && b in g[a] ==> g[a][b] <= m
    requires bound == |g| * m
    requires Scanning(g, s, dist, paths, bound, queue, u, du, todo) && v in todo
    requires v in dist && d == du + g[u][v] && Improves(d, dist[v])
    ensures Scanning(g, s, dist[v := Finite(d)], paths[v := paths[u] + [v]], bound,
                     queue + multiset{HeapNode(v, d)}, u, du, todo - {v})
    ensures SumPot(stations, dist[v := Finite(d)], bound) < SumPot(stations, dist, bound)
  {
    RelaxStep(g, s, dist, paths, bound, m, u, v, d);
    SumPotUpdate(stations, dist, v, Finite(d), bound);
    RelaxKeepsOthers(g, dist, queue, u, v, d);
    ScannedStay(g, dist, u, du, todo, v, d);
    PushKeepsQueue(dist, queue, v, d);
  }

  /** The neighbours of u already scanned stay within reach through u, and v joins them. */
  lemma ScannedStay(g: Weights, dist: map<string, Distance>, u: string, du: nat, todo: set<string>, v: string, d: nat)
    requires u in g && v in g[u] && v in dist && d == du + g[u][v] && Improves(d, dist[v])
    requires ScannedWithin(g, dist, u, du, todo)
    ensures ScannedWithin(g, dist[v := Finite(d)], u, du, todo - {v})
  {
  }

  /** Pushing v after giving it a finite distance keeps every entry finite. */
  lemma PushKeepsQueue(dist: map<string, Distance>, queue: multiset<HeapNode>, v: string, d: nat)
    requires QueueOk(dist, queue)
    ensures QueueOk(dist[v := Finite(d)], queue + multiset{HeapNode(v, d)})
  {
  }

  /** Scanning a neighbour v of u whose distance does not improve: v is
      already relaxed along u-v. */
  lemma ScanNotImproving(g: Weights, s: string, dist: map<string, Distance>,
                         paths: map<string, seq<string>>, bound: nat, queue: multiset<HeapNode>,
                         u: string, du: nat, todo: set<string>, v: string)
    requires Scanning(g, s, dist, paths, bound, queue, u, du, todo) && v in todo
    requires v in dist && !Improves(du + g[u][v], dist[v])
    ensures Scanning(g, s, dist, paths, bound, queue, u, du, todo - {v})
  {
  }

  /** The termination bound: no path without repetitions is longer than
      this, so no finite distance the search records exceeds it. */
  ghost function SearchBound(g: Weights): nat
  {
    |g| * MaxWeight(g)
  }

  /** The initial state: only the source is finite, and it alone is in the frontier. */
  lemma SearchStarts(g: Weights, s: string, dist: map<string, Distance>, bound: nat)
    requires s in g && dist.Keys == g.Keys && dist[s] == Finite(0)
    requires forall x :: x in dist && x != s ==> dist[x] == Infinity
    ensures Searching(g, s, dist, map[s := [s]], bound, multiset{HeapNode(s, 0)})
  {
    assert [s][..1] == [s];
    assert Recorded(g, s, dist, s, map[s := [s]], bound);
    assert HeapNode(s, 0) in multiset{HeapNode(s, 0)};
  }

  /** With the frontier empty every finite station is relaxed, so the
      distances are exactly the shortest ones. */
  lemma SearchEnds(g: Weights, s: string, dist: map<string, Distance>,
                   paths: map<string, seq<string>>, bound: nat)
    requires Searching(g, s, dist, paths, bound, multiset{})
    ensures forall v :: v in dist ==> (dist[v].Finite? <==> Reachable(g, s, v))
    ensures forall v :: v in dist && dist[v].Finite? ==> IsShortest(g, s, v, dist[v].value)
  {
    forall v | v in dist
      ensures dist[v].Finite? <==> Reachable(g, s, v)
      ensures dist[v].Finite? ==> IsShortest(g, s, v, dist[v].value)
    {
      if dist[v].Finite? {
        assert Recorded(g, s, dist, v, paths, bound);
        forall p | IsPath(g, p, s, v) ensures dist[v].value <= PathLength(g, p) {
          LowerBound(g, s, dist, p, v);
        }
      }
      if Reachable(g, s, v) {
        var p :| IsPath(g, p, s, v);
        LowerBound(g, s, dist, p, v);
      }
    }
  }

  /** The first loop of `dijkstra`: every registered station starts at the sentinel. */
  method Unvisited(g: Weights, stations: seq<string>) returns (distances: map<string, Distance>)
    requires Registry(g, stations)
    ensures distances.Keys == g.Keys
    ensures forall x :: x in distances ==> distances[x] == Infinity
  {
    distances := map[];
    for i := 0 to |stations|
      invariant distances.Keys == set j | 0 <= j < i :: stations[j]
      invariant forall x :: x in distances ==> distances[x] == Infinity
    {
      distances := distances[stations[i] := Infinity];
    }
    assert distances.Keys == g.Keys by {
      forall x | x in g ensures x in distances {
        var j :| 0 <= j < |stations| && stations[j] == x;
      }
    }
  }

  // ---------- The search ----------

  /** The inner loop of `dijkstra`: relax every edge out of the popped
      station u with u's current distance, pushing each improved neighbour. */
  method ScanNeighbours(g: Weights, ghost s: string, ghost stations: seq<string>,
                        dist0: map<string, Distance>, queue0: multiset<HeapNode>,
                        ghost paths0: map<string, seq<string>>, ghost bound: nat, ghost m: nat,
                        ghost heap: multiset<HeapNode>, ghost current: HeapNode, u: string)
    returns (dist: map<string, Distance>, queue: multiset<HeapNode>, ghost paths: map<string, seq<string>>)
    requires WellFormed(g, stations)
    requires forall a, b :: a in g && b in g[a] ==> g[a][b] <= m
    requires bound == |g| * m
    requires Searching(g, s, dist0, paths0, bound, heap) && current in heap
    requires queue0 == heap - multiset{current} && u == current.station
    ensures Searching(g, s, dist, paths, bound, queue)
    ensures SumPot(stations, dist, bound) < SumPot(stations, dist0, bound) ||
            (SumPot(stations, dist, bound) == SumPot(stations, dist0, bound) && queue == queue0)
  {
    StartScan(g, s, dist0, paths0, bound, heap, current);
    dist, queue, paths := dist0, queue0, paths0;
    ghost var du := dist0[u].value;
    var todo := g[u].Keys;
    while todo != {}
      invariant Scanning(g, s, dist, paths, bound, queue, u, du, todo)
      invariant SumPot(stations, dist, bound) < SumPot(stations, dist0, bound) ||
                (SumPot(stations, dist, bound) == SumPot(stations, dist0, bound) && queue == queue0)
      decreases todo
    {
      var v :| v in todo;
      var newDistance := dist[u].value + g[u][v];
      if Improves(newDistance, dist[v]) {
        ScanImproving(g, s, stations, dist, paths, bound, m, queue, u, du, todo, v, newDistance);
        dist := dist[v := Finite(newDistance)];
        paths := paths[v := paths[u] + [v]];
        queue := queue + multiset{HeapNode(v, newDistance)};
      } else {
        ScanNotImproving(g, s, dist, paths, bound, queue, u, du, todo, v);
      }
      todo := todo - {v};
    }
    EndScan(g, s, dist, paths, bound, queue, u, du);
  }

  /** `dijkstra(source)`: every registered station gets an entry; a finite
      entry is the least total weight over paths from the source, and exactly
      the unreachable stations keep the sentinel. */
  method Dijkstra(g: Weights, stations: seq<string>, source: string) returns (distances: map<string, Distance>)
    requires WellFormed(g, stations)
    requires source in g
    ensures distances.Keys == g.Keys
    ensures distances[source] == Finite(0)
    ensures forall v :: v in distances ==> (distances[v].Finite? <==> Reachable(g, source, v))
    ensures forall v :: v in distances && distances[v].Finite? ==> IsShortest(g, source, v, distances[v].value)
  {
    distances := Unvisited(g, stations);
    distances := distances[source := Finite(0)];
    var minHeap := multiset{HeapNode(source, 0)};
    ghost var paths := map[source := [source]];
    ghost var m := MaxWeight(g);
    ghost var bound := SearchBound(g);
    SearchStarts(g, source, distances, bound);

    while minHeap != multiset{}
      invariant Searching(g, source, distances, paths, bound, minHeap)
      decreases SumPot(stations, distances, bound), |minHeap|
    {
      var current := Top(minHeap);
      ghost var heap := minHeap;
      minHeap := minHeap - multiset{current};
      distances, minHeap, paths := ScanNeighbours(g, source, stations, distances, minHeap, paths, bound, m,
                                                  heap, current, current.station);
    }

    SearchEnds(g, source, distances, paths, bound);
  }
}
