/** The station registry and the adjacency store of the metro network.

    A station is identified by its name. The registry is the list of stations in
    the order they were added (the `stations` vector) together with the
    name-keyed table (`stationHashTable`); the table maps every registered name
    to that station's `neighbors`, a map from neighbour name to edge weight. An
    undirected connection is two directed entries of equal weight. */
module Graph {

  type Weights = map<string, map<string, nat>>

  ghost predicate NoDuplicates(s: seq<string>)
  {
    forall i, j :: 0 <= i < j < |s| ==> s[i] != s[j]
  }

  /** The station list holds each registered name exactly once. */
  ghost predicate Registry(g: Weights, stations: seq<string>)
  {
    NoDuplicates(stations) && (forall x :: x in stations <==> x in g)
  }

  /** Every neighbour entry names a registered station. */
  ghost predicate Closed(g: Weights)
  {
    forall a, b :: a in g && b in g[a] ==> b in g
  }

  ghost predicate WellFormed(g: Weights, stations: seq<string>)
  {
    Registry(g, stations) && Closed(g)
  }

  /** a lists b with weight w exactly when b lists a with weight w. */
  ghost predicate Symmetric(g: Weights)
  {
    forall a, b :: a in g && b in g[a] ==> b in g && a in g[b] && g[b][a] == g[a][b]
  }

  /** The two entries that `addConnection` writes: a's entry for b, then b's
      entry for a, both with weight w; an earlier weight is overwritten. */
  function Connect(g: Weights, a: string, b: string, w: nat): (r: Weights)
    requires a in g && b in g
    ensures r.Keys == g.Keys
    ensures b in r[a] && r[a][b] == w && a in r[b] && r[b][a] == w
    ensures forall x, y :: x in g && !(x == a && y == b) && !(x == b && y == a) ==>
              (y in r[x] <==> y in g[x]) && (y in g[x] ==> r[x][y] == g[x][y])
  {
    var rowA: map<string, nat> := g[a][b := w];
    var g1 := g[a := rowA];
    var rowB: map<string, nat> := g1[b][a := w];
    g1[b := rowB]
  }

  /** The two entries that `removeConnection` erases: a's entry for b and b's
      entry for a; nothing else changes. */
  function Disconnect(g: Weights, a: string, b: string): (r: Weights)
    requires a in g && b in g
    ensures r.Keys == g.Keys
    ensures b !in r[a] && a !in r[b]
    ensures forall x, y :: x in g && !(x == a && y == b) && !(x == b && y == a) ==>
              (y in r[x] <==> y in g[x]) && (y in g[x] ==> r[x][y] == g[x][y])
  {
    var g1 := g[a := g[a] - {b}];
    g1[b := g1[b] - {a}]
  }

  /** The table after `removeStation(x)`: x's own entry is gone, and so is
      every other station's entry for x; nothing else changes. */
  function DropStation(g: Weights, x: string): (r: Weights)
    ensures r.Keys == g.Keys - {x}
    ensures forall a :: a in r ==> x !in r[a]
    ensures forall a, y :: a in r ==> (y in r[a] <==> y in g[a] && y != x) && (y in r[a] ==> r[a][y] == g[a][y])
  {
    map a | a in g && a != x :: g[a] - {x}
  }

  /** The station list after `stations.erase` at the first entry named x. */
  function EraseFirst(s: seq<string>, x: string): (r: seq<string>)
    ensures |r| == if x in s then |s| - 1 else |s|
    ensures NoDuplicates(s) ==> NoDuplicates(r) && forall y :: y in r <==> y in s && y != x
  {
    if s == [] then []
    else if s[0] == x then s[1..]
    else
      var rest := EraseFirst(s[1..], x);
      assert NoDuplicates(s) ==> forall j :: 0 <= j < |s[1..]| ==> s[1..][j] != s[0] by {
        if NoDuplicates(s) {
          forall j | 0 <= j < |s[1..]| ensures s[1..][j] != s[0] { assert s[1..][j] == s[j + 1]; }
        }
      }
      assert NoDuplicates(s) ==> NoDuplicates(s[1..]) by {
        if NoDuplicates(s) {
          forall i, j | 0 <= i < j < |s[1..]| ensures s[1..][i] != s[1..][j] {
            assert s[1..][i] == s[i + 1] && s[1..][j] == s[j + 1];
          }
        }
      }
      assert NoDuplicates(s) ==> NoDuplicates([s[0]] + rest) by {
        if NoDuplicates(s) {
          forall i, j | 0 <= i < j < |[s[0]] + rest| ensures ([s[0]] + rest)[i] != ([s[0]] + rest)[j] {
            assert ([s[0]] + rest)[j] == rest[j - 1] && rest[j - 1] in rest;
            if i > 0 { assert ([s[0]] + rest)[i] == rest[i - 1]; }
          }
        }
      }
      [s[0]] + rest
  }

  /** `find_if` stops at index i: erasing the first x is cutting out s[i]. */
  lemma {:induction false} EraseFirstAt(s: seq<string>, x: string, i: nat)
    requires i < |s| && s[i] == x
    requires forall j :: 0 <= j < i ==> s[j] != x
    ensures EraseFirst(s, x) == s[..i] + s[i + 1..]
  {
    if i > 0 {
      EraseFirstAt(s[1..], x, i - 1);
      assert s[1..][..i - 1] == s[1..i];
      assert s[..i] == [s[0]] + s[1..i];
      assert s[1..][i..] == s[i + 1..];
    }
  }

  /** Registering a new name with no neighbours, at the end of the list,
      keeps the registry, closure and symmetry. */
  lemma RegisterKeeps(g: Weights, stations: seq<string>, name: string)
    requires WellFormed(g, stations) && Symmetric(g) && name !in g
    ensures WellFormed(g[name := map[]], stations + [name])
    ensures Symmetric(g[name := map[]])
  {
    var s' := stations + [name];
    assert forall j :: 0 <= j < |stations| ==> s'[j] == stations[j];
  }

  /** Connecting two registered stations keeps every entry registered and
      keeps the two directions of every connection equal. */
  lemma ConnectKeeps(g: Weights, a: string, b: string, w: nat)
    requires a in g && b in g
    ensures Closed(g) ==> Closed(Connect(g, a, b, w))
    ensures Symmetric(g) ==> Symmetric(Connect(g, a, b, w))
  {
  }

  /** Disconnecting keeps the table closed and symmetric. */
  lemma DisconnectKeeps(g: Weights, a: string, b: string)
    requires a in g && b in g
    ensures Closed(g) ==> Closed(Disconnect(g, a, b))
    ensures Symmetric(g) ==> Symmetric(Disconnect(g, a, b))
  {
  }

  /** Dropping a station together with every entry for it keeps the table
      closed and symmetric. */
  lemma DropStationKeeps(g: Weights, x: string)
    ensures Closed(g) ==> Closed(DropStation(g, x))
    ensures Symmetric(g) ==> Symmetric(DropStation(g, x))
  {
  }

  /** Overwrite semantics: connecting the same pair twice leaves one
      connection, with the second weight. */
  lemma ConnectOverwrites(g: Weights, a: string, b: string, v: nat, w: nat)
    requires a in g && b in g
    ensures Connect(Connect(g, a, b, v), a, b, w) == Connect(g, a, b, w)
  {
    var r1, r2 := Connect(Connect(g, a, b, v), a, b, w), Connect(g, a, b, w);
    forall x | x in r1 ensures r1[x] == r2[x] {
      assert forall y :: y in r1[x] <==> y in r2[x];
    }
  }

  /** Disconnecting undoes a fresh connection: if neither a nor b listed the
      other, connecting and then disconnecting them restores the table. */
  lemma DisconnectUndoesConnect(g: Weights, a: string, b: string, w: nat)
    requires a in g && b in g && b !in g[a] && a !in g[b]
    ensures Disconnect(Connect(g, a, b, w), a, b) == g
  {
    var r := Disconnect(Connect(g, a, b, w), a, b);
    forall x | x in r ensures r[x] == g[x] {
      assert forall y :: y in r[x] <==> y in g[x];
    }
  }
}
