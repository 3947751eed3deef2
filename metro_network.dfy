/** The metro network (`MetroNetwork`): the station list, the name-keyed
    station table with each station's neighbours, and the ordered index of
    names, kept in step by the operations that add and remove stations and
    connections; fares are twice the shortest distance. */
module Metro {
  import opened Names
  import opened StationIndex
  import opened Graph
  import opened ShortestPath

  datatype Option<T> = None | Some(value: T)

  /** A station as `findStation` hands it out: its name and its neighbours. */
  datatype Station = Station(name: string, neighbors: map<string, nat>)

  class MetroNetwork {
    /** `stations`: the stations in the order they were added. */
    var stations: seq<string>
    /** `stationHashTable` together with every station's `neighbors`. */
    var table: Weights
    /** `stationBST`: the names in search-tree order. */
    var index: Tree

    /** The three views agree: the list and the table hold the same names,
        the list once each; every neighbour is registered; connections are
        symmetric; and the index is a search tree over the same names. */
    ghost predicate Valid()
      reads this
    {
      WellFormed(table, stations) && Symmetric(table) &&
      IsBST(index) && Keys(index) == table.Keys
    }

    /** A new network has no stations (the index root starts out empty). */
    constructor ()
      ensures Valid()
      ensures stations == [] && table == map[] && index == Leaf
    {
      stations := [];
      table := map[];
      index := Leaf;
    }

    /** `findStation`: look the name up in the table. */
    function FindStation(name: string): (r: Option<Station>)
      reads this
      ensures r.Some? <==> name in table
      ensures r.Some? ==> r.value.name == name && r.value.neighbors == table[name]
      ensures Valid() ==> (r.Some? <==> name in stations) && (r.Some? <==> name in Keys(index))
    {
      if name in table then Some(Station(name, table[name])) else None
    }

    /** `displayStations`: the names as the index lists them, which is in
        ascending order with every registered station exactly once. */
    function Listing(): (r: seq<string>)
      reads this
      requires Valid()
      ensures Ascending(r)
      ensures forall x :: x in r <==> x in stations
    {
      InOrderSorted(index);
      InOrder(index)
    }

    /** `addStation`: append to the list, register with no neighbours, and
        insert into the index. The name must not be registered yet. */
    method AddStation(name: string)
      requires Valid()
      requires name !in table
      modifies this
      ensures Valid()
      ensures stations == old(stations) + [name]
      ensures table == old(table)[name := map[]]
      ensures index == InsertRec(old(index), name)
      ensures Keys(index) == old(Keys(index)) + {name}
    {
      RegisterKeeps(table, stations, name);
      InsertRecCorrect(index, name);
      stations := stations + [name];
      table := table[name := map[]];
      index := InsertRec(index, name);
    }

    /** `addConnection`: when both names are registered, set each one's
        entry for the other to the distance, replacing any earlier one;
        otherwise change nothing. */
    method AddConnection(station1: string, station2: string, distance: nat)
      requires Valid()
      modifies this
      ensures Valid()
      ensures stations == old(stations) && index == old(index)
      ensures table == if station1 in old(table) && station2 in old(table)
                       then Connect(old(table), station1, station2, distance)
                       else old(table)
    {
      var s1 := FindStation(station1);
      var s2 := FindStation(station2);
      if s1.Some? && s2.Some? {
        ConnectKeeps(table, station1, station2, distance);
        var row1: map<string, nat> := table[station1][station2 := distance];
        table := table[station1 := row1];
        var row2: map<string, nat> := table[station2][station1 := distance];
        table := table[station2 := row2];
      }
    }

    /** `removeConnection`: when both names are registered and each lists
        the other, erase both entries; otherwise change nothing. */
    method RemoveConnection(station1: string, station2: string)
      requires Valid()
      modifies this
      ensures Valid()
      ensures stations == old(stations) && index == old(index)
      ensures table == if station1 in old(table) && station2 in old(table) &&
                          station2 in old(table)[station1] && station1 in old(table)[station2]
                       then Disconnect(old(table), station1, station2)
                       else old(table)
    {
      var s1 := FindStation(station1);
      var s2 := FindStation(station2);
      if s1.Some? && s2.Some? {
        var found1 := station2 in s1.value.neighbors;
        var found2 := station1 in s2.value.neighbors;
        if found1 && found2 {
          DisconnectKeeps(table, station1, station2);
          table := table[station1 := table[station1] - {station2}];
          table := table[station2 := table[station2] - {station1}];
        }
      }
    }

    /** `removeStation`: find the first list entry with the name; when there
        is one, erase it, erase every remaining station's entry for it, drop
        it from the table and remove it from the index; otherwise change nothing. */
    method RemoveStation(name: string)
      requires Valid()
      modifies this
      ensures Valid()
      ensures if name in old(stations) then
                stations == EraseFirst(old(stations), name) &&
                table == DropStation(old(table), name) &&
                index == RemoveNode(old(index), name)
              else
                stations == old(stations) && table == old(table) && index == old(index)
      ensures Keys(index) == old(Keys(index)) - {name}
    {
      var i := FindFirst(stations, name);
      if i < |stations| {
        EraseFirstAt(stations, name, i);
        var remaining := stations[..i] + stations[i + 1..];
        var t := Detach(table, remaining, name);
        DetachedIsDrop(table, t, remaining, name);
        DropStationKeeps(table, name);
        DropKeepsRegistry(table, stations, name);
        RemoveNodeCorrect(index, name);
        stations := remaining;
        table := t - {name};
        index := RemoveNode(index, name);
      } else {
        RemoveNodeAbsent(index, name);
      }
    }

    /** `calculateFare`: -1 when either name is unregistered or no route
        joins them; otherwise twice the least total distance of a route. */
    method CalculateFare(source: string, destination: string) returns (fare: int)
      requires Valid()
      ensures fare == -1 <==> source !in table || destination !in table || !Reachable(table, source, destination)
      ensures fare != -1 ==> fare >= 0 && fare % 2 == 0 && IsShortest(table, source, destination, fare / 2)
    {
      var sourceStation := FindStation(source);
      var destinationStation := FindStation(destination);
      if sourceStation.None? || destinationStation.None? {
        return -1;
      }
      var distances := Dijkstra(table, stations, source);
      var distance := distances[destination];
      if distance == Infinity {
        return -1;
      }
      fare := distance.value * 2;
    }
  }

  /** `find_if` over the station list: the index of the first entry with the
      name, or the list's length when there is none. */
  method FindFirst(stations: seq<string>, name: string) returns (i: nat)
    ensures i <= |stations|
    ensures i < |stations| ==> stations[i] == name
    ensures forall j :: 0 <= j < i ==> stations[j] != name
  {
    i := 0;
    while i < |stations| && stations[i] != name
      invariant i <= |stations|
      invariant forall j :: 0 <= j < i ==> stations[j] != name
    {
      i := i + 1;
    }
  }

  /** The loop of `removeStation` over the remaining stations: each one's
      entry for the name is erased when it has one. */
  method Detach(table: Weights, remaining: seq<string>, name: string) returns (t: Weights)
    requires NoDuplicates(remaining)
    requires forall k :: 0 <= k < |remaining| ==> remaining[k] in table
    ensures t.Keys == table.Keys
    ensures forall k :: 0 <= k < |remaining| ==> t[remaining[k]] == table[remaining[k]] - {name}
    ensures forall a :: a in table && a !in remaining ==> t[a] == table[a]
  {
    t := table;
    var j := 0;
    while j < |remaining|
      invariant 0 <= j <= |remaining|
      invariant t.Keys == table.Keys
      invariant forall k :: 0 <= k < j ==> t[remaining[k]] == table[remaining[k]] - {name}
      invariant forall k :: j <= k < |remaining| ==> t[remaining[k]] == table[remaining[k]]
      invariant forall a :: a in table && a !in remaining ==> t[a] == table[a]
    {
      var other := remaining[j];
      ghost var t0 := t;
      if name in t[other] {
        t := t[other := t[other] - {name}];
      } else {
        assert t[other] - {name} == t[other];
      }
      forall k | 0 <= k < |remaining| && k != j ensures t[remaining[k]] == t0[remaining[k]] {
        assert remaining[k] != other;
      }
      j := j + 1;
    }
  }

  /** Once every remaining station's entry for the name is erased, dropping
      the name's own entry leaves exactly `DropStation`. */
  lemma DetachedIsDrop(before: Weights, table: Weights, remaining: seq<string>, name: string)
    requires table.Keys == before.Keys
    requires forall y :: y in remaining <==> y in before && y != name
    requires forall k :: 0 <= k < |remaining| ==> table[remaining[k]] == before[remaining[k]] - {name}
    ensures table - {name} == DropStation(before, name)
  {
    forall a | a in table - {name} ensures (table - {name})[a] == before[a] - {name} {
      var k :| 0 <= k < |remaining| && remaining[k] == a;
    }
  }

  /** Erasing a registered name from the list and the table together keeps
      the two in step. */
  lemma DropKeepsRegistry(g: Weights, stations: seq<string>, name: string)
    requires Registry(g, stations)
    ensures Registry(DropStation(g, name), EraseFirst(stations, name))
  {
  }

  // ---------- The network that `main` builds ----------

  /** The table `main` builds: A, B, C, D joined A-B 5, B-C 3, C-D 4, D-A 7. */
  function MainTable(): Weights
  {
    map["A" := map["B" := 5, "D" := 7],
        "B" := map["A" := 5, "C" := 3],
        "C" := map["B" := 3, "D" := 4],
        "D" := map["C" := 4, "A" := 7]]
  }

  /** `main`'s network with a fifth station E added afterwards, unconnected. */
  function ExampleTable(): Weights
  {
    MainTable()["E" := map[]]
  }

  /** A table that holds `main`'s four stations with exactly `main`'s
      connections among them (other stations may be present but joined to none
      of the four). */
  ghost predicate MainRows(g: Weights)
  {
    "A" in g && "B" in g && "C" in g && "D" in g &&
    g["A"] == map["B" := 5, "D" := 7] && g["B"] == map["A" := 5, "C" := 3] &&
    g["C"] == map["B" := 3, "D" := 4] && g["D"] == map["C" := 4, "A" := 7]
  }

  lemma MainRowsHold()
    ensures MainRows(MainTable()) && MainRows(ExampleTable())
  {
  }

  /** The connections `main` makes, one `addConnection` after another,
      starting from A to D with no neighbours. */
  lemma MainTableBuilt(t0: Weights)
    requires t0 == map["A" := map[], "B" := map[], "C" := map[], "D" := map[]]
    ensures Connect(Connect(Connect(Connect(t0, "A", "B", 5), "B", "C", 3), "C", "D", 4), "D", "A", 7)
            == MainTable()
  {
    var t1 := ConnectAB(t0);
    var t2 := ConnectBC(t1);
    var t3 := ConnectCD(t2);
    ConnectDA(t3);
  }

  lemma ConnectAB(t0: Weights) returns (t1: Weights)
    requires t0 == map["A" := map[], "B" := map[], "C" := map[], "D" := map[]]
    ensures t1 == Connect(t0, "A", "B", 5)
    ensures t1 == map["A" := map["B" := 5], "B" := map["A" := 5], "C" := map[], "D" := map[]]
  {
    var rowA: map<string, nat> := map["B" := 5];
    var rowB: map<string, nat> := map["A" := 5];
    assert t0["A"]["B" := 5] == rowA && t0["B"]["A" := 5] == rowB;
    t1 := Connect(t0, "A", "B", 5);
    assert t1 == t0["A" := rowA]["B" := rowB];
  }

  lemma ConnectBC(t1: Weights) returns (t2: Weights)
    requires t1 == map["A" := map["B" := 5], "B" := map["A" := 5], "C" := map[], "D" := map[]]
    ensures t2 == Connect(t1, "B", "C", 3)
    ensures t2 == map["A" := map["B" := 5], "B" := map["A" := 5, "C" := 3], "C" := map["B" := 3], "D" := map[]]
  {
    var rowB: map<string, nat> := map["A" := 5, "C" := 3];
    var rowC: map<string, nat> := map["B" := 3];
    assert t1["B"]["C" := 3] == rowB && t1["C"]["B" := 3] == rowC;
    t2 := Connect(t1, "B", "C", 3);
    assert t2 == t1["B" := rowB]["C" := rowC];
  }

  lemma ConnectCD(t2: Weights) returns (t3: Weights)
    requires t2 == map["A" := map["B" := 5], "B" := map["A" := 5, "C" := 3], "C" := map["B" := 3], "D" := map[]]
    ensures t3 == Connect(t2, "C", "D", 4)
    ensures t3 == map["A" := map["B" := 5], "B" := map["A" := 5, "C" := 3], "C" := map["B" := 3, "D" := 4],
                      "D" := map["C" := 4]]
  {
    var rowC: map<string, nat> := map["B" := 3, "D" := 4];
    var rowD: map<string, nat> := map["C" := 4];
    assert t2["C"]["D" := 4] == rowC && t2["D"]["C" := 4] == rowD;
    t3 := Connect(t2, "C", "D", 4);
    assert t3 == t2["C" := rowC]["D" := rowD];
  }

  lemma ConnectDA(t3: Weights)
    requires t3 == map["A" := map["B" := 5], "B" := map["A" := 5, "C" := 3], "C" := map["B" := 3, "D" := 4],
                       "D" := map["C" := 4]]
    ensures Connect(t3, "D", "A", 7) == MainTable()
  {
    var rowD: map<string, nat> := map["C" := 4, "A" := 7];
    var rowA: map<string, nat> := map["B" := 5, "D" := 7];
    assert t3["D"]["A" := 7] == rowD && t3["A"]["D" := 7] == rowA;
    var t4 := t3["D" := rowD]["A" := rowA];
    assert Connect(t3, "D", "A", 7) == t4;
    var e := MainTable();
    assert t4.Keys == e.Keys;
    assert t4["A"] == e["A"] && t4["B"] == e["B"] && t4["C"] == e["C"] && t4["D"] == e["D"];
  }

  /** Any ascending listing of the five example stations is A, B, C, D, E. */
  lemma ExampleListed(listing: seq<string>)
    requires Ascending(listing)
    requires forall x :: x in listing <==> x in ExampleTable()
    ensures listing == ["A", "B", "C", "D", "E"]
  {
    var names := ["A", "B", "C", "D", "E"];
    assert Ascending(names);
    AscendingUnique(listing, names);
  }

  /** The potential A 0, B 5, C 8, D 7 admits no improving edge. */
  lemma MainPotential(g: Weights) returns (pot: map<string, Distance>)
    requires MainRows(g)
    ensures "A" in pot && pot["A"] == Finite(0)
    ensures "C" in pot && pot["C"] == Finite(8) && "D" in pot && pot["D"] == Finite(7)
    ensures forall x :: x in pot && pot[x].Finite? ==> Relaxed(g, pot, x)
  {
    pot := map["A" := Finite(0), "B" := Finite(5), "C" := Finite(8), "D" := Finite(7)];
  }

  /** A-C is 8 (through B). */
  lemma MainAC(g: Weights)
    requires MainRows(g)
    ensures IsShortest(g, "A", "C", 8)
  {
    var p := MainRouteAC(g);
    MainAtLeast(g, "C");
  }

  /** A-D is 7 (direct). */
  lemma MainAD(g: Weights)
    requires MainRows(g)
    ensures IsShortest(g, "A", "D", 7)
  {
    var p := MainRouteAD(g);
    MainAtLeast(g, "D");
  }

  /** The route A-B-C, of length 8. */
  lemma MainRouteAC(g: Weights) returns (p: seq<string>)
    requires MainRows(g)
    ensures IsPath(g, p, "A", "C") && PathLength(g, p) == 8
  {
    p := ["A", "B", "C"];
    assert "B" in g["A"] && "C" in g["B"];
    assert IsWalk(g, p);
    PathExtend(g, ["A"], "B");
    PathExtend(g, ["A", "B"], "C");
    assert ["A"] + ["B"] == ["A", "B"] && ["A", "B"] + ["C"] == p;
    assert Weight(g, "A", "B") == 5 && Weight(g, "B", "C") == 3;
  }

  /** The direct link A-D, of length 7. */
  lemma MainRouteAD(g: Weights) returns (p: seq<string>)
    requires MainRows(g)
    ensures IsPath(g, p, "A", "D") && PathLength(g, p) == 7
  {
    p := ["A", "D"];
    assert "D" in g["A"];
    assert IsWalk(g, p);
    PathExtend(g, ["A"], "D");
    assert ["A"] + ["D"] == p;
    assert Weight(g, "A", "D") == 7;
  }

  /** No route from A is shorter than the potential of its end. */
  lemma MainAtLeast(g: Weights, v: string)
    requires MainRows(g)
    ensures v == "C" ==> forall q :: IsPath(g, q, "A", v) ==> 8 <= PathLength(g, q)
    ensures v == "D" ==> forall q :: IsPath(g, q, "A", v) ==> 7 <= PathLength(g, q)
  {
    var pot := MainPotential(g);
    forall q | IsPath(g, q, "A", v) ensures v in pot && pot[v].Finite? && pot[v].value <= PathLength(g, q) {
      LowerBound(g, "A", pot, q, v);
    }
  }

  /** Nothing reaches the unconnected E. */
  lemma ExampleAE()
    ensures !Reachable(ExampleTable(), "A", "E")
  {
    Unlisted(ExampleTable(), "A", "E");
  }

  /** The four stations `main` adds, in its order. */
  method MainStations() returns (metro: MetroNetwork)
    ensures fresh(metro) && metro.Valid()
    ensures metro.table == map["A" := map[], "B" := map[], "C" := map[], "D" := map[]]
  {
    metro := new MetroNetwork();
    metro.AddStation("A");
    metro.AddStation("B");
    metro.AddStation("C");
    assert metro.table == map["A" := map[], "B" := map[], "C" := map[]];
    metro.AddStation("D");
  }

  /** The network of `main`: four stations, then four connections. */
  method MainNetwork() returns (metro: MetroNetwork)
    ensures fresh(metro) && metro.Valid()
    ensures metro.table == MainTable()
  {
    metro := MainStations();
    ghost var t0 := metro.table;
    metro.AddConnection("A", "B", 5);
    metro.AddConnection("B", "C", 3);
    metro.AddConnection("C", "D", 4);
    metro.AddConnection("D", "A", 7);
    MainTableBuilt(t0);
  }

  /** `main`'s network with E added after the connections. */
  method ExampleNetwork() returns (metro: MetroNetwork)
    ensures fresh(metro) && metro.Valid()
    ensures metro.table == ExampleTable()
  {
    metro := MainNetwork();
    metro.AddStation("E");
  }

  /** `main`'s own network: A to C costs 16 and A to D costs 14. */
  method MainFares() returns (ac: int, ad: int)
    ensures ac == 16 && ad == 14
  {
    var metro := MainNetwork();
    MainRowsHold();
    ac := MainFareAC(metro);
    ad := MainFareAD(metro);
  }

  /** With E added the same fares hold, A to E gives -1, and the stations
      list as A, B, C, D, E. */
  method ExampleOutcomes() returns (ac: int, ad: int, ae: int, listing: seq<string>)
    ensures ac == 16 && ad == 14 && ae == -1
    ensures listing == ["A", "B", "C", "D", "E"]
  {
    var metro := ExampleNetwork();
    MainRowsHold();
    ac := MainFareAC(metro);
    ad := MainFareAD(metro);
    ae := ExampleFareAE(metro);
    listing := ExampleDisplay(metro);
  }

  /** On `main`'s connections the fare A to C is 16 (route A-B-C, 8 units). */
  method MainFareAC(metro: MetroNetwork) returns (fare: int)
    requires metro.Valid() && MainRows(metro.table)
    ensures fare == 16
  {
    MainAC(metro.table);
    fare := metro.CalculateFare("A", "C");
    ShortestUnique(metro.table, "A", "C", fare / 2, 8);
  }

  /** On `main`'s connections the fare A to D is 14 (the direct 7-unit link). */
  method MainFareAD(metro: MetroNetwork) returns (fare: int)
    requires metro.Valid() && MainRows(metro.table)
    ensures fare == 14
  {
    MainAD(metro.table);
    fare := metro.CalculateFare("A", "D");
    ShortestUnique(metro.table, "A", "D", fare / 2, 7);
  }

  /** With E added and left unconnected, no route leads from A to E. */
  method ExampleFareAE(metro: MetroNetwork) returns (fare: int)
    requires metro.Valid() && metro.table == ExampleTable()
    ensures fare == -1
  {
    ExampleAE();
    fare := metro.CalculateFare("A", "E");
  }

  /** With E added, the stations list in alphabetical order. */
  method ExampleDisplay(metro: MetroNetwork) returns (listing: seq<string>)
    requires metro.Valid() && metro.table == ExampleTable()
    ensures listing == ["A", "B", "C", "D", "E"]
  {
    listing := metro.Listing();
    ExampleListed(listing);
  }
}
