# Metro fare calculator — a verified Dafny model

The system is a small metro network manager. Stations are named. They are
joined by undirected connections that have an integer distance. Three views
of the station set are kept in step: a list of stations in the order they
were added, a name-keyed table that also holds each station's neighbour map,
and an unbalanced binary search tree of names used to list the stations
alphabetically. The fare between two stations is twice the least total
distance of a route. It is -1 when either name is unknown or no route exists.
Shortest distances come from a lazy Dijkstra search over a min-heap.

The model has five modules:

- `Names` (names.dfy): the order on station names. It is lexicographic by
  character code, the order that `<` and `>` give on strings. It is proved
  irreflexive, asymmetric, transitive and total.
- `StationIndex` (station_index.dfy): the name tree, with `insertRec`,
  `inorderRec`, `removeNode` and `minValueNode`. Trees are values, and each
  operation returns the rewired tree.
- `Graph` (graph.dfy): the registry (list plus table) and the adjacency
  store. It holds the two entry writes of a connection, the two erases of a
  disconnection, and dropping a station.
- `ShortestPath` (shortest_path.dfy): paths, path lengths, reachability and
  shortest distances as the specification. It also holds `dijkstra` as an
  imperative search with a multiset frontier, proved against that
  specification.
- `Metro` (metro_network.dfy): the `MetroNetwork` class. Its fields are
  `stations`, `table` and `index`, kept consistent by `Valid()`. Its methods
  are `addStation`, `addConnection`, `removeConnection`, `removeStation`,
  `calculateFare`, `findStation` and the alphabetical listing. The module
  ends with the network that `main` builds and its fares, and the same
  network with an unconnected station E added.

## Model

| member | source | states |
|---|---|---|
| Names.BelowStrict | code.cpp:52-54 | no name sorts before itself, and two names never sort before each other |
| Names.BelowTransitive | code.cpp:52-54 | the name order is transitive |
| Names.BelowTotal | code.cpp:52-56 | two names that are neither below nor above each other are equal, so the fall-through branch of the comparison has found the name itself |
| Names.Below | code.cpp:52-54 | the string comparison `<`: a name never sorts before itself, and a proper prefix sorts before every longer name it begins |
| StationIndex.InsertRec | code.cpp:47-59 | descends by name, adds a leaf where the name belongs and returns the tree unchanged on an exact duplicate; the result is a node that holds the name |
| StationIndex.InOrder | code.cpp:61-67 | left subtree, the node's name, right subtree; the listing holds exactly the tree's names |
| StationIndex.RemoveNode | code.cpp:231-263 | descends by name; a node with at most one child is replaced by that child; a two-child node takes the least name on its right, which is then removed on the right; the result holds no name the tree did not hold |
| StationIndex.InsertRecCorrect | code.cpp:47-59 | insertion adds exactly the given name and keeps the search-tree order; inserting a name already present leaves the tree unchanged |
| StationIndex.InOrderSorted | code.cpp:61-67 | the in-order listing of a search tree is strictly ascending and lists exactly the tree's names |
| StationIndex.AscendingUnique | code.cpp:61-67 | two strictly ascending listings of the same names are equal |
| StationIndex.ListingCanonical | code.cpp:61-67 | two search trees over the same names list the same sequence, whatever the order of insertions and removals |
| StationIndex.ListingExample | code.cpp:47-67 | inserting D, B, A, C lists A, B, C, D |
| StationIndex.TreeMin | code.cpp:266-274 | the leftmost name of a non-empty tree is one of its names |
| StationIndex.TreeMinLeast | code.cpp:266-274 | in a search tree the leftmost name is the least name |
| StationIndex.MinValueNode | code.cpp:266-274 | following left children ends at a node with no left child, and that node holds the tree's leftmost name, which is the least in a search tree |
| StationIndex.RemoveNodeCorrect | code.cpp:231-263 | removal takes out exactly the given name and keeps the search-tree order, including the two-child case that copies up the in-order successor |
| StationIndex.RemoveNodeAbsent | code.cpp:231-240 | removing a name that is not stored leaves the tree unchanged |
| Graph.Connect | code.cpp:84-85 | the station set is unchanged; both directed entries hold the new weight; every other entry is unchanged |
| Graph.Disconnect | code.cpp:166-167 | the station set is unchanged; both directed entries are gone; every other entry is unchanged |
| Graph.DropStation | code.cpp:137-145 | the station is unregistered, no remaining station lists it, and every other entry is unchanged |
| Graph.EraseFirst | code.cpp:129-134 | erasing the first occurrence makes the list one shorter exactly when the name was present; on a duplicate-free list it removes exactly that name |
| Graph.EraseFirstAt | code.cpp:129-134 | when the first occurrence is at index i, erasing it is cutting out position i |
| Graph.RegisterKeeps | code.cpp:72-75 | registering a new name with no neighbours at the end of the list keeps the registry, closure and symmetry |
| Graph.ConnectKeeps | code.cpp:83-85 | connecting two registered stations keeps every neighbour registered and both directions of every connection equal |
| Graph.DisconnectKeeps | code.cpp:165-167 | disconnecting keeps closure and symmetry |
| Graph.DropStationKeeps | code.cpp:137-145 | dropping a station with every entry for it keeps closure and symmetry |
| Graph.ConnectOverwrites | code.cpp:84-85 | connecting the same pair twice leaves one connection, with the second weight |
| Graph.DisconnectUndoesConnect | code.cpp:157-167 | removing a connection that was just added to an unconnected pair restores the table |
| ShortestPath.Improves | code.cpp:214 | the test `newDistance < distances[v]` with the `INT_MAX` sentinel above every finite distance: the sentinel is improved by every distance, and a distance never improves on itself |
| ShortestPath.ShortestUnique | code.cpp:197-222 | the shortest distance between two stations is unique |
| ShortestPath.LowerBound | code.cpp:208-219 | a distance map that is 0 at the source and admits no improving edge is a lower bound on every path length |
| ShortestPath.Unlisted | code.cpp:201-203 | a station that no station lists as a neighbour cannot be reached from any other station |
| ShortestPath.PathExtend | code.cpp:213 | extending a path by one edge adds that edge's weight to its length |
| ShortestPath.PrefixLength | code.cpp:213 | a prefix of a path is no longer than the path |
| ShortestPath.MaxWeight | code.cpp:212-213 | an upper bound on every edge weight of the table |
| ShortestPath.WalkLengthBound | code.cpp:212-216 | a walk of k edges has length at most k times the largest weight |
| ShortestPath.DistinctBound | code.cpp:201-203 | a walk without repeated stations has at most as many stations as are registered |
| ShortestPath.RelaxRecords | code.cpp:213-216 | the improved neighbour is neither the popped station nor the source, its new distance is within the search bound, and it is recorded with the popped station's path extended by it |
| ShortestPath.OthersStayRecorded | code.cpp:215 | lowering one station's distance keeps every other finite station's recorded path valid |
| ShortestPath.RelaxStep | code.cpp:213-216 | an improving relaxation never targets the popped station or the source, stays within the search bound, and keeps every finite distance the length of a recorded path |
| ShortestPath.SumPotUpdate | code.cpp:215 | lowering one station's distance strictly lowers the potential that measures progress |
| ShortestPath.MinEntryExists | code.cpp:209 | a non-empty frontier has an entry of least distance |
| ShortestPath.Top | code.cpp:209 | the chosen entry is in the frontier and no entry has a smaller distance |
| ShortestPath.ScanImproving | code.cpp:214-216 | an improving edge keeps the scan invariant and strictly lowers the potential |
| ShortestPath.ScanNotImproving | code.cpp:214 | a non-improving edge keeps the scan invariant |
| ShortestPath.SearchStarts | code.cpp:201-206 | the state with only the source at 0 and only the source on the frontier satisfies the search invariant |
| ShortestPath.SearchEnds | code.cpp:208-221 | once the frontier is empty, every finite entry is the shortest distance and exactly the unreachable stations keep the sentinel |
| ShortestPath.Unvisited | code.cpp:201-203 | every registered station gets an entry, and every entry is the sentinel |
| ShortestPath.ScanNeighbours | code.cpp:212-218 | relaxing every edge out of the popped station keeps the search invariant, and either lowers the potential or leaves it and the frontier unchanged |
| ShortestPath.Dijkstra | code.cpp:197-222 | every registered station has an entry; the source is at 0; an entry is finite exactly when the station is reachable; every finite entry is the shortest distance |
| Metro.MetroNetwork.constructor | code.cpp:45 | a new network is empty and consistent |
| Metro.MetroNetwork.FindStation | code.cpp:183-190 | a station is found exactly when its name is in the table, with that table entry's neighbours; in a consistent network, also exactly when it is in the list and in the tree |
| Metro.MetroNetwork.Listing | code.cpp:122-126 | the alphabetical listing is strictly ascending and lists exactly the registered stations |
| Metro.MetroNetwork.AddStation | code.cpp:72-77 | the name is appended to the list, registered with no neighbours and inserted into the tree; consistency is kept |
| Metro.MetroNetwork.AddConnection | code.cpp:79-89 | with both names registered, the table becomes the connected table; otherwise nothing changes; list and tree are untouched; consistency is kept |
| Metro.MetroNetwork.RemoveConnection | code.cpp:157-175 | with both names registered and listing each other, both entries are erased; otherwise nothing changes; consistency is kept |
| Metro.MetroNetwork.RemoveStation | code.cpp:128-155 | for a listed name, the first list entry, the table entry, every entry pointing at it and its tree node are removed; for an unlisted name nothing changes; consistency is kept in both cases |
| Metro.MetroNetwork.CalculateFare | code.cpp:91-110 | the fare is -1 exactly when a name is unknown or no route exists; otherwise it is even, non-negative and half of it is the shortest distance |
| Metro.FindFirst | code.cpp:129-130 | the index of the first entry with the name, or the list's length when there is none |
| Metro.Detach | code.cpp:137-142 | every remaining station's row loses its entry for the removed name, and every other row is unchanged |
| Metro.DetachedIsDrop | code.cpp:137-145 | the detached table without the removed name's own row is exactly the dropped table |
| Metro.DropKeepsRegistry | code.cpp:134-145 | erasing a name from both the list and the table keeps the two in step |
| Metro.MainRowsHold | code.cpp:334-341 | both `main`'s table and the table with E added hold `main`'s four stations with exactly `main`'s connections |
| Metro.MainTableBuilt | code.cpp:338-341 | `main`'s four connections, made on A to D with no neighbours, give `main`'s table |
| Metro.ExampleListed | code.cpp:122-126 | any ascending listing of the five example stations is A, B, C, D, E |
| Metro.MainPotential | code.cpp:338-341 | on `main`'s connections the distances A 0, B 5, C 8, D 7 admit no improving edge |
| Metro.MainAC | code.cpp:338-341 | on `main`'s connections the shortest distance from A to C is 8 |
| Metro.MainAD | code.cpp:338-341 | on `main`'s connections the shortest distance from A to D is 7 |
| Metro.MainRouteAC | code.cpp:338-339 | A-B-C is a route of length 8 |
| Metro.MainRouteAD | code.cpp:341 | A-D is a route of length 7 |
| Metro.MainAtLeast | code.cpp:338-341 | no route from A is shorter than 8 to C or shorter than 7 to D |
| Metro.ExampleAE | code.cpp:95-105 | no route leads from A to a station E that is added unconnected |
| Metro.MainStations | code.cpp:334-337 | adding A, B, C, D gives four registered stations with no neighbours |
| Metro.MainNetwork | code.cpp:333-341 | the stations and connections of `main`, made through the network's own operations, give `main`'s table |
| Metro.ExampleNetwork | code.cpp:72-77 | `main`'s network with E then added gives the five-station table |
| Metro.MainFareAC | code.cpp:91-110 | on any valid network with `main`'s connections, the fare from A to C is 16 |
| Metro.MainFareAD | code.cpp:91-110 | on any valid network with `main`'s connections, the fare from A to D is 14 |
| Metro.MainFares | code.cpp:333-341 | on `main`'s own network the fares A to C and A to D are 16 and 14 |
| Metro.ExampleFareAE | code.cpp:103-105 | with E added unconnected, the fare from A to E is -1 |
| Metro.ExampleDisplay | code.cpp:122-126 | with E added, the stations list as A, B, C, D, E |
| Metro.ExampleOutcomes | code.cpp:91-126 | with E added, A to C still costs 16 and A to D 14, A to E gives -1, and the listing is A, B, C, D, E |

## Left out

- Console input and output: the interactive menu and its prompts (code.cpp:277-385) and every message printed on success or failure. Each operation's effect on the network is modelled, not its messages.
- `displayNetwork` (code.cpp:112-120) only prints; `displayStations` is modelled as `Listing`, which returns the names it would print.
- Memory: `new`, `delete` and the destructor (code.cpp:177-181). Stations are identified by name instead of by pointer.
- The tree root is declared without an initialiser (code.cpp:45). The model starts with an empty tree, which is what the program relies on.
- Metro.MetroNetwork.AddStation: demands a name not yet registered. Adding a duplicate name would leave two list entries for one name, with the table pointing at the new station and the tree at the old one.
- Metro.MetroNetwork.AddConnection: the distance is a `nat`. Negative distances, which the program accepts without a check, are left out because a shortest distance is then not defined for every pair.
- `int` overflow: distances are unbounded naturals, and the `INT_MAX` sentinel is the separate value `Infinity`. Three machine-integer effects are therefore not modelled: a sum `distances[u] + weight` that wraps past `INT_MAX`; a station whose true shortest distance is exactly `INT_MAX`, which the program never improves (the test `INT_MAX < INT_MAX` fails) and so reports as unreachable with fare -1, where the model gives it a finite distance and a fare; and the fare product `distance * 2`, which overflows for any distance above `INT_MAX / 2`.
- Tree nodes are rewired in place in the program. The model works on tree values, so it does not capture aliasing of nodes.
- ShortestPath.Top: the program's heap is not modelled. `Top` returns some entry of least distance; which equal-distance entry the heap would pick is left open, and every choice is proved correct.
- ShortestPath.ScanNeighbours: the neighbours are visited in an arbitrary order, while the program's pointer-keyed map visits them in address order. Every order is proved correct.
- Metro.MetroNetwork.RemoveConnection: removing a self-connection erases the same entry twice in the program, which is undefined. The model erases it once.
- `dijkstra` takes the table and the list as values, so the guarantee that it changes nothing is structural.
- Beside `main`'s own network, a second example adds a fifth station, E, with no connections, after `main`'s connections. It shows the -1 fare for a station with no route.
- Names.Below: compares Dafny characters (code points), while the program compares bytes as unsigned values. The two agree for UTF-8 text, which names are taken to be; names that are not valid UTF-8 are not modelled.
