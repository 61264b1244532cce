# Campus navigation: verified model of its core

This project is a Dafny model of the core of a campus navigation system. A
handheld device (an ESP32 with a push button, a tilt sensor and a small
display) lets the user pick a destination building and floor. It sends the
nearby WiFi access points to a geolocation service, then sends the position
it gets back, with the floor and the destination, to the campus server,
which answers with a route. The server keeps a graph of the campus:

- building entrances, stairs and elevators are nodes;
- walkways are edges weighted by geodesic distance;
- stairs and elevators are replicated onto every floor and chained with
  weight-20 "altitude" edges.

The model covers both sides of that exchange:

- **The server's graph store and its algorithms** (`server_src/graph.py`):
  - the `Graph` class, with its node table, its building, floor and type
    indexes and its adjacency map;
  - `get_closest_node`;
  - `sssp`, which is Dijkstra's algorithm over a priority queue, proved to
    return a shortest-path tree;
  - `parse_sssp_parent` and `find_shortest_path`;
  - `create_graph`, with its three loops and every error they raise;
  - the `Polygon` ray-casting test and `get_current_building`;
  - the pure logic of the CSV readers: node ids, and the consecutive pairs
    of a polyline.
- **The firmware's state machines:**
  - the debounced push button, `src/Button.cpp`;
  - the destination picker, `src/DestinationSelection.cpp` and its revision
    under `tests/destination_selection`;
  - the navigation loop, `tests/navigation/src/Navigation.cpp`.
- **Two buffer routines of the API client** (`tests/api_client/src/ApiClient.cpp`):
  - `char_append`;
  - `wifi_object_builder`, together with what a reader gets back from the JSON text it writes.

## How the model is laid out

Each state-changing entity is a `class` whose methods change its fields:

- `NavGraph.Graph`;
- `PushButton.Button`;
- `Picker.DestinationSelection`;
- `Navigation.Navigation`.

Each of these methods is proved against a pure function of the old fields.
Examples are `Graph.AddEdge` against `Link`, `Button.Update` against
`PushButton.Step` and `Sssp` against the search-state function
`PathSearch.Step`. The properties the source promises are then lemmas about
those functions.

The loops of the source are `while` loops with invariants:

- `NearestNode`, `Sssp`, `ParseSsspParent`, `NearestOf`;
- every loop of `create_graph`;
- `EdgesToCheck`, `IsWithinArea`, `GetCurrentBuilding`;
- `LocationIndex` and `PolylineEdges`.

The C buffers are `array<char>`. Python's exceptions, C's failure returns
and dictionary misses are modelled as `Result` values that carry a
`GraphError`.

Modules:

- **`Wrappers`, `CInt` and `Text`** (text.dfy):
  - `Option` and `Result`;
  - C's unsigned wrap-around;
  - `split`/`join`, decimal `str(int)` and two-digit hexadecimal.
- **`NavGraph`** (graph.dfy): the `Graph` class and its search methods.
- **`PathSearch`** (path_search.dfy):
  - paths, the shortest-path-tree predicate and the state of Dijkstra's loop;
  - the invariant that the loop keeps.
- **`GraphBuilder`** (builder.dfy): `create_graph`.
- **`Geometry`** (geometry.dfy): polygons, ray casting and `get_current_building`.
- **`NodeIds`** (node_ids.dfy): node ids and polyline pairs.
- **`PushButton`, `Navigation`, `Picker` and `PickerTestRevision`**: the firmware.
- **`ApiBuffers`** (api_buffers.dfy): `char_append` and `wifi_object_builder`.

### Behaviour of graph.py that the model keeps

- **`get_closest_node`** ignores its `floor` and `node_type` arguments and
  always searches the nodes filed under floor 0 (graph.py:185-203). So every
  floor copy made by `create_graph` is joined to the nearest floor-0 node,
  whatever that node's type.
- **`find_shortest_path` with no reachable node in the building** keeps
  `destination` at `None`, and `parse_sssp_parent(parent, None)` then raises
  `KeyError` (graph.py:261-268). `FindShortestPath` returns `Err(NoneKey)` in
  exactly that case.
- **The destinations of `find_shortest_path`** are all nodes filed under the
  building, of any floor and type (graph.py:260-266).
- **`Polygon`** validates nothing. Only an empty vertex list fails, because
  `vertices[0]` raises `IndexError` (graph.py:295); a polygon of one or two
  vertices is accepted.
- **A node and its closest node:** since the search is on floor 0 only
  (graph.py:190), a node is not in general its own closest node. Two facts
  are proved instead. `ClosestIsSelf` covers a floor-0 node whose location no
  other floor-0 node shares, under a metric distance. `GetClosestNode`'s
  contract says that a node standing at the query point yields a node at
  that point.
- **`parse_sssp_parent`** follows parent links until it meets `None`
  (graph.py:241-252). On a parent map with a cycle this loop would not end,
  and on a link to an id without an entry it would raise `KeyError`. Its only
  caller passes the parent map of `sssp`, which is a forest, so
  `ParseSsspParent` requires that and covers the missing destination only.

## Model

| member | source | states |
|---|---|---|
| NavGraph.TypeCode | server_src/graph.py:37-40 | a node type's code is one of the letters `b`, `e`, `s` |
| NavGraph.TypeCodeRoundTrip | server_src/graph.py:37-40 | reading a type back from its letter gives the same type |
| NavGraph.Link | server_src/graph.py:140-147 | `add_edge` keeps the node set, adds each end to the other's row and stores the weight in both orientations |
| NavGraph.LinkOthers | server_src/graph.py:140-147 | `add_edge` leaves every entry outside the two ends' pair unchanged |
| NavGraph.AddNodeIndexed | server_src/graph.py:120-138 | `add_node` keeps the building, floor and type indexes consistent with the node table |
| NavGraph.ResetRowClosed | server_src/graph.py:125 | emptying a node's row keeps every neighbour a node with a row |
| NavGraph.NewRowSymmetric | server_src/graph.py:125 | an empty row for a new id keeps the adjacency symmetric |
| NavGraph.LinkClosed | server_src/graph.py:140-147 | `add_edge` between two nodes keeps every neighbour a node |
| NavGraph.LinkSymmetric | server_src/graph.py:140-147 | `add_edge` keeps the adjacency symmetric |
| NavGraph.LinkNonNegative | server_src/graph.py:140-147 | `add_edge` with a non-negative weight keeps all weights non-negative |
| NavGraph.ClosestIsSelf | server_src/graph.py:185-203 | under a metric, the closest node to a node's own location, among nodes at other locations, is that node |
| NavGraph.Reverse | server_src/graph.py:252 | `path[::-1]` has the same length with position i holding the element at position len-1-i |
| NavGraph.Graph.constructor | server_src/graph.py:91-97 | a new graph has an empty node table, empty indexes and an empty adjacency map, and is consistent and symmetric |
| NavGraph.Graph.ContainsFloor | server_src/graph.py:99-100 | in a consistent graph, no node lies on a floor that is not indexed |
| NavGraph.Graph.ContainsBuilding | server_src/graph.py:102-103 | in a consistent graph, no node belongs to a building that is not indexed |
| NavGraph.Graph.ContainsType | server_src/graph.py:105-106 | in a consistent graph, no node has a type that is not indexed |
| NavGraph.Graph.ContainsNode | server_src/graph.py:108-112 | in a consistent graph, true exactly for the ids that have a row |
| NavGraph.Graph.ContainsEdge | server_src/graph.py:114-118 | in a symmetric graph it is the same test in either orientation; both ends are nodes |
| NavGraph.Graph.GetNode | server_src/graph.py:149-153 | fails with the unknown id exactly when the node is absent; otherwise returns the node with that id |
| NavGraph.Graph.GetNeighbors | server_src/graph.py:161-165 | fails exactly for an id without a row; neighbours are nodes and each is joined back to the id |
| NavGraph.Graph.GetNodesByBuilding | server_src/graph.py:167-171 | fails exactly for an unindexed building; otherwise returns every node of that building, and only nodes |
| NavGraph.Graph.GetNodesByFloor | server_src/graph.py:173-174 | fails exactly for an unindexed floor; otherwise returns every node on that floor, and only nodes |
| NavGraph.Graph.GetNodesByType | server_src/graph.py:176-177 | fails exactly for an unindexed type; otherwise returns every node of that type, and only nodes |
| NavGraph.Graph.GetNodeIds | server_src/graph.py:179-180 | in a consistent graph, the ids are exactly the nodes with rows |
| NavGraph.Graph.GetWeight | server_src/graph.py:182-183 | succeeds exactly when the edge exists, failing on the missing id; the weight is the same in the other orientation |
| NavGraph.Graph.AddNode | server_src/graph.py:120-138 | files or replaces the node, empties its row, adds its id to its building, floor and type indexes, and keeps the graph consistent |
| NavGraph.Graph.AddEdge | server_src/graph.py:140-147 | fails, changing nothing, exactly when an end is not a node; otherwise links the ends with the given weight or their distance, and keeps everything else |
| NavGraph.Graph.NearestNode | server_src/graph.py:194-203 | none exactly for an empty candidate set; otherwise a candidate whose distance to the point no candidate beats |
| NavGraph.Graph.GetClosestNode | server_src/graph.py:185-203 | fails exactly when floor 0 is missing (KeyError) or empty (the `None` attribute); otherwise returns a closest floor-0 node, whatever floor and type were asked for; under a metric, a node at the point yields a node at the point |
| NavGraph.Graph.Sssp | server_src/graph.py:205-238 | fails exactly when the source is not a node; otherwise the distances and parents form a shortest-path tree rooted at the source |
| NavGraph.Graph.RelaxEdge | server_src/graph.py:228-236 | one neighbour's relaxation has the effect the search-state function gives it, on queue, distances and parents |
| NavGraph.Graph.RelaxNeighbours | server_src/graph.py:226-236 | relaxing every neighbour of the popped node has the effect the search-state function gives it |
| NavGraph.Graph.ParseSsspParent | server_src/graph.py:241-252 | fails exactly for a destination without a parent entry; otherwise a parent chain from a root that ends at the destination |
| NavGraph.Graph.NearestOf | server_src/graph.py:259-266 | none exactly when no target has a finite distance; otherwise a target of least finite distance, with that distance |
| NavGraph.Graph.FindShortestPath | server_src/graph.py:254-268 | fails its assertion exactly for an unknown source or building; fails on the `None` key exactly when no node of the building is reachable; otherwise returns a path from the source into the building with its weight, no heavier than any such path when weights are non-negative |
| NavGraph.Graph.RouteInto | server_src/graph.py:258-268 | given a shortest-path tree, returns a path into the target set of least weight, or the `None`-key failure exactly when no path exists |
| PathSearch.RelaxedBoundsPaths | server_src/graph.py:205-238 | when every edge is relaxed, the distance of a path's last node is finite and bounded by the path's weight |
| PathSearch.ClosedReach | server_src/graph.py:205-238 | a path starting at a node of finite distance ends at a node of finite distance |
| PathSearch.TreePathWeight | server_src/graph.py:241-252 | a parent chain of a shortest-path tree is a path from the source whose weight is its last node's distance |
| PathSearch.ShortestDistances | server_src/graph.py:205-238 | in a shortest-path tree a node's distance is finite iff some path reaches it, and with non-negative weights no path to it is lighter |
| PathSearch.TargetsReached | server_src/graph.py:259-266 | some target has a finite distance iff some path from the source ends in the target set |
| PathSearch.NearestTarget | server_src/graph.py:259-266 | with non-negative weights, the target of least distance is no farther than any path into the target set |
| PathSearch.ChainTo | server_src/graph.py:246-252 | every node with a parent entry has a parent chain ending at it |
| PathSearch.MinEntryExists | server_src/graph.py:226 | a non-empty priority queue has a least entry in the order Python compares tuples |
| PathSearch.InitialSearch | server_src/graph.py:216-223 | the state before the loop, with source distance 0, all others infinite and the source queued, satisfies the loop invariant |
| PathSearch.StepPreserves | server_src/graph.py:225-236 | popping the least entry and relaxing its neighbours keeps the loop invariant and marks the popped node seen |
| PathSearch.StepProgress | server_src/graph.py:225-236 | each pass either marks a new node seen or shrinks the queue, so the loop ends |
| PathSearch.SearchDone | server_src/graph.py:225-238 | the invariant with an empty queue makes the distances and parents a shortest-path tree |
| GraphBuilder.LinkAll | server_src/graph.py:140-147 | a run of `add_edge` calls keeps the set of nodes with rows |
| GraphBuilder.LinkAllNeighbours | server_src/graph.py:140-147 | after the calls, b is a neighbour of a iff it was before or some call joined them |
| GraphBuilder.LinkAllUntouched | server_src/graph.py:140-147 | an entry no call joins keeps its weight |
| GraphBuilder.LinkAllLast | server_src/graph.py:140-147 | a joined pair holds, both ways, the weight of the last call that joined it |
| GraphBuilder.LinkAllKeeps | server_src/graph.py:140-147 | calls that each touch a set X keep every entry between nodes outside X |
| GraphBuilder.LinkAllClosed | server_src/graph.py:140-147 | calls between nodes keep every neighbour a node |
| GraphBuilder.LinkAllSymmetric | server_src/graph.py:140-147 | the calls keep the adjacency symmetric |
| GraphBuilder.LinkAllNonNegative | server_src/graph.py:140-147 | calls with non-negative weights keep all weights non-negative |
| GraphBuilder.FiledKeys | server_src/graph.py:120-124 | after `add_node` on each node of a run, the table's ids are the old ids and the run's ids |
| GraphBuilder.FiledOthers | server_src/graph.py:120-124 | an id no node of the run has keeps its entry |
| GraphBuilder.FiledLast | server_src/graph.py:120-124 | the node filed under an id is the last node of the run with that id |
| GraphBuilder.FiledAppend | server_src/graph.py:120-124 | filing two runs one after the other is filing their concatenation |
| GraphBuilder.ResetRowsSnoc | server_src/graph.py:125 | one more `add_node` empties one more row |
| GraphBuilder.ResetRowsClosed | server_src/graph.py:125 | emptying rows keeps every neighbour a node with a row |
| GraphBuilder.ResetRowsKeeps | server_src/graph.py:125 | emptying rows keeps every entry outside the emptied rows |
| GraphBuilder.ResetRowsNonNegative | server_src/graph.py:125 | emptying rows keeps all weights non-negative |
| GraphBuilder.ResetRowsSymmetric | server_src/graph.py:125 | empty rows for new ids keep a closed adjacency symmetric |
| GraphBuilder.ResetRowsEmpty | server_src/graph.py:437-442 | `add_node` on an empty graph leaves exactly one empty row per id |
| GraphBuilder.BuildingsMembers | server_src/graph.py:439-442 | the first loop files exactly the building-typed nodes |
| GraphBuilder.FloorZeroBeforeMeans | server_src/graph.py:439-442 | floor 0 gets indexed by the first loop iff some building node lies on floor 0 |
| GraphBuilder.CopiedBeforeMeans | server_src/graph.py:458-461 | an earlier pass of the third loop copied nodes iff some earlier node is a stair or elevator |
| GraphBuilder.EmptyRows | server_src/graph.py:437-442 | the rows of the building nodes start empty and exist exactly for their ids |
| GraphBuilder.Wired | server_src/graph.py:444-453 | the second loop's calls join each edge's two ends, weighted by the distance between them |
| GraphBuilder.CopyNode | server_src/graph.py:465-471 | a copy keeps the location, building and type of its node and lies on the given floor |
| GraphBuilder.Copies | server_src/graph.py:464-471 | one node's copies, one per floor from 0 below `num_floors`, none when that is not positive |
| GraphBuilder.CopiesSnoc | server_src/graph.py:464-471 | the copy on one more floor, whose id is the node's id with segment 1 rewritten, comes last |
| GraphBuilder.CopiesAt | server_src/graph.py:464-471 | the copy at position f lies on floor f |
| GraphBuilder.CopiesDistinct | server_src/graph.py:465-467 | copies on different floors get different ids |
| GraphBuilder.CopiesDistinctIds | server_src/graph.py:465-467 | no two copies of one node share an id |
| GraphBuilder.CopiesInAll | server_src/graph.py:458-478 | the copies of each stair or elevator node are among the copies the third loop files |
| GraphBuilder.FreshAt | server_src/graph.py:458-478 | when copy ids are fresh, each node's copies clash with no building id and no earlier copy |
| GraphBuilder.FileIfBuilding | server_src/graph.py:439-442 | one pass of the first loop files the node exactly when it is building-typed, and indexes floor 0 when that node lies there |
| GraphBuilder.AddBuildings | server_src/graph.py:439-442 | the first loop files exactly the building nodes, in order, each with an empty row, and keeps the graph consistent |
| GraphBuilder.EdgeErrorSticks | server_src/graph.py:444-453 | the first failing edge decides what the second loop raises |
| GraphBuilder.WiredNeighbours | server_src/graph.py:444-453 | after the first i edges, v is a neighbour of u iff an edge among them joins the two |
| GraphBuilder.AddNextEdge | server_src/graph.py:445-453 | one pass raises exactly the first applicable of: unknown first end, unknown second end, duplicate; otherwise it adds the edge with its distance |
| GraphBuilder.EdgeChecks | server_src/graph.py:445-451 | after the earlier edges, the pass's membership tests are exactly the checks on edge i against the input |
| GraphBuilder.NextEdgeAdded | server_src/graph.py:453 | an edge that passes, linked with its distance, extends the replay of the edges by one |
| GraphBuilder.AddEdges | server_src/graph.py:444-453 | the second loop raises exactly the first failing edge's error; otherwise the adjacency is the replay of all edges, and the node table is unchanged |
| GraphBuilder.EdgeErrorNone | server_src/graph.py:444-453 | no error among the first n edges means each of them passed its checks |
| GraphBuilder.EdgeLinked | server_src/graph.py:444-453 | with no duplicate, each input edge ends up joined both ways with the distance between its ends |
| GraphBuilder.EdgesLinked | server_src/graph.py:444-453 | after the second loop the adjacency is symmetric, non-negative under a metric, and holds every input edge both ways with its distance |
| GraphBuilder.PlanCopies | server_src/graph.py:463-475 | the floor loop raises `IndexError` for an id without a second segment and otherwise what `get_closest_node` raises; on success it returns the node's copies and a closest floor-0 node for each |
| GraphBuilder.FileCopy | server_src/graph.py:477-478 | one `add_node` of a copy extends the filed run by one and empties its row |
| GraphBuilder.AddCopies | server_src/graph.py:477-478 | files every copy in order, each with an empty row, and never loses floor 0 |
| GraphBuilder.Weighted | server_src/graph.py:140-147 | the weight each call stores: the weight given, or else the distance between its ends |
| GraphBuilder.AddCalls | server_src/graph.py:480-488 | `add_edge` on each call in order replays all the calls on the adjacency and changes nothing else |
| GraphBuilder.AddCall | server_src/graph.py:480-488 | one call extends the replay by one |
| GraphBuilder.ClosestCalls | server_src/graph.py:473-475 | `edges_to_add` pairs each copy with its closest node, with no weight given |
| GraphBuilder.AltitudeCalls | server_src/graph.py:484-488 | the altitude edges join each copy with the next floor's copy with weight 20 |
| GraphBuilder.AddFloorCopies | server_src/graph.py:459-488 | one pass raises what the floor loop raises, changing nothing; otherwise it files the copies and wires each to a closest floor-0 node and to its neighbouring floors |
| GraphBuilder.WireCopies | server_src/graph.py:477-488 | files the copies, adds their closest-node edges and then their altitude edges |
| GraphBuilder.CopiesWiredKeeps | server_src/graph.py:477-488 | one pass touches only entries in the copies' rows and columns |
| GraphBuilder.CopiesWiredClosed | server_src/graph.py:477-488 | one pass keeps every neighbour a node |
| GraphBuilder.CopiesWiredNonNegative | server_src/graph.py:477-488 | under a metric, one pass adds no negative weight |
| GraphBuilder.CopiesWiredSymmetric | server_src/graph.py:477-488 | when no copy id is already a node, one pass keeps the adjacency symmetric |
| GraphBuilder.AltitudeLinked | server_src/graph.py:484-488 | with distinct copy ids, the altitude calls join each copy to the next floor's copy, both ways, with weight 20, whatever came before |
| GraphBuilder.AltitudeCallsApart | server_src/graph.py:484-488 | with distinct copy ids, altitude call f is the last one joining copies f and f+1 |
| GraphBuilder.CopiesWiredAltitude | server_src/graph.py:484-488 | with distinct copy ids, the whole chain of altitude edges is present after the pass |
| GraphBuilder.ClosestCallsAt | server_src/graph.py:480-481 | closest-node call f joins only copy f and its closest node |
| GraphBuilder.ClosestCallsAfter | server_src/graph.py:480-481 | no later closest-node call joins copy f and its closest node, when that node is not a copy |
| GraphBuilder.ClosestCallsFrom | server_src/graph.py:480-481 | every closest-node call starts at a copy |
| GraphBuilder.AltitudeCallsWithin | server_src/graph.py:484-488 | both ends of every altitude call are copies |
| GraphBuilder.CopyJoinedToClosest | server_src/graph.py:473-481 | a copy whose closest node is not a copy ends up joined to it, both ways, with their distance |
| GraphBuilder.CopiesWiredClosest | server_src/graph.py:473-481 | after a pass, every copy whose closest node is not a copy is joined to it with their distance |
| GraphBuilder.CopiesErrorSticks | server_src/graph.py:458-488 | the first failing pass decides what the third loop raises |
| GraphBuilder.PlanErrorIsCopyError | server_src/graph.py:463-475 | a pass raises `IndexError` for an id without a second segment, or a floor-0 lookup failure exactly when no building node and no earlier copy lies on floor 0 |
| GraphBuilder.CopyOnFloors | server_src/graph.py:459-488 | one pass of the third loop raises its node's error, which is then the loop's error, or keeps the loop's state description one node further |
| GraphBuilder.FirstCopyError | server_src/graph.py:458-488 | the first pass that raises decides the whole loop's error |
| GraphBuilder.SkipBuilding | server_src/graph.py:459-461 | the third loop skips a building node, raising nothing |
| GraphBuilder.CopyStairs | server_src/graph.py:463-488 | a pass over a stair or elevator node raises its error or extends the state description |
| GraphBuilder.CopiedStep | server_src/graph.py:463-478 | a non-raising pass files the node's copies after those of earlier nodes, and floor 0 stays non-empty |
| GraphBuilder.StairsPass | server_src/graph.py:463-478 | a non-raising pass over a stair or elevator node appends exactly its copies and raises nothing so far |
| GraphBuilder.CopiedAdj | server_src/graph.py:477-488 | a non-raising pass extends the adjacency's description by that node's copies |
| GraphBuilder.CopiedStepFresh | server_src/graph.py:477-488 | with fresh copy ids, a pass keeps symmetry and every altitude chain so far |
| GraphBuilder.AltitudesKept | server_src/graph.py:477-488 | the altitude chains of earlier nodes survive a pass that rewires only fresh ids |
| GraphBuilder.CopiedStart | server_src/graph.py:437-457 | the graph after the first two loops satisfies the third loop's state description before its first pass |
| GraphBuilder.CopyAllOnFloors | server_src/graph.py:458-488 | the third loop raises exactly the first pass's error, or keeps its state description to the end |
| GraphBuilder.CreateDone | server_src/graph.py:433-490 | after the third loop, the table holds the building nodes and every copy, and the input edges and non-negativity hold; with fresh copy ids, symmetry and the altitude chains hold too |
| GraphBuilder.CreateGraph | server_src/graph.py:433-490 | raises exactly the first bad edge, or else the first failing copy pass; otherwise returns a consistent graph with the building nodes and all copies, every input edge joined with its distance, non-negative weights under a metric, and, with fresh copy ids, symmetry and every altitude chain |
| Geometry.OpenCandidatesExactly | server_src/graph.py:286-291 | the loop over consecutive vertices selects exactly the edges whose longitudes strictly straddle the point |
| Geometry.CandidatesExactly | server_src/graph.py:282-299 | the candidate edges are the straddling consecutive edges plus the closing edge exactly when that one straddles |
| Geometry.IntersectionX | server_src/graph.py:301-307 | the returned latitude offset lies on the edge's line, and between its endpoints on a straddling edge |
| Geometry.OpenCandidatesCount | server_src/graph.py:282-299 | counting positive intercepts on the consecutive candidates counts their crossings north of the point |
| Geometry.CandidatesCount | server_src/graph.py:309-324 | counting positive intercepts over all candidates is the number of crossings |
| Geometry.EdgesToCheck | server_src/graph.py:282-299 | fails exactly on an empty polygon (`vertices[0]`); otherwise returns the candidate edges in order |
| Geometry.IsWithinArea | server_src/graph.py:309-324 | fails exactly on an empty polygon; otherwise reports an odd number of crossings |
| Geometry.OutsideWhenNorth | server_src/graph.py:309-324 | a point north of every vertex is outside |
| Geometry.OutsideWhenBeside | server_src/graph.py:309-324 | a point at or east of every vertex's longitude is outside |
| Geometry.GetCurrentBuilding | server_src/graph.py:493-500 | returns the first footprint containing the point, none exactly when no footprint does, and fails exactly when an empty footprint is reached first |
| NodeIds.FloorText | server_src/graph.py:388 | `str(floor)` is non-empty and has no '.' |
| NodeIds.FloorTextRoundTrip | server_src/graph.py:388 | the floor, or `None`, reads back from its text |
| NodeIds.IdSegments | server_src/graph.py:387-390 | an id has at least three '.'-free segments |
| NodeIds.NodeId | server_src/graph.py:387-390 | the id of a CSV name: its segments with the floor text inserted after the first and the type letter appended, joined by '.'; `NodeIdRoundTrip` and `NodeIdInjective` state what it guarantees |
| NodeIds.IdSegmentsOfId | server_src/graph.py:387-390 | splitting an id at '.' gives back its segments |
| NodeIds.NodeIdRoundTrip | server_src/graph.py:387-390 | an id reads back as its name, floor and type |
| NodeIds.NodeIdInjective | server_src/graph.py:387-390 | different name, floor or type give different ids |
| NodeIds.CopyId | server_src/graph.py:465-467 | rewriting segment 1 raises `IndexError` exactly for an id without '.' |
| NodeIds.WithSegment1 | server_src/graph.py:465-467 | replacing segment 1 fails exactly for an id without '.' |
| NodeIds.SplitHasSep | server_src/graph.py:465-466 | an id splits into at least two segments iff it contains '.' |
| NodeIds.WithSegment1OfJoin | server_src/graph.py:465-467 | on a joined id, replacing segment 1 joins the segments with that one replaced |
| NodeIds.CopyOfNodeId | server_src/graph.py:387-390 | the copy of an id on floor g is the id of the same name and type on floor g |
| NodeIds.CopyIdsDistinct | server_src/graph.py:465-467 | copies of one id on different floors differ |
| NodeIds.LocationIndex | server_src/graph.py:401-403 | every node's location is a key, only those, and a location maps to the last node standing there |
| NodeIds.PolylineEdges | server_src/graph.py:418-426 | fails at the first point with no node; otherwise returns one pair per consecutive two points, holding their nodes' ids |
| Text.Split | server_src/graph.py:465 | `split` gives at least one segment, none containing the separator |
| Text.JoinSplit | server_src/graph.py:465-467 | joining the segments of a split gives back the string |
| Text.Join | server_src/graph.py:390 | `sep.join(segs)`, defined segment by segment; `JoinSplit` and `SplitJoin` prove it inverse to `Split` |
| Text.SplitPlain | server_src/graph.py:465 | a string without the separator splits into itself |
| Text.SplitAppend | server_src/graph.py:465 | a separator-free prefix and separator split off as the first segment |
| Text.SplitJoin | server_src/graph.py:465-467 | splitting a join of separator-free segments gives back the segments |
| Text.DigitChar | server_src/graph.py:466 | a digit's character is a decimal digit of that value |
| Text.IntText | server_src/graph.py:466 | `str(int)` is non-empty |
| Text.IntTextDigits | server_src/graph.py:466 | a natural's text is its decimal digits, with no leading zero |
| Text.IntTextChars | server_src/graph.py:466 | an integer's text has no '.' or ',' |
| Text.IntTextRoundTrip | server_src/graph.py:466 | an integer reads back from its text |
| Text.IntTextInjective | server_src/graph.py:466 | different integers have different texts |
| Text.HexByte | tests/api_client/src/ApiClient.cpp:267 | `%02x` of a byte is two characters with no ':', '"' or ',' |
| Text.HexByteRoundTrip | tests/api_client/src/ApiClient.cpp:267 | a byte reads back from its two hex digits |
| CInt.Sub32 | src/Button.cpp:20-73 | unsigned 32-bit subtraction wraps around modulo 2^32 |
| CInt.ToU8 | src/Button.cpp:4-13 | the conversion to `uint8_t` keeps values below 256 and otherwise agrees modulo 256 |
| ApiBuffers.StrLen | tests/api_client/src/ApiClient.cpp:130 | `strlen` is the index of the first NUL |
| ApiBuffers.AppendExtendsString | tests/api_client/src/ApiClient.cpp:133-134 | writing a character at the terminator and a NUL after it extends the C string by that character |
| ApiBuffers.FirstNul | tests/api_client/src/ApiClient.cpp:130 | a NUL with none before it is the string's end |
| ApiBuffers.AdmittedAsWritten | tests/api_client/src/ApiClient.cpp:131 | the guard as written: an append goes ahead unless the length exceeds `buff_size`; `CharAppendOverrun` shows it admits a length that leaves no room |
| ApiBuffers.Admitted | tests/api_client/src/ApiClient.cpp:131 | the intended guard: the character and the new NUL both fit in `buff_size` characters; `CharAppend` is stated against it |
| ApiBuffers.CharAppendAsWritten | tests/api_client/src/ApiClient.cpp:128-136 | as written: refuses only when the length exceeds the size, and otherwise writes the character and a NUL after the string |
| ApiBuffers.CharAppendOverrun | tests/api_client/src/ApiClient.cpp:131-134 | on a 4-char buffer holding "abc", the guard as written admits the append, whose NUL lands one past the end, while the intended guard refuses |
| ApiBuffers.CharAppend | tests/api_client/src/ApiClient.cpp:118-136 | refuses exactly when the character and the terminator would not fit in `buff_size`; otherwise appends the character to the C string |
| ApiBuffers.HexPieces | tests/api_client/src/ApiClient.cpp:267 | one two-digit hex piece per address byte |
| ApiBuffers.MacText | tests/api_client/src/ApiClient.cpp:267 | the six `%02x` pieces of the address joined by ':'; `MacTextRoundTrip` proves the bytes read back |
| ApiBuffers.WifiObject | tests/api_client/src/ApiClient.cpp:267 | the text the `sprintf` of `wifi_object_builder` writes; `WifiObjectFields` and `WifiObjectRoundTrip` prove it splits into its four fields and reads back as its inputs |
| ApiBuffers.HexPiecesRoundTrip | tests/api_client/src/ApiClient.cpp:267 | the address bytes read back from their hex pieces |
| ApiBuffers.MacTextRoundTrip | tests/api_client/src/ApiClient.cpp:267 | the colon-separated address reads back as the six bytes and has no ',' or '"' |
| ApiBuffers.FormatFields | tests/api_client/src/ApiClient.cpp:267 | the object text is its four comma-separated fields |
| ApiBuffers.WifiObjectFields | tests/api_client/src/ApiClient.cpp:267 | the object text splits at ',' into address, signal, age and channel fields |
| ApiBuffers.ParseFieldsOfTexts | tests/api_client/src/ApiClient.cpp:267 | fields holding readable texts read back as address, signal and channel |
| ApiBuffers.ParseFieldsOf | tests/api_client/src/ApiClient.cpp:267 | the object's fields read back as its address, signal strength and channel |
| ApiBuffers.WifiObjectRoundTrip | tests/api_client/src/ApiClient.cpp:265-277 | the JSON object `wifi_object_builder` writes reads back as its address, signal strength and channel |
| ApiBuffers.WriteCString | tests/api_client/src/ApiClient.cpp:267 | `sprintf` writes the text and its NUL and leaves the rest of the buffer alone |
| ApiBuffers.WifiObjectBuilder | tests/api_client/src/ApiClient.cpp:265-277 | writes the object text; when it is longer than `os_len`, empties the buffer and returns 0, otherwise returns its length |
| ApiBuffers.WriteBounded | tests/api_client/src/ApiClient.cpp:267-276 | after writing, an over-long text is cut to the empty string and reported as 0 |
| PushButton.Pressed | src/Button.cpp:15-18 | the button reads as pressed exactly when the pin is low |
| PushButton.Step | src/Button.cpp:20-73 | the switch of `update` on the state, the clock and the pin; `FlagOnlyOnRelease` to `PressCycle` state its transitions and flags |
| PushButton.FlagOnlyOnRelease | src/Button.cpp:20-73 | the flag is non-zero only when a settled release moves S4 to S0, and it is 0, 1 or 2 |
| PushButton.ReleaseFlag | src/Button.cpp:54-61 | a release settled for the debounce time ends in S0 with flag 1 for a short press, 2 for a long one |
| PushButton.IdleUntilPressed | src/Button.cpp:25-30 | S0 is left only by a press, which starts the debounce timer |
| PushButton.Debounce | src/Button.cpp:31-39 | S1 reaches S2 iff still pressed after the debounce time, starting the press timer; a release goes back to S0 |
| PushButton.HoldAndRelease | src/Button.cpp:40-53 | S2 turns into S3 after the long-press time; a release from S2 or S3 enters S4 and restarts the change timer |
| PushButton.RepressDuringRelease | src/Button.cpp:62-68 | a bounce during S4 returns to S2 or S3 by the press time, which is not restarted |
| PushButton.PressCycle | src/Button.cpp:20-73 | a full press from rest reports 1 or 2 by its length on the last call only, and ends at rest |
| PushButton.Button.constructor | src/Button.cpp:4-13 | a new button sits in S0 with no flag, and both timers at the current time |
| PushButton.Button.Read | src/Button.cpp:15-18 | records whether the pin reads pressed |
| PushButton.Button.Update | src/Button.cpp:20-73 | reads the pin and moves the fields as the machine's step says, returning its flag |
| Navigation.FlagOnlyOnArrival | tests/navigation/src/Navigation.cpp:72-113 | `navigate` returns 1 exactly in ROUTING when the server reports arrival, else 0 |
| Navigation.Step | tests/navigation/src/Navigation.cpp:72-113 | the switch of `navigate` on the state, the timer and the arrival answer; `FlagOnlyOnArrival` to `RefreshCycle` state its transitions and flag |
| Navigation.IdleAndLocating | tests/navigation/src/Navigation.cpp:76-88 | IDLE starts locating iff navigation is on; LOCATING always goes on to ROUTING |
| Navigation.RoutingRestartsTimer | tests/navigation/src/Navigation.cpp:90-99 | ROUTING goes on to NAVIGATING and restarts the refresh timer |
| Navigation.NavigatingRefreshes | tests/navigation/src/Navigation.cpp:101-110 | NAVIGATING returns to IDLE when navigation ends, to LOCATING after the refresh period, else stays |
| Navigation.RefreshCycle | tests/navigation/src/Navigation.cpp:72-113 | a route is requested on the third call after navigation starts and again once the refresh period runs out |
| Navigation.Navigation.constructor | tests/navigation/src/Navigation.cpp:10-13 | a new loop is IDLE, not navigating, with a zero timer |
| Navigation.Navigation.BeginNavigation | tests/navigation/src/Navigation.cpp:58-66 | stores the floor, destination and destination floor, turns navigation on and restarts the timer |
| Navigation.Navigation.EndNavigation | tests/navigation/src/Navigation.cpp:68-70 | turns navigation off |
| Navigation.Navigation.Navigate | tests/navigation/src/Navigation.cpp:72-113 | moves as the loop's step says, fetching the location only in LOCATING and the arrival only in ROUTING |
| Picker.CRem | src/DestinationSelection.cpp:3-6 | C's `%`: below the divisor in magnitude, with the sign of the dividend, and the quotient relation |
| Picker.Mod | src/DestinationSelection.cpp:3-6 | `mod`: C's remainder moved up by `b` when negative; `ModIsResidue` proves it the least non-negative residue |
| Picker.ModIsResidue | src/DestinationSelection.cpp:3-6 | `mod` with a positive modulus lands in [0, b) and differs from a by a multiple of b |
| Picker.Scroll | src/DestinationSelection.cpp:80-93 | the scroll block on one index: the new index and timer; `ScrollMoves` states the step, the wrap-around and the case where nothing moves |
| Picker.Cleared | src/DestinationSelection.cpp:27-30 | `clear_selection` on the fields: both indices -1, the rest kept |
| Picker.Step | src/DestinationSelection.cpp:67-147 | the switch of `update` on the fields, `selecting`, the button flag, the tilt and the clock; the lemmas from `StepKeepsIndicesValid` to `ConfirmWithNothingChosen` state its behaviour |
| Picker.ScrollMoves | src/DestinationSelection.cpp:80-93 | a due scroll moves the index by one in the tilt's direction, wrapping around, and restarts the timer; otherwise nothing moves |
| Picker.ScrollFromUnchosen | src/DestinationSelection.cpp:80-93 | from no choice, tilting up picks the first building and tilting down the one before the last |
| Picker.StepKeepsIndicesValid | src/DestinationSelection.cpp:67-147 | `update` keeps each index at -1 or inside its table |
| Picker.ConfirmReturnsOne | src/DestinationSelection.cpp:127-137 | `update` returns 1 exactly when a short press confirms, entering DESTINATION_SELECTED |
| Picker.LongPressStartsOver | src/DestinationSelection.cpp:100-137 | a long press while choosing the floor or confirming clears both choices and returns to choosing the building |
| Picker.ShortPressAdvancesUnchecked | src/DestinationSelection.cpp:80-124 | at any tilt, a short press advances from building to floor and from floor to confirmation, whether or not anything was chosen, returning 0; the index being chosen is the scroll block's result, so it is unchanged when no scroll is due, and the other index is kept |
| Picker.ConfirmWithNothingChosen | src/DestinationSelection.cpp:59-147 | from a new picker, level, one idle call and three short presses return 1 in DESTINATION_SELECTED with both indices -1, outside both tables, which is where the getters as written copy from |
| Picker.SelectingGates | src/DestinationSelection.cpp:73-78 | IDLE starts choosing iff selecting; DESTINATION_SELECTED clears and returns to IDLE iff not |
| Picker.Entry | src/DestinationSelection.cpp:59-65 | a table entry exists exactly at an index inside the table |
| Picker.ScrollStep | src/DestinationSelection.cpp:80-93 | one scroll step computes what the scroll function says |
| Picker.DestinationSelection.constructor | src/DestinationSelection.cpp:14-20 | a new picker is IDLE with no choice, not selecting, with the scroll timer at the current time |
| Picker.DestinationSelection.ClearSelection | src/DestinationSelection.cpp:27-30 | clears both choices and nothing else |
| Picker.DestinationSelection.BeginSelection | src/DestinationSelection.cpp:42-44 | turns selecting on |
| Picker.DestinationSelection.EndSelection | src/DestinationSelection.cpp:46-48 | turns selecting off |
| Picker.DestinationSelection.GetDestinationBuilding | src/DestinationSelection.cpp:59-61 | the chosen building's name, none when nothing is chosen |
| Picker.DestinationSelection.GetDestinationFloor | src/DestinationSelection.cpp:63-65 | the chosen floor's name, none when nothing is chosen |
| Picker.DestinationSelection.Update | src/DestinationSelection.cpp:67-147 | moves as the picker's step says, returns its flag and keeps the indices valid |
| PickerTestRevision.DestinationSelection.constructor | tests/destination_selection/src/DestinationSelection.cpp:14-20 | a new picker is IDLE with no choice, not selecting, with the scroll timer at the current time |
| PickerTestRevision.DestinationSelection.ClearSelection | tests/destination_selection/src/DestinationSelection.cpp:27-30 | clears both choices and nothing else |
| PickerTestRevision.DestinationSelection.BeginSelection | tests/destination_selection/src/DestinationSelection.cpp:42-44 | turns selecting on |
| PickerTestRevision.DestinationSelection.EndSelection | tests/destination_selection/src/DestinationSelection.cpp:46-48 | turns selecting off |
| PickerTestRevision.DestinationSelection.GetDestinationBuilding | tests/destination_selection/src/DestinationSelection.cpp:61-65 | the chosen building's name, none when nothing is chosen |
| PickerTestRevision.DestinationSelection.GetDestinationFloor | tests/destination_selection/src/DestinationSelection.cpp:67-71 | the chosen floor's name, none when nothing is chosen |
| PickerTestRevision.DestinationSelection.Update | tests/destination_selection/src/DestinationSelection.cpp:73-155 | moves as the same step as the other revision, returns its flag and keeps the indices valid |

## Left out

- The geodesic distance (`geopy`) is a parameter `dist` of the graph. Where a proof needs it to be a metric, the contract says so with `IsMetric`: non-negative, zero on equal points, and zero only on equal points.
- NavGraph.ClosestIsSelf: relies on the third axiom of `IsMetric`, that a zero distance means equal `Location`s. Geodesic distance on raw (lat, lon) pairs does not satisfy it: (90, 0) and (90, 10) are different pairs naming the same pole, and longitudes 180 and -180 name the same meridian. The lemma holds for normalised coordinates only.
- NavGraph.Graph.GetClosestNode: its last ensures, that a node at the query point yields a node at that point, relies on the same third axiom and has the same limit.
- Floating point is modelled as exact reals, and `float('inf')` as a separate `Inf` cost value. Rounding is not modelled.
- `Edge._calculate_direction` and `calculate_eta` are not modelled; no core operation uses them.
- The CSV readers are modelled only by their pure logic: node ids (`NodeIds.NodeId`) and polyline pairs (`NodeIds.PolylineEdges`). File reading, the fixed-offset slicing of the WKT text and `float` parsing are I/O.
- `create_all_graph_components` is not modelled; it only chains the readers and `create_graph`.
- `parse_nodes`' building lookup is not modelled separately; it is the same loop as `get_current_building`.
- `Polygon.add_vertex` and `num_vertices` are the sequence's append and length.
- The request handler, the compass, the WiFi scan, the HTTP client and the TFT and serial output are not modelled; they are I/O.
- The server test scripts and the early draft of the firmware's navigation loop under src/ are not modelled.
- `millis()`, the tilt angle, the pin reading and the values fetched from the server are parameters of the methods that use them.
- PushButton.Button.Update: reads the clock once per call, where the source calls `millis()` once per branch it takes.
- PushButton.Button.constructor: sets both timers from one clock value `now`, where the source calls `millis()` twice and the two readings can differ by a tick.
- Navigation.Navigation.Navigate: `fetch_location` and `fetch_instructions` are parameters. Only the location and the arrival flag are kept; the rest of the instructions and the display are I/O.
- Navigation.Navigation.BeginNavigation: `strcpy` of the destination is a string copy; the size of the destination array is not modelled.
- Uninitialised C++ fields start at the zero value of their type in the constructors.
- `get_angle`, `initialize_imu` and `display_selection` of the picker are not modelled; they are IMU and display I/O.
- The tilt angle is a `real`. The threshold is the single-precision constant, but float rounding of the angle is not modelled.
- Picker.DestinationSelection.GetDestinationBuilding: returns `None` when no building is chosen. The source copies `BUILDINGS[-1]` then, a read outside the table whose result C leaves undefined; `ConfirmWithNothingChosen` shows that case is reachable. `None` stands for that undefined read.
- Picker.DestinationSelection.GetDestinationFloor: returns `None` when no floor is chosen, standing for the source's undefined read of `FLOORS[-1]`.
- PickerTestRevision.DestinationSelection.GetDestinationBuilding: returns the chosen text. The source returns a pointer to a local array, which dangles once the call returns. At index -1 it also reads outside the table, which `None` stands for.
- PickerTestRevision.DestinationSelection.GetDestinationFloor: the same as the building getter: the local array's pointer dangles, and `None` stands for the read outside `FLOORS` at index -1.
- Picker.DestinationSelection.Update and PickerTestRevision.DestinationSelection.Update: read the clock once per call, where the scroll block calls `millis()` twice, once for the test and once for the new timer.
- The floor display of the test revision, which prints from the building table, is display code and not modelled.
- NavGraph.Graph.GetClosestNode: returns some nearest node. The source returns the first nearest one in the set's iteration order; that order is not modelled, so ties may resolve differently.
- NavGraph.Graph.FindShortestPath: the same holds for ties between destinations at equal distance.
- NavGraph.Graph.Sssp: the priority queue is a set of (distance, id) entries, popped in Python's tuple order. A repeated push of an equal entry is not counted twice.
- NavGraph.Graph.GetNeighbors: returns a set where the source returns a list in dictionary order.
- GraphBuilder.CreateGraph: only input edges whose two ends are outside the copy ids are stated to be joined with their distance. A copy can reuse the id of a building node or of an earlier copy and so replace its row.
- GraphBuilder.CreateGraph: symmetry and the altitude chains are stated only when no copy id reuses such an id (`FreshCopies`).
- GraphBuilder.CreateGraph: the edge from each copy to its closest floor-0 node is stated per pass, by `AddFloorCopies` and `CopiesWiredClosest`. `CreateGraph`'s own contract does not repeat it.
- NavGraph.Graph.Valid: index sets are only required to cover the nodes filed under them. A replaced node's id stays in its old building, floor and type sets, as in the source.
- ApiBuffers.WifiObjectBuilder: requires the buffer to hold the whole object and its terminator. The source calls `sprintf` before comparing the length, so a smaller buffer overflows, which the model does not represent.
- ApiBuffers.CharAppendAsWritten: requires `buff_size + 2` characters of array, because the guard as written lets it write there. The overrun past `buff_size` is shown separately by `CharAppendOverrun`.
- The rest of the API client (HTTP requests, JSON parsing of the server's replies, the WiFi scan loop) is I/O and not modelled.

## Findings

| source | as written | input that shows it | evidently intended | confidence | as-written member | corrected member |
|---|---|---|---|---|---|---|
| tests/api_client/src/ApiClient.cpp:131-134 | `char_append` refuses only when `strlen(buff) > buff_size`, then writes the character at `len` and a NUL at `len + 1` | a `buff_size` of 4 holding "abc": the length 3 passes the guard and the NUL goes to index 4, one past the buffer | refuse unless the character and the terminator both fit: `len + 2 <= buff_size` | not executed | ApiBuffers.CharAppendAsWritten, ApiBuffers.CharAppendOverrun | ApiBuffers.CharAppend |
| src/DestinationSelection.cpp:59-65 | `get_destination_building` and `get_destination_floor` copy `BUILDINGS[destination_building_index]` and `FLOORS[destination_floor_index]` without checking the index | a new picker, level, given one idle call and three short presses (button flag 1): `update` returns 1 in DESTINATION_SELECTED with both indices still -1, and the getters then read index -1 | the getters report that nothing was chosen instead of reading outside the table | not executed | Picker.ConfirmWithNothingChosen | Picker.Entry, Picker.DestinationSelection.GetDestinationBuilding, Picker.DestinationSelection.GetDestinationFloor |
