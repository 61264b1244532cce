/**
 * The graph store of server_src/graph.py: the `Graph` class with its node
 * table, symmetric weighted adjacency map and the index sets by building,
 * floor and node type, together with the queries built on it: the
 * nearest-node scan, single-source shortest paths, the parent walk and the
 * nearest reachable node of a building.
 */
module NavGraph {
  import opened Wrappers
  import opened Geometry
  import opened PathSearch

  datatype NodeType = Building | Elevator | Stair

  /** The enum value of a node type, the letter that ends node ids. */
  function TypeCode(t: NodeType): (c: char)
    ensures c in "bes"
  {
    match t
    case Building => 'b'
    case Elevator => 'e'
    case Stair => 's'
  }

  function TypeOfCode(c: char): Option<NodeType> {
    if c == 'b' then Some(Building)
    else if c == 'e' then Some(Elevator)
    else if c == 's' then Some(Stair)
    else None
  }

  /** The enum's values are distinct, so a type is recovered from its letter. */
  lemma TypeCodeRoundTrip(t: NodeType)
    ensures TypeOfCode(TypeCode(t)) == Some(t)
  {
  }

  /**
   * A node. Raw stair and elevator nodes carry no floor; a node outside
   * every polygon carries no building.
   */
  datatype Node = Node(id: string, location: Location, floor: Option<int>,
                       building: Option<string>, nodeType: NodeType)

  /**
   * Why an operation raised: a `KeyError` on a node id, floor, building,
   * type or location; a `KeyError` on `None`; an attribute read on `None`;
   * a failed `assert`;
   * an `IndexError` on the segments of an id; the two
   * `ValueError`s of `create_graph` (an edge naming a node that is not in
   * the graph, and an edge that is already there).
   */
  datatype GraphError =
    | UnknownNode(id: string)
    | UnknownFloor(floor: Option<int>)
    | UnknownBuilding(building: Option<string>)
    | UnknownType(nodeType: NodeType)
    | UnknownLocation(location: Location)
    | NoneKey
    | NoneAttribute
    | AssertionFailed
    | IndexError
    | InvalidEdge(u: string, v: string, missing: string)
    | DuplicateEdge(u: string, v: string)

  /** The geodesic distance as far as the model relies on it. */
  ghost predicate IsMetric(dist: (Location, Location) -> real) {
    && (forall a, b :: dist(a, b) >= 0.0)
    && (forall a :: dist(a, a) == 0.0)
    && (forall a, b :: dist(a, b) == 0.0 ==> a == b)
  }

  /** An index map after `if k not in m: m[k] = set()` and `m[k].add(id)`. */
  function AddToIndex<K>(m: map<K, set<string>>, k: K, id: string): map<K, set<string>>
  {
    m[k := (if k in m then m[k] else {}) + {id}]
  }

  /** The adjacency after `add_edge` stores weight `w` in the rows of both `u` and `v`. */
  function Link(adj: Adj, u: string, v: string, w: real): (r: Adj)
    requires u in adj && v in adj
    ensures r.Keys == adj.Keys
    ensures r[u].Keys == adj[u].Keys + {v} && r[v].Keys == adj[v].Keys + {u}
    ensures r[u][v] == w && r[v][u] == w
  {
    var a1 := adj[u := adj[u][v := w]];
    a1[v := a1[v][u := w]]
  }

  /** Linking `u` and `v` leaves every other adjacency entry as it was. */
  lemma LinkOthers(adj: Adj, u: string, v: string, w: real)
    requires u in adj && v in adj
    ensures var r := Link(adj, u, v, w);
      && (forall x, y :: x in adj && y in adj[x] && !(x == u && y == v) && !(x == v && y == u) ==>
            y in r[x] && r[x][y] == adj[x][y])
      && (forall x :: x in adj && x != u && x != v ==> r[x] == adj[x])
  {
  }

  /**
   * The node table and its index sets agree: every node is filed under its
   * own id and in the sets of its building, floor and type, and the sets
   * name only nodes.
   */
  ghost predicate Indexed(vertices: map<string, Node>, buildings: map<Option<string>, set<string>>,
                          floors: map<Option<int>, set<string>>, types: map<NodeType, set<string>>)
  {
    && (forall id {:trigger vertices[id]} :: id in vertices ==> vertices[id].id == id)
    && (forall id {:trigger vertices[id]} :: id in vertices ==>
          && vertices[id].building in buildings && id in buildings[vertices[id].building]
          && vertices[id].floor in floors && id in floors[vertices[id].floor]
          && vertices[id].nodeType in types && id in types[vertices[id].nodeType])
    && (forall b, x {:trigger x in buildings[b]} :: b in buildings && x in buildings[b] ==> x in vertices)
    && (forall f, x {:trigger x in floors[f]} :: f in floors && x in floors[f] ==> x in vertices)
    && (forall t, x {:trigger x in types[t]} :: t in types && x in types[t] ==> x in vertices)
  }

  /** Filing a node, as `add_node` does, keeps the table and the index sets in agreement. */
  lemma AddNodeIndexed(vertices: map<string, Node>, buildings: map<Option<string>, set<string>>,
                       floors: map<Option<int>, set<string>>, types: map<NodeType, set<string>>, node: Node)
    requires Indexed(vertices, buildings, floors, types)
    ensures Indexed(vertices[node.id := node], AddToIndex(buildings, node.building, node.id),
                    AddToIndex(floors, node.floor, node.id), AddToIndex(types, node.nodeType, node.id))
  {
    var vs := vertices[node.id := node];
    var bs := AddToIndex(buildings, node.building, node.id);
    var fs := AddToIndex(floors, node.floor, node.id);
    var ts := AddToIndex(types, node.nodeType, node.id);
    forall id | id in vs
      ensures && vs[id].building in bs && id in bs[vs[id].building]
              && vs[id].floor in fs && id in fs[vs[id].floor]
              && vs[id].nodeType in ts && id in ts[vs[id].nodeType]
    {
      if id != node.id {
        assert vs[id] == vertices[id];
      }
    }
  }

  /** Resetting a row keeps rows naming only nodes that have rows. */
  lemma ResetRowClosed(adj: Adj, id: string)
    requires Closed(adj)
    ensures Closed(adj[id := map[]])
  {
    var a := adj[id := map[]];
    forall u | u in a ensures a[u].Keys <= a.Keys {
      if u != id {
        assert a[u] == adj[u];
      }
    }
  }

  /** Adding an empty row for a new node keeps a closed adjacency map symmetric. */
  lemma NewRowSymmetric(adj: Adj, id: string)
    requires Closed(adj) && IsSymmetric(adj) && id !in adj
    ensures IsSymmetric(adj[id := map[]])
  {
    var a := adj[id := map[]];
    forall u, v | u in a && v in a[u] ensures v in a && u in a[v] && a[v][u] == a[u][v] {
      assert u != id;
      assert v in adj[u];
      assert v != id;
    }
  }

  /** A symmetric adjacency map: every entry has its mirror with the same weight. */
  ghost predicate IsSymmetric(adj: Adj) {
    forall u, v {:trigger adj[u][v]} :: u in adj && v in adj[u] ==> v in adj && u in adj[v] && adj[v][u] == adj[u][v]
  }

  /** Linking two nodes that have rows keeps rows naming only nodes that have rows. */
  lemma LinkClosed(adj: Adj, u: string, v: string, w: real)
    requires u in adj && v in adj && Closed(adj)
    ensures Closed(Link(adj, u, v, w))
  {
    LinkOthers(adj, u, v, w);
  }

  /** Linking keeps an adjacency map symmetric. */
  lemma LinkSymmetric(adj: Adj, u: string, v: string, w: real)
    requires u in adj && v in adj && IsSymmetric(adj)
    ensures IsSymmetric(Link(adj, u, v, w))
  {
    LinkOthers(adj, u, v, w);
    var r := Link(adj, u, v, w);
    forall x, y | x in r && y in r[x] ensures y in r && x in r[y] && r[y][x] == r[x][y] {
      if (x == u && y == v) || (x == v && y == u) {
      } else {
        assert y in adj[x];
        assert !(y == u && x == v) && !(y == v && x == u);
      }
    }
  }

  /** Linking with a non-negative weight keeps all weights non-negative. */
  lemma LinkNonNegative(adj: Adj, u: string, v: string, w: real)
    requires u in adj && v in adj && NonNegative(adj) && w >= 0.0
    ensures NonNegative(Link(adj, u, v, w))
  {
    LinkOthers(adj, u, v, w);
    var r := Link(adj, u, v, w);
    forall x, y | x in r && y in r[x] ensures r[x][y] >= 0.0 {
      if !((x == u && y == v) || (x == v && y == u)) {
        assert y in adj[x];
      }
    }
  }

  /** The result of `sssp`: `dist` and `parent`. */
  datatype SsspResult = SsspResult(dist: map<string, Cost>, parent: map<string, Option<string>>)

  /** `c` is a node of `ids` at least as near to `p` as every other node of `ids`. */
  ghost predicate IsClosest(dist: (Location, Location) -> real, vertices: map<string, Node>,
                            ids: set<string>, p: Location, c: string)
  {
    && c in ids && ids <= vertices.Keys
    && forall v :: v in ids ==> dist(p, vertices[c].location) <= dist(p, vertices[v].location)
  }

  /**
   * Under the metric axioms, a node standing exactly at `p`, alone at that
   * location among `ids`, is the closest node to `p`.
   */
  lemma ClosestIsSelf(dist: (Location, Location) -> real, vertices: map<string, Node>,
                      ids: set<string>, n: string, c: string)
    requires IsMetric(dist) && n in ids && ids <= vertices.Keys
    requires forall v :: v in ids && v != n ==> vertices[v].location != vertices[n].location
    requires IsClosest(dist, vertices, ids, vertices[n].location, c)
    ensures c == n
  {
    var p := vertices[n].location;
    assert dist(p, vertices[c].location) <= dist(p, p);
    assert dist(p, vertices[c].location) == 0.0;
  }

  function Reverse(s: seq<string>): (r: seq<string>)
    ensures |r| == |s| && forall i :: 0 <= i < |s| ==> r[i] == s[|s| - 1 - i]
  {
    if |s| == 0 then [] else Reverse(s[1..]) + [s[0]]
  }

  /** `c < d` on Python floats where `d` may be `inf`: `inf < inf` is false. */
  predicate Less(c: Cost, d: Cost) {
    c.Fin? && Below(c.v, d)
  }

  class Graph {
    /** `geopy`'s distance in metres between two locations, a parameter of the model. */
    const dist: (Location, Location) -> real
    var vertices: map<string, Node>
    var buildings: map<Option<string>, set<string>>
    var floors: map<Option<int>, set<string>>
    var types: map<NodeType, set<string>>
    var adj: Adj

    /**
     * What `add_node` and `add_edge` keep true: every node is filed under
     * its own id and in the index sets of its building, floor and type;
     * index sets name only nodes; adjacency rows exist
     * exactly for the nodes and name only nodes. Index sets may keep an id
     * whose node was since replaced by one with another building or floor.
     */
    ghost predicate Valid()
      reads this
    {
      adj.Keys == vertices.Keys && Closed(adj) && Indexed(vertices, buildings, floors, types)
    }

    ghost predicate Symmetric()
      reads this
    {
      IsSymmetric(adj)
    }

    constructor(dist: (Location, Location) -> real)
      ensures this.dist == dist
      ensures vertices == map[] && buildings == map[] && floors == map[] && types == map[] && adj == map[]
      ensures Valid() && Symmetric()
    {
      this.dist := dist;
      vertices := map[];
      buildings := map[];
      floors := map[];
      types := map[];
      adj := map[];
    }

    function ContainsFloor(floor: Option<int>): (r: bool)
      reads this
      ensures Valid() && !r ==> forall id :: id in vertices ==> vertices[id].floor != floor
    {
      floor in floors
    }

    function ContainsBuilding(building: Option<string>): (r: bool)
      reads this
      ensures Valid() && !r ==> forall id :: id in vertices ==> vertices[id].building != building
    {
      building in buildings
    }

    function ContainsType(t: NodeType): (r: bool)
      reads this
      ensures Valid() && !r ==> forall id :: id in vertices ==> vertices[id].nodeType != t
    {
      t in types
    }

    function ContainsNode(id: string): (r: bool)
      reads this
      ensures Valid() ==> (r <==> id in adj)
    {
      id in vertices
    }

    /** `v1 in adj and v2 in adj[v1]`; in a symmetric graph it does not depend on the orientation. */
    function ContainsEdge(u: string, v: string): (r: bool)
      reads this
      ensures Symmetric() ==> r == (v in adj && u in adj[v])
      ensures Valid() && r ==> ContainsNode(u) && ContainsNode(v)
    {
      u in adj && v in adj[u]
    }

    function GetNode(id: string): (r: Result<Node, GraphError>)
      reads this
      ensures r.Err? <==> !ContainsNode(id)
      ensures r.Err? ==> r.error == UnknownNode(id)
      ensures Valid() && r.Ok? ==> r.value.id == id
    {
      if id in vertices then Ok(vertices[id]) else Err(UnknownNode(id))
    }

    /** The neighbours of a node; in a symmetric graph each of them has the node as neighbour. */
    function GetNeighbors(id: string): (r: Result<set<string>, GraphError>)
      reads this
      ensures r.Err? <==> id !in adj
      ensures r.Err? ==> r.error == UnknownNode(id)
      ensures Valid() && r.Ok? ==> r.value <= vertices.Keys
      ensures Symmetric() && r.Ok? ==> forall n :: n in r.value ==> ContainsEdge(n, id)
    {
      if id in adj then Ok(adj[id].Keys) else Err(UnknownNode(id))
    }

    /** The ids filed under a building: every node of that building, and only nodes. */
    function GetNodesByBuilding(building: Option<string>): (r: Result<set<string>, GraphError>)
      reads this
      ensures r.Err? <==> !ContainsBuilding(building)
      ensures r.Err? ==> r.error == UnknownBuilding(building)
      ensures Valid() && r.Ok? ==> r.value <= vertices.Keys
      ensures Valid() && r.Ok? ==> forall id :: id in vertices && vertices[id].building == building ==> id in r.value
    {
      if building in buildings then Ok(buildings[building]) else Err(UnknownBuilding(building))
    }

    function GetNodesByFloor(floor: Option<int>): (r: Result<set<string>, GraphError>)
      reads this
      ensures r.Err? <==> !ContainsFloor(floor)
      ensures r.Err? ==> r.error == UnknownFloor(floor)
      ensures Valid() && r.Ok? ==> r.value <= vertices.Keys
      ensures Valid() && r.Ok? ==> forall id :: id in vertices && vertices[id].floor == floor ==> id in r.value
    {
      if floor in floors then Ok(floors[floor]) else Err(UnknownFloor(floor))
    }

    function GetNodesByType(t: NodeType): (r: Result<set<string>, GraphError>)
      reads this
      ensures r.Err? <==> !ContainsType(t)
      ensures r.Err? ==> r.error == UnknownType(t)
      ensures Valid() && r.Ok? ==> r.value <= vertices.Keys
      ensures Valid() && r.Ok? ==> forall id :: id in vertices && vertices[id].nodeType == t ==> id in r.value
    {
      if t in types then Ok(types[t]) else Err(UnknownType(t))
    }

    /** The ids of all nodes: exactly the ids that have an adjacency row. */
    function GetNodeIds(): (r: set<string>)
      reads this
      ensures Valid() ==> r == adj.Keys
    {
      vertices.Keys
    }

    /** `adj[v1][v2]`; in a symmetric graph both orientations give the same weight. */
    function GetWeight(u: string, v: string): (r: Result<real, GraphError>)
      reads this
      ensures r.Ok? <==> ContainsEdge(u, v)
      ensures r.Err? ==> r.error == UnknownNode(if u in adj then v else u)
      ensures Symmetric() && r.Ok? ==> v in adj && u in adj[v] && adj[v][u] == r.value
    {
      if u !in adj then Err(UnknownNode(u))
      else if v !in adj[u] then Err(UnknownNode(v))
      else Ok(adj[u][v])
    }

    /**
     * `add_node`: files the node under its id, resets its adjacency row to
     * empty and adds its id to the index sets of its building, floor and
     * type. Re-adding an id wipes its own row but not its neighbours'
     * entries for it.
     */
    method AddNode(node: Node)
      requires Valid()
      modifies this
      ensures vertices == old(vertices)[node.id := node]
      ensures adj == old(adj)[node.id := map[]]
      ensures buildings == AddToIndex(old(buildings), node.building, node.id)
      ensures floors == AddToIndex(old(floors), node.floor, node.id)
      ensures types == AddToIndex(old(types), node.nodeType, node.id)
      ensures Valid()
    {
      AddNodeIndexed(vertices, buildings, floors, types, node);
      ResetRowClosed(adj, node.id);
      vertices := vertices[node.id := node];
      adj := adj[node.id := map[]];
      buildings := AddToIndex(buildings, node.building, node.id);
      floors := AddToIndex(floors, node.floor, node.id);
      types := AddToIndex(types, node.nodeType, node.id);
    }

    /**
     * `add_edge`: stores the same weight under `adj[u][v]` and `adj[v][u]`;
     * the weight is `w` when given and the distance between the two nodes
     * otherwise. Building the edge looks both nodes up first, so an unknown
     * endpoint raises before anything changes.
     */
    method AddEdge(u: string, v: string, w: Option<real>) returns (r: Result<(), GraphError>)
      requires Valid()
      modifies this
      ensures r.Err? <==> !old(ContainsNode(u)) || !old(ContainsNode(v))
      ensures r.Err? ==> r.error == UnknownNode(if u in old(vertices) then v else u)
      ensures r.Err? ==> unchanged(this)
      ensures r.Ok? ==> adj == Link(old(adj), u, v, EdgeWeight(old(vertices), u, v, w))
      ensures vertices == old(vertices) && buildings == old(buildings)
      ensures floors == old(floors) && types == old(types)
      ensures Valid()
    {
      var a := GetNode(u);
      if a.Err? { return Err(a.error); }
      var b := GetNode(v);
      if b.Err? { return Err(b.error); }
      var weight := if w.None? then dist(a.value.location, b.value.location) else w.value;
      LinkClosed(adj, u, v, weight);
      adj := Link(adj, u, v, weight);
      r := Ok(());
    }

    /** The weight `add_edge` stores: the given one, or the distance between the two nodes. */
    ghost function EdgeWeight(vs: map<string, Node>, u: string, v: string, w: Option<real>): real
      requires u in vs && v in vs
    {
      if w.None? then dist(vs[u].location, vs[v].location) else w.value
    }

    /**
     * The loop of `get_closest_node`: keeps the first node met whose
     * distance to `p` is strictly below the best so far, starting from `inf`.
     */
    static method NearestNode(dist: (Location, Location) -> real, vertices: map<string, Node>,
                              ids: set<string>, p: Location)
      returns (closest: Option<string>)
      requires ids <= vertices.Keys
      ensures closest.None? <==> ids == {}
      ensures closest.Some? ==> IsClosest(dist, vertices, ids, p, closest.value)
    {
      var minDist: Cost := Inf;
      closest := None;
      var todo := ids;
      while todo != {}
        invariant todo <= ids
        invariant closest.None? <==> todo == ids
        invariant closest.None? <==> minDist.Inf?
        invariant closest.Some? ==>
                    && closest.value in ids - todo
                    && minDist == Fin(dist(p, vertices[closest.value].location))
                    && forall v :: v in ids - todo ==> minDist.v <= dist(p, vertices[v].location)
        decreases |todo|
      {
        var vId :| vId in todo;
        var v := vertices[vId];
        var w := dist(p, v.location);
        if Below(w, minDist) {
          minDist := Fin(w);
          closest := Some(vId);
        }
        todo := todo - {vId};
      }
    }

    /**
     * `get_closest_node`: the floor argument is overridden by 0 and the
     * type argument is unused; scans the floor-0 nodes of every type in the
     * index set's iteration order and keeps the first strictly nearer one.
     * A graph without floor-0 nodes raises; an empty floor-0 set would
     * raise on reading the id of `None` (`add_node` never leaves a set empty).
     */
    method GetClosestNode(point: Location, floor: Option<int>, nodeType: NodeType)
      returns (r: Result<string, GraphError>)
      requires Valid()
      ensures r.Err? <==> !ContainsFloor(Some(0)) || floors[Some(0)] == {}
      ensures r.Err? ==> r.error == if ContainsFloor(Some(0)) then NoneAttribute else UnknownFloor(Some(0))
      ensures r.Ok? ==> IsClosest(dist, vertices, floors[Some(0)], point, r.value)
      ensures r.Ok? && IsMetric(dist) ==>
        forall v :: v in floors[Some(0)] && vertices[v].location == point ==> vertices[r.value].location == point
    {
      var f := Some(0);
      var ids := GetNodesByFloor(f);
      if ids.Err? { return Err(ids.error); }
      var closest := NearestNode(dist, vertices, ids.value, point);
      if closest.None? {
        return Err(NoneAttribute);
      }
      r := Ok(closest.value);
      if IsMetric(dist) {
        forall v | v in floors[Some(0)] && vertices[v].location == point
          ensures vertices[r.value].location == point
        {
          assert dist(point, vertices[r.value].location) <= dist(point, point);
        }
      }
    }

    /**
     * `sssp(src)`: Dijkstra's search with a priority queue and lazy
     * deletion. An unknown `src` fails the assertion. Otherwise the maps it
     * returns form a shortest-path tree: `dist[src] == 0`, `parent[src]` is
     * `None`, unreached nodes stay at `inf` without a parent entry, tree
     * edges are tight and acyclic, and with non-negative weights every
     * distance is the least weight of a path (see `ShortestDistances`).
     */
    method Sssp(src: string) returns (r: Result<SsspResult, GraphError>, ghost rank: map<string, nat>)
      requires Valid()
      ensures r.Err? <==> !ContainsNode(src)
      ensures r.Err? ==> r.error == AssertionFailed
      ensures r.Ok? ==> IsShortestPathTree(adj, src, r.value.dist, r.value.parent, rank)
    {
      if !ContainsNode(src) {
        return Err(AssertionFailed), map[];
      }
      var nodes := GetNodeIds();
      var d: map<string, Cost> := map id | id in nodes :: Inf;
      d := d[src := Fin(0.0)];
      var seen: set<string> := {};
      var pq: Queue := {Entry(0.0, src)};
      var parent: map<string, Option<string>> := map[];
      parent := parent[src := None];
      ghost var st := Search(d, parent, seen, pq, map[], 0, 0.0);
      InitialSearch(adj, src, d);
      while pq != {}
        invariant SearchInv(adj, src, st)
        invariant st.D == d && st.P == parent && st.seen == seen && st.pq == pq
        decreases adj.Keys - st.seen, |st.pq|
      {
        MinEntryExists(pq);
        var e :| IsMinEntry(e, pq);
        PopStart(adj, src, st, e);
        pq := pq - {e};
        var u := e.id;
        seen := seen + {u};
        ghost var s1 := AfterPop(st, e);
        d, parent, pq := RelaxNeighbours(adj, u, s1, d, parent, seen, pq);
        StepPreserves(adj, src, st, e);
        StepProgress(adj.Keys, st.seen, st.pq, e, Step(adj, st, e));
        st := Step(adj, st, e);
      }
      SearchDone(adj, src, st);
      return Ok(SsspResult(d, parent)), st.rank;
    }

    /**
     * One pass of the inner loop of `sssp`, for the edge from `u` to `n`:
     * an unseen `n` whose distance improves through `u` gets the new
     * distance, `u` as its parent and a fresh queue entry.
     */
    static method RelaxEdge(A: Adj, u: string, n: string, ghost s: Search, ghost done: set<string>,
                            d: map<string, Cost>, parent: map<string, Option<string>>, seen: set<string>, pq: Queue)
      returns (d': map<string, Cost>, parent': map<string, Option<string>>, pq': Queue)
      requires Closed(A) && s.D.Keys == A.Keys && s.seen == seen
      requires u in s.seen && u in A && s.D[u].Fin? && n in A[u] && n !in done
      requires AfterRelaxing(A, s, u, done) == Search(d, parent, seen, pq, s.rank, s.clock, s.lo)
      ensures AfterRelaxing(A, s, u, done + {n}) == Search(d', parent', seen, pq', s.rank, s.clock, s.lo)
    {
      RelaxInto(A, s, u, done, n, d, parent, pq);
      d', parent', pq' := d, parent, pq;
      var w := A[u][n];
      if n !in seen {
        var oldCost := d[n];
        var newCost := d[u].v + w;
        if Below(newCost, oldCost) {
          pq' := pq + {Entry(newCost, n)};
          d' := d[n := Fin(newCost)];
          parent' := parent[n := Some(u)];
        }
      }
    }

    /**
     * The inner loop of `sssp`: every neighbour `n` of `u` that is not yet
     * seen and whose distance improves through `u` gets the new distance,
     * `u` as its parent and a fresh queue entry. The result is the
     * order-independent `AfterRelaxing` of the whole row.
     */
    static method RelaxNeighbours(A: Adj, u: string, ghost s: Search, d: map<string, Cost>, parent: map<string, Option<string>>,
                           seen: set<string>, pq: Queue)
      returns (d': map<string, Cost>, parent': map<string, Option<string>>, pq': Queue)
      requires Closed(A) && s.D.Keys == A.Keys
      requires u in s.seen && u in A && s.D[u].Fin?
      requires s.seen == seen
      requires AfterRelaxing(A, s, u, {}) == Search(d, parent, seen, pq, s.rank, s.clock, s.lo)
      ensures AfterRelaxing(A, s, u, A[u].Keys) == Search(d', parent', seen, pq', s.rank, s.clock, s.lo)
    {
      d', parent', pq' := d, parent, pq;
      var todo := A[u].Keys;
      ghost var done: set<string> := {};
      while todo != {}
        invariant todo + done == A[u].Keys && todo !! done
        invariant AfterRelaxing(A, s, u, done) == Search(d', parent', seen, pq', s.rank, s.clock, s.lo)
        decreases |todo|
      {
        var n :| n in todo;
        d', parent', pq' := RelaxEdge(A, u, n, s, done, d', parent', seen, pq');
        todo := todo - {n};
        done := done + {n};
      }
    }

    /**
     * `parse_sssp_parent`: follows parent pointers from `dest` to the
     * parentless node and returns the nodes in root-to-`dest` order. A
     * `dest` without a parent entry raises. `rank` (ghost) witnesses that
     * the pointers are acyclic, as they are for the maps `sssp` returns.
     */
    static method ParseSsspParent(parent: map<string, Option<string>>, dest: string, ghost rank: map<string, nat>)
      returns (r: Result<seq<string>, GraphError>)
      requires RankedForest(parent, rank)
      ensures r.Err? <==> dest !in parent
      ensures r.Err? ==> r.error == UnknownNode(dest)
      ensures r.Ok? ==> ParentChain(parent, r.value) && r.value[|r.value| - 1] == dest
    {
      if dest !in parent {
        return Err(UnknownNode(dest));
      }
      var path: seq<string> := [];
      var current := dest;
      while parent[current].Some?
        invariant current in parent
        invariant (if |path| > 0 then path[0] else current) == dest
        invariant forall i :: 0 <= i < |path| - 1 ==> path[i] in parent && parent[path[i]] == Some(path[i + 1])
        invariant |path| > 0 ==> path[|path| - 1] in parent && parent[path[|path| - 1]] == Some(current)
        decreases rank[current]
      {
        path := path + [current];
        current := parent[current].value;
      }
      path := path + [current];
      var rev := Reverse(path);
      forall i | 1 <= i < |rev| ensures rev[i] in parent && parent[rev[i]] == Some(rev[i - 1]) {
        var j := |path| - 1 - i;
        assert rev[i] == path[j] && rev[i - 1] == path[j + 1];
      }
      return Ok(rev);
    }

    /**
     * The loop of `find_shortest_path` over the building's nodes: keeps
     * the first node met whose distance is strictly below the best so far,
     * starting from `inf`. It finds nothing iff no node of `T` is reached.
     */
    static method NearestOf(D: map<string, Cost>, T: set<string>) returns (destination: Option<string>, minDist: Cost)
      requires T <= D.Keys
      ensures destination.None? <==> forall t :: t in T ==> D[t].Inf?
      ensures destination.None? ==> minDist == Inf
      ensures destination.Some? ==>
        && destination.value in T && minDist.Fin? && D[destination.value] == minDist
        && forall t :: t in T && D[t].Fin? ==> minDist.v <= D[t].v
    {
      destination, minDist := None, Inf;
      var todo := T;
      while todo != {}
        invariant todo <= T
        invariant destination.None? <==> minDist.Inf?
        invariant destination.None? ==> forall t :: t in T - todo ==> D[t].Inf?
        invariant destination.Some? ==> destination.value in T - todo && D[destination.value] == minDist
        invariant minDist.Fin? ==> forall t :: t in T - todo && D[t].Fin? ==> minDist.v <= D[t].v
        decreases |todo|
      {
        var v :| v in todo;
        if Less(D[v], minDist) {
          minDist := D[v];
          destination := Some(v);
        }
        todo := todo - {v};
      }
    }

    /**
     * `find_shortest_path(src, building)`: asserts that both exist, runs
     * `sssp`, picks the building node with the least finite distance and
     * walks the parents to it. When no node of the building is reachable
     * the destination stays `None` and the parent lookup raises.
     */
    method FindShortestPath(src: string, building: string)
      returns (r: Result<(seq<string>, real), GraphError>)
      requires Valid()
      ensures r.Err? && r.error == AssertionFailed <==> !ContainsNode(src) || !ContainsBuilding(Some(building))
      ensures r.Err? && r.error == NoneKey <==>
        && ContainsNode(src) && ContainsBuilding(Some(building))
        && forall path :: !PathInto(adj, src, buildings[Some(building)], path)
      ensures r.Err? ==> r.error == AssertionFailed || r.error == NoneKey
      ensures r.Ok? ==>
        && PathInto(adj, src, buildings[Some(building)], r.value.0)
        && PathWeight(adj, r.value.0) == r.value.1
      ensures r.Ok? && NonNegative(adj) ==>
        forall path :: PathInto(adj, src, buildings[Some(building)], path) ==> r.value.1 <= PathWeight(adj, path)
    {
      if !ContainsNode(src) || !ContainsBuilding(Some(building)) {
        return Err(AssertionFailed);
      }
      var res, rank := Sssp(src);
      var nodesInBuilding := GetNodesByBuilding(Some(building)).value;
      assert nodesInBuilding <= adj.Keys;
      r := RouteInto(adj, src, res.value.dist, res.value.parent, rank, nodesInBuilding);
    }

    /**
     * The part of `find_shortest_path` after `sssp`: the nearest reached
     * node of `T` and the tree path to it, or the failed parent lookup of
     * `None` when no node of `T` is reached.
     */
    static method RouteInto(A: Adj, src: string, D: map<string, Cost>, P: map<string, Option<string>>,
                            ghost rank: map<string, nat>, T: set<string>)
      returns (r: Result<(seq<string>, real), GraphError>)
      requires IsShortestPathTree(A, src, D, P, rank) && T <= A.Keys
      ensures r.Err? <==> forall path :: !PathInto(A, src, T, path)
      ensures r.Err? ==> r.error == NoneKey
      ensures r.Ok? ==> PathInto(A, src, T, r.value.0) && PathWeight(A, r.value.0) == r.value.1
      ensures r.Ok? && NonNegative(A) ==>
        forall path :: PathInto(A, src, T, path) ==> r.value.1 <= PathWeight(A, path)
    {
      var destination, minDist := NearestOf(D, T);
      TargetsReached(A, src, D, P, rank, T);
      if destination.None? {
        return Err(NoneKey);
      }
      var t := destination.value;
      var walk := ParseSsspParent(P, t, rank);
      var path := walk.value;
      TreePathWeight(A, src, D, P, rank, path);
      assert path[|path| - 1] == t && D[t] == minDist;
      assert PathInto(A, src, T, path) && PathWeight(A, path) == minDist.v;
      if NonNegative(A) {
        NearestTarget(A, src, D, P, rank, T, t);
      }
      r := Ok((path, minDist.v));
    }
  }
}
